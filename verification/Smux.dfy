/** SMUX PDUs over BER (crates/netsnmp-agent/src/smux.rs): values, bindings,
    SNMP PDUs, and the tag shared by open and register requests. Text fields are
    their UTF-8 bytes. */
module Smux {
  import opened Oids
  import opened Values
  import opened Outcomes
  import opened Bytes
  import opened Codecs
  import opened Ber

  // ----- Values -----

  function ValueTag(v: Value): byte {
    match v
    case Integer(_) => 0x02
    case OctetString(_) => 0x04
    case ObjectId(_) => 0x06
    case Null => 0x05
    case IpAddress(_, _, _, _) => 0x40
    case Counter32(_) => 0x41
    case Gauge32(_) => 0x42
    case TimeTicks(_) => 0x43
    case Opaque(_) => 0x44
    case Counter64(_) => 0x46
    case NoSuchObject => 0x80
    case NoSuchInstance => 0x81
    case EndOfMibView => 0x82
  }

  function ValueContent(v: Value): seq<byte> {
    match v
    case Integer(i) => IntContent(i)
    case OctetString(s) => s
    case ObjectId(o) => OidContent(o)
    case IpAddress(a, b, c, d) => [a, b, c, d]
    case Counter32(n) => UnsignedContent(n, 4)
    case Gauge32(n) => UnsignedContent(n, 4)
    case TimeTicks(n) => UnsignedContent(n, 4)
    case Opaque(s) => s
    case Counter64(n) => UnsignedContent(n, 8)
    case _ => []
  }

  function ParseU32(content: seq<byte>): u32 {
    FoldBytes(content, 0x1_0000_0000) % 0x1_0000_0000
  }

  function ParseU64(content: seq<byte>): u64 {
    FoldBytes(content, 0x1_0000_0000_0000_0000) % 0x1_0000_0000_0000_0000
  }

  function DecodeValueByTag(tag: byte, content: seq<byte>): Value {
    if tag == 0x02 then Integer(if content == [] then 0 else ShiftIn(content))
    else if tag == 0x04 then OctetString(content)
    else if tag == 0x06 then (match ParseOid(content) case Ok(o) => ObjectId(o) case Err(_) => ObjectId([]))
    else if tag == 0x05 then Null
    else if tag == 0x41 then Counter32(ParseU32(content))
    else if tag == 0x42 then Gauge32(ParseU32(content))
    else if tag == 0x43 then TimeTicks(ParseU32(content))
    else if tag == 0x40 then
      if |content| == 4 then IpAddress(content[0], content[1], content[2], content[3]) else Null
    else if tag == 0x44 then Opaque(content)
    else if tag == 0x46 then Counter64(ParseU64(content))
    else if tag == 0x80 then NoSuchObject
    else if tag == 0x81 then NoSuchInstance
    else if tag == 0x82 then EndOfMibView
    else Null
  }

  predicate ValueFaithful(v: Value) {
    v.ObjectId? ==> Smuxable(v.oid)
  }

  lemma CounterComesBack(n: u32)
    ensures ParseU32(UnsignedContent(n, 4)) == n
  {
    UnsignedRoundTrip(n, 4, 0x1_0000_0000);
    FoldedU32(UnsignedContent(n, 4), n);
  }

  lemma FoldedU32(content: seq<byte>, n: u32)
    requires FoldBytes(content, 0x1_0000_0000) == n
    ensures ParseU32(content) == n
  {
  }

  lemma Counter64ComesBack(n: u64)
    ensures ParseU64(UnsignedContent(n, 8)) == n
  {
    UnsignedRoundTrip(n, 8, 0x1_0000_0000_0000_0000);
    FoldedU64(UnsignedContent(n, 8), n);
  }

  lemma FoldedU64(content: seq<byte>, n: u64)
    requires FoldBytes(content, 0x1_0000_0000_0000_0000) == n
    ensures ParseU64(content) == n
  {
  }

  lemma NumberComesBack(v: Value)
    requires v.Integer? || v.Counter32? || v.Gauge32? || v.TimeTicks? || v.Counter64?
    ensures DecodeValueByTag(ValueTag(v), ValueContent(v)) == v
  {
    match v
    case Integer(i) => IntContentSpec(i);
    case Counter32(n) => CounterComesBack(n);
    case Gauge32(n) => CounterComesBack(n);
    case TimeTicks(n) => CounterComesBack(n);
    case Counter64(n) => Counter64ComesBack(n);
  }

  /** All thirteen kinds of value come back, an OID exactly when the codec can
      carry it. */
  lemma ValueRoundTripIff(v: Value)
    ensures DecodeValueByTag(ValueTag(v), ValueContent(v)) == v <==> ValueFaithful(v)
  {
    if v.Integer? || v.Counter32? || v.Gauge32? || v.TimeTicks? || v.Counter64? {
      NumberComesBack(v);
    } else if v.ObjectId? {
      OidRoundTripIff(v.oid);
    }
  }

  // ----- Bindings -----

  predicate VarBindFaithful(vb: VarBind) {
    Smuxable(vb.oid) && ValueFaithful(vb.value)
  }

  function VarBindContent(vb: VarBind): seq<byte> {
    Tlv(0x06, OidContent(vb.oid)) + Tlv(ValueTag(vb.value), ValueContent(vb.value))
  }

  function DecodeValue(full: seq<byte>): Result<Value> {
    match ParseTlv(full)
    case Err(e) => Err(e)
    case Ok((tag, content, _)) => Ok(DecodeValueByTag(tag, content))
  }

  function DecodeVarBindContent(content: seq<byte>): Result<VarBind> {
    match ParseTlv(content)
    case Err(e) => Err(e)
    case Ok((_, name, value)) =>
      match ParseOid(name)
      case Err(e) => Err(e)
      case Ok(oid) =>
        match DecodeValue(value)
        case Err(e) => Err(e)
        case Ok(v) => Ok(VarBind(oid, v))
  }

  lemma TlvLonger(tag: byte, content: seq<byte>)
    ensures |Tlv(tag, content)| >= 2 + |content|
  {
  }

  lemma VarBindSteps(b0: seq<byte>, tag: byte, content: seq<byte>, b1: seq<byte>, vtag: byte, value: seq<byte>, oid: Oid)
    requires ParseTlv(b0) == Ok((tag, content, b1)) && ParseOid(content) == Ok(oid)
    requires ParseTlv(b1) == Ok((vtag, value, []))
    ensures DecodeVarBindContent(b0) == Ok(VarBind(oid, DecodeValueByTag(vtag, value)))
  {
  }

  lemma LastTlv(tag: byte, content: seq<byte>)
    requires |content| < 0x1_0000_0000
    ensures ParseTlv(Tlv(tag, content)) == Ok((tag, content, []))
  {
    TlvRoundTrip(tag, content, []);
    assert Tlv(tag, content) + [] == Tlv(tag, content);
  }

  /** Name and value come out as their own codecs give them. */
  lemma VarBindReads(vb: VarBind)
    requires |VarBindContent(vb)| < 0x1_0000_0000
    ensures ParseOid(OidContent(vb.oid)).Ok?
    ensures var name, value := ParseOid(OidContent(vb.oid)).value, DecodeValueByTag(ValueTag(vb.value), ValueContent(vb.value));
      DecodeVarBindContent(VarBindContent(vb)) == Ok(VarBind(name, value))
  {
    OidRoundTripIff(vb.oid);
    var name, tag, value := OidContent(vb.oid), ValueTag(vb.value), ValueContent(vb.value);
    TlvLonger(0x06, name);
    TlvLonger(tag, value);
    var tail := Tlv(tag, value);
    LastTlv(tag, value);
    TlvRoundTrip(0x06, name, tail);
    VarBindSteps(Tlv(0x06, name) + tail, 0x06, name, tail, tag, value, ParseOid(name).value);
  }

  lemma VarBindContentRoundTripIff(vb: VarBind)
    requires |VarBindContent(vb)| < 0x1_0000_0000
    ensures DecodeVarBindContent(VarBindContent(vb)) == Ok(vb) <==> VarBindFaithful(vb)
  {
    VarBindReads(vb);
    OidRoundTripIff(vb.oid);
    ValueRoundTripIff(vb.value);
  }

  function VarBindEncoder(): VarBind -> seq<byte> {
    (vb: VarBind) => Tlv(0x30, VarBindContent(vb))
  }

  /** One element of the list: a SEQUENCE of name and value. */
  function DecodeItem(bs: seq<byte>): (r: Outcome<(VarBind, seq<byte>), SmuxError>)
    ensures r.Ok? ==> |r.value.1| < |bs|
  {
    match ParseTlv(bs)
    case Err(e) => Err(e)
    case Ok((_, content, rest)) =>
      match DecodeVarBindContent(content)
      case Err(e) => Err(e)
      case Ok(vb) => Ok((vb, rest))
  }

  function ItemDecoder(): seq<byte> -> Outcome<(VarBind, seq<byte>), SmuxError> {
    (bs: seq<byte>) => DecodeItem(bs)
  }

  lemma ItemRoundTripIff(vb: VarBind, rest: seq<byte>)
    requires |VarBindContent(vb)| < 0x1_0000_0000
    ensures var r := DecodeItem(Tlv(0x30, VarBindContent(vb)) + rest);
      if VarBindFaithful(vb) then Gives(r, vb, rest) else Misses(r, vb)
  {
    TlvRoundTrip(0x30, VarBindContent(vb), rest);
    VarBindContentRoundTripIff(vb);
  }

  ghost predicate ListFaithful(vbs: seq<VarBind>) {
    forall i :: 0 <= i < |vbs| ==> VarBindFaithful(vbs[i])
  }

  function ListContent(vbs: seq<VarBind>): seq<byte> {
    ListBytes(vbs, VarBindEncoder())
  }

  ghost function DecodeVarBinds(bs: seq<byte>): Result<seq<VarBind>> {
    DecodeList(bs, ItemDecoder())
  }

  /** Every element is shorter than the list. */
  lemma {:induction false} ElementShorter(vbs: seq<VarBind>, i: nat)
    requires i < |vbs|
    ensures |VarBindContent(vbs[i])| < |ListContent(vbs)|
    decreases |vbs|
  {
    TlvLonger(0x30, VarBindContent(vbs[0]));
    if i > 0 {
      ElementShorter(vbs[1..], i - 1);
    }
  }

  lemma ListComesBackIff(vbs: seq<VarBind>)
    requires |ListContent(vbs)| < 0x1_0000_0000
    ensures DecodeVarBinds(ListContent(vbs)) == Ok(vbs) <==> ListFaithful(vbs)
  {
    var faithful := (vb: VarBind) => VarBindFaithful(vb);
    forall i, rest | 0 <= i < |vbs|
      ensures VarBindEncoder()(vbs[i]) != []
      ensures var d := ItemDecoder()(VarBindEncoder()(vbs[i]) + rest);
        if faithful(vbs[i]) then Gives(d, vbs[i], rest) else Misses(d, vbs[i])
    {
      ElementShorter(vbs, i);
      TlvLonger(0x30, VarBindContent(vbs[i]));
      ItemRoundTripIff(vbs[i], rest);
    }
    ListRoundTripIff(vbs, VarBindEncoder(), ItemDecoder(), faithful);
  }

  // ----- SNMP PDUs without the message wrapper -----

  /** `kind` is the PDU type number, 0 for Get to 8 for Report. */
  datatype SnmpPdu = SnmpPdu(kind: nat, requestId: i32, errorStatus: i64, errorIndex: i64, variables: seq<VarBind>)

  function Int(v: i64): seq<byte> {
    Tlv(0x02, IntContent(v))
  }

  function TakeInt(bs: seq<byte>): (r: Result<(i64, seq<byte>)>)
    ensures r.Ok? ==> |r.value.1| < |bs|
  {
    match ParseTlv(bs)
    case Err(e) => Err(e)
    case Ok((_, content, rest)) => if content == [] then Err(Truncated) else Ok((ShiftIn(content), rest))
  }

  lemma TakeIntOf(v: i64, rest: seq<byte>)
    ensures TakeInt(Int(v) + rest) == Ok((v, rest))
  {
    IntContentSpec(v);
    TlvRoundTrip(0x02, IntContent(v), rest);
  }

  /** The next n integers. */
  function TakeInts(bs: seq<byte>, n: nat): (r: Result<(seq<i64>, seq<byte>)>)
    ensures r.Ok? ==> |r.value.0| == n
    decreases |bs|
  {
    if n == 0 then Ok(([], bs))
    else
      match TakeInt(bs)
      case Err(e) => Err(e)
      case Ok((v, rest)) =>
        match TakeInts(rest, n - 1)
        case Err(e) => Err(e)
        case Ok((vs, tail)) => Ok(([v] + vs, tail))
  }

  function Wrap32(v: int): i32 {
    (v + 0x8000_0000) % 0x1_0000_0000 - 0x8000_0000
  }

  /** request-id, error-status, error-index, list of bindings. */
  function PduContent(p: SnmpPdu): seq<byte> {
    Int(p.requestId) + (Int(p.errorStatus) + (Int(p.errorIndex) + Tlv(0x30, ListContent(p.variables))))
  }

  ghost function DecodeBare(tag: byte, content: seq<byte>): Result<SnmpPdu> {
    if tag % 32 > 8 then Err(UnknownTag)
    else
      match TakeInts(content, 3)
      case Err(e) => Err(e)
      case Ok((ints, rest)) =>
        match ParseTlv(rest)
        case Err(e) => Err(e)
        case Ok((_, list, _)) =>
          match DecodeVarBinds(list)
          case Err(e) => Err(e)
          case Ok(vbs) => Ok(SnmpPdu(tag % 32, Wrap32(ints[0]), ints[1], ints[2], vbs))
  }

  lemma BareSteps(tag: byte, b0: seq<byte>, id: i32, status: i64, index: i64, b3: seq<byte>, list: seq<byte>)
    requires tag % 32 <= 8 && TakeInts(b0, 3) == Ok(([id, status, index], b3))
    requires ParseTlv(b3) == Ok((0x30, list, []))
    ensures DecodeBare(tag, b0)
         == match DecodeVarBinds(list)
            case Err(e) => Err(e)
            case Ok(vbs) => Ok(SnmpPdu(tag % 32, id, status, index, vbs))
  {
  }

  lemma NextInt(v: i64, vs: seq<i64>, bs: seq<byte>, rest: seq<byte>)
    requires TakeInts(bs, |vs|) == Ok((vs, rest))
    ensures TakeInts(Int(v) + bs, |vs| + 1) == Ok(([v] + vs, rest))
  {
    TakeIntOf(v, bs);
  }

  lemma ThreeInts(a: i64, b: i64, c: i64, last: seq<byte>)
    ensures TakeInts(Int(a) + (Int(b) + (Int(c) + last)), 3) == Ok(([a, b, c], last))
  {
    assert [c] + [] == [c] && [b] + [c] == [b, c] && [a] + [b, c] == [a, b, c];
    NextInt(c, [], last, last);
    NextInt(b, [c], Int(c) + last, last);
    NextInt(a, [b, c], Int(b) + (Int(c) + last), last);
  }

  /** The fixed fields of a PDU read back; what is left is the list. */
  lemma BareReads(tag: byte, p: SnmpPdu)
    requires tag % 32 <= 8 && |ListContent(p.variables)| < 0x1_0000_0000
    ensures DecodeBare(tag, PduContent(p))
         == match DecodeVarBinds(ListContent(p.variables))
            case Err(e) => Err(e)
            case Ok(vbs) => Ok(SnmpPdu(tag % 32, p.requestId, p.errorStatus, p.errorIndex, vbs))
  {
    var last := Tlv(0x30, ListContent(p.variables));
    LastTlv(0x30, ListContent(p.variables));
    ThreeInts(p.requestId, p.errorStatus, p.errorIndex, last);
    BareSteps(tag, PduContent(p), p.requestId, p.errorStatus, p.errorIndex, last, ListContent(p.variables));
  }

  lemma BareReadsAs(tag: byte, p: SnmpPdu, vbs: seq<VarBind>)
    requires tag % 32 == p.kind <= 8 && |ListContent(p.variables)| < 0x1_0000_0000
    requires DecodeVarBinds(ListContent(p.variables)) == Ok(vbs)
    ensures DecodeBare(tag, PduContent(p)) == Ok(p.(variables := vbs))
  {
    BareReads(tag, p);
  }

  lemma BareRoundTripIff(p: SnmpPdu, tag: byte)
    requires tag % 32 == p.kind <= 8 && |ListContent(p.variables)| < 0x1_0000_0000
    ensures DecodeBare(tag, PduContent(p)) == Ok(p) <==> ListFaithful(p.variables)
  {
    BareReads(tag, p);
    ListComesBackIff(p.variables);
  }

  // ----- SMUX PDUs -----

  /** The two text fields are their content octets; reading them as text keeps
      valid UTF-8 as it is and replaces the rest. */
  datatype OpenPdu = OpenPdu(version: i64, identity: Oid, descriptionOctets: seq<byte>, passwordOctets: seq<byte>)

  datatype SmuxPdu =
    | Open(open: OpenPdu)
    | Close(code: i64)
    | RRsp(rcode: i64)
    | Sout(arg: i64)
    | Snmp(pdu: SnmpPdu)
    | Register(subtree: Oid, priority: i64, operation: i64)

  function OpenContent(o: OpenPdu): seq<byte> {
    Int(o.version) + (Tlv(0x06, OidContent(o.identity)) + (Tlv(0x04, o.descriptionOctets) + Tlv(0x04, o.passwordOctets)))
  }

  function DecodeOpen(content: seq<byte>): Result<SmuxPdu> {
    match TakeInt(content)
    case Err(e) => Err(e)
    case Ok((version, r1)) =>
      match ParseTlv(r1)
      case Err(e) => Err(e)
      case Ok((_, id, r2)) =>
        match ParseOid(id)
        case Err(e) => Err(e)
        case Ok(identity) =>
          match ParseTlv(r2)
          case Err(e) => Err(e)
          case Ok((_, description, r3)) =>
            match ParseTlv(r3)
            case Err(e) => Err(e)
            case Ok((_, password, _)) => Ok(Open(OpenPdu(version, identity, description, password)))
  }

  /** The tags of the first four TLVs. */
  function PeekTags(content: seq<byte>, n: nat): Result<seq<byte>>
    decreases |content|
  {
    if n == 0 then Ok([])
    else if content == [] then Err(Truncated)
    else
      match ParseTlv(content)
      case Err(e) => Err(e)
      case Ok((tag, _, rest)) =>
        match PeekTags(rest, n - 1)
        case Err(e) => Err(e)
        case Ok(tags) => Ok([tag] + tags)
  }

  /** The last two arcs of the single name are priority and operation; only
      operations 1 and -1 count, and an arc is never negative. */
  function RegisterOf(name: Oid): Option<SmuxPdu> {
    var n := |name|;
    if n < 3 then None
    else if name[n - 1] != 1 then None
    else Some(Register(name[..n - 2], name[n - 2], name[n - 1]))
  }

  function RegisterOfPdu(p: SnmpPdu): Option<SmuxPdu> {
    if p.kind == 0 && |p.variables| == 1 then RegisterOf(p.variables[0].oid) else None
  }

  /** A register request has a SEQUENCE as fourth element and no OID as second;
      anything else is left to the open decoder. */
  ghost function TryRegister(tag: byte, content: seq<byte>): Result<Option<SmuxPdu>> {
    match PeekTags(content, 4)
    case Err(e) => Err(e)
    case Ok(tags) =>
      if |tags| < 4 || tags[1] == 0x06 || tags[3] != 0x30 then Ok(None)
      else
        match DecodeBare(tag, content)
        case Err(e) => Err(e)
        case Ok(p) => Ok(RegisterOfPdu(p))
  }

  /** A register request if it is one, else an open request. */
  function RegisterOrOpen(tried: Result<Option<SmuxPdu>>, content: seq<byte>): Result<SmuxPdu> {
    match tried
    case Err(e) => Err(e)
    case Ok(Some(reg)) => Ok(reg)
    case Ok(None) => DecodeOpen(content)
  }

  function RegisterOrSnmp(bare: Result<SnmpPdu>): Result<SmuxPdu> {
    match bare
    case Err(e) => Err(e)
    case Ok(p) =>
      match RegisterOfPdu(p)
      case Some(reg) => Ok(reg)
      case None => Ok(Snmp(p))
  }

  ghost function DecodeContent(tag: byte, content: seq<byte>): Result<SmuxPdu> {
    if tag == 0xA0 then RegisterOrOpen(TryRegister(tag, content), content)
    else if tag == 0xA4 then (match TakeInt(content) case Err(e) => Err(e) case Ok((v, _)) => Ok(Close(v)))
    else if tag == 0xA1 then (match TakeInt(content) case Err(e) => Err(e) case Ok((v, _)) => Ok(RRsp(v)))
    else if tag == 0xA5 then (match TakeInt(content) case Err(e) => Err(e) case Ok((v, _)) => Ok(Sout(v)))
    else RegisterOrSnmp(DecodeBare(tag, content))
  }

  function Taking(r: Result<SmuxPdu>, n: nat): Result<(SmuxPdu, nat)> {
    match r
    case Err(e) => Err(e)
    case Ok(p) => Ok((p, n))
  }

  /** One TLV at the front of the buffer, its content read by `decode`, and how
      many bytes it takes. */
  function DecodeFront(buf: seq<byte>, decode: (byte, seq<byte>) -> Result<SmuxPdu>): Result<(SmuxPdu, nat)> {
    match ParseTlv(buf)
    case Err(e) => Err(e)
    case Ok((tag, content, rest)) => Taking(decode(tag, content), |buf| - |rest|)
  }

  ghost function ContentDecoder(): (byte, seq<byte>) -> Result<SmuxPdu> {
    (tag: byte, content: seq<byte>) => DecodeContent(tag, content)
  }

  ghost function DecodeSmux(buf: seq<byte>): Result<(SmuxPdu, nat)> {
    DecodeFront(buf, ContentDecoder())
  }

  lemma FrontTlv(tag: byte, content: seq<byte>, rest: seq<byte>, decode: (byte, seq<byte>) -> Result<SmuxPdu>)
    requires |content| < 0x1_0000_0000
    ensures DecodeFront(Tlv(tag, content) + rest, decode) == Taking(decode(tag, content), |Tlv(tag, content)|)
  {
    TlvRoundTrip(tag, content, rest);
    FrontSteps(Tlv(tag, content), tag, content, rest, decode);
  }

  lemma FrontSteps(bytes: seq<byte>, tag: byte, content: seq<byte>, rest: seq<byte>, decode: (byte, seq<byte>) -> Result<SmuxPdu>)
    requires ParseTlv(bytes + rest) == Ok((tag, content, rest))
    ensures DecodeFront(bytes + rest, decode) == Taking(decode(tag, content), |bytes|)
  {
  }

  lemma OuterTlv(tag: byte, content: seq<byte>, rest: seq<byte>, r: Result<SmuxPdu>)
    requires |content| < 0x1_0000_0000 && DecodeContent(tag, content) == r
    ensures DecodeSmux(Tlv(tag, content) + rest) == Taking(r, |Tlv(tag, content)|)
  {
    FrontTlv(tag, content, rest, ContentDecoder());
  }

  lemma ListWithinPdu(p: SnmpPdu)
    ensures |ListContent(p.variables)| < |PduContent(p)|
  {
    TlvLonger(0x30, ListContent(p.variables));
  }

  /** The tags that hold an SNMP PDU. */
  predicate SnmpTag(tag: byte) {
    tag != 0xA0 && tag != 0xA1 && tag != 0xA4 && tag != 0xA5
  }

  lemma SnmpPath(tag: byte, content: seq<byte>, bare: Result<SnmpPdu>)
    requires SnmpTag(tag) && DecodeBare(tag, content) == bare
    ensures DecodeContent(tag, content) == RegisterOrSnmp(bare)
  {
  }

  lemma BareOf(p: SnmpPdu, content: seq<byte>, tag: byte) returns (bare: Result<SnmpPdu>)
    requires content == PduContent(p)
    requires tag % 32 == p.kind <= 8 && |content| < 0x1_0000_0000
    ensures DecodeBare(tag, content) == bare
    ensures bare == Ok(p) <==> ListFaithful(p.variables)
  {
    ListWithinPdu(p);
    BareRoundTripIff(p, tag);
    bare := DecodeBare(tag, content);
  }

  lemma SnmpContentOf(p: SnmpPdu, content: seq<byte>, tag: byte) returns (r: Result<SmuxPdu>)
    requires content == PduContent(p) && SnmpTag(tag)
    requires tag % 32 == p.kind <= 8 && p.kind > 0 && |content| < 0x1_0000_0000
    ensures DecodeContent(tag, content) == r
    ensures r == Ok(Snmp(p)) <==> ListFaithful(p.variables)
  {
    var bare := BareOf(p, content, tag);
    SnmpPath(tag, content, bare);
    r := RegisterOrSnmp(bare);
  }

  /** Every SNMP PDU under a tag of its own (a Response under 0xA2), whatever follows it on the stream,
      decodes to itself and takes exactly its own bytes, if and only if its OIDs
      are of the kind the codec can carry. */
  lemma PduRoundTripIff(p: SnmpPdu, tag: byte, rest: seq<byte>)
    requires SnmpTag(tag) && tag % 32 == p.kind <= 8 && p.kind > 0
    requires |PduContent(p)| < 0x1_0000_0000
    ensures var bytes := Tlv(tag, PduContent(p));
      DecodeSmux(bytes + rest) == Ok((Snmp(p), |bytes|)) <==> ListFaithful(p.variables)
  {
    var r := SnmpContentOf(p, PduContent(p), tag);
    OuterTlv(tag, PduContent(p), rest, r);
  }

  // ----- The shared tag 0xA0 -----

  /** One TLV: its tag and its content. */
  datatype Element = Element(tag: byte, content: seq<byte>)

  predicate Short(e: Element) {
    |e.content| < 0x1_0000_0000
  }

  function ElementBytes(e: Element): seq<byte> {
    Tlv(e.tag, e.content)
  }

  /** These elements and nothing else. */
  predicate Parses(bs: seq<byte>, es: seq<Element>)
    decreases |es|
  {
    if es == [] then bs == []
    else
      match ParseTlv(bs)
      case Err(_) => false
      case Ok((tag, content, rest)) => es[0] == Element(tag, content) && Parses(rest, es[1..])
  }

  function Tags(es: seq<Element>): (tags: seq<byte>)
    ensures |tags| == |es|
  {
    if es == [] then [] else [es[0].tag] + Tags(es[1..])
  }

  lemma {:induction false} PeekElements(bs: seq<byte>, es: seq<Element>)
    requires Parses(bs, es)
    ensures PeekTags(bs, |es|) == Ok(Tags(es))
    decreases |es|
  {
    if es != [] {
      PeekElements(ParseTlv(bs).value.2, es[1..]);
    }
  }

  lemma ParseOne(e: Element)
    requires Short(e)
    ensures Parses(ElementBytes(e), [e])
  {
    LastTlv(e.tag, e.content);
  }

  lemma ParseMore(e: Element, rest: seq<byte>, es: seq<Element>)
    requires Short(e) && Parses(rest, es)
    ensures Parses(ElementBytes(e) + rest, [e] + es)
  {
    TlvRoundTrip(e.tag, e.content, rest);
    assert ([e] + es)[1..] == es;
  }

  lemma ParseRest(b: Element, c: Element, es: seq<Element>, rest: seq<byte>)
    requires Short(b) && Short(c) && Parses(rest, es)
    ensures Parses(ElementBytes(b) + (ElementBytes(c) + rest), [b, c] + es)
  {
    ParseMore(c, rest, es);
    ParseMore(b, ElementBytes(c) + rest, [c] + es);
    assert [b] + ([c] + es) == [b, c] + es;
  }

  /** Four elements in a row. */
  lemma ParseFour(a: Element, b: Element, c: Element, d: Element)
    requires Short(a) && Short(b) && Short(c) && Short(d)
    ensures Parses(ElementBytes(a) + (ElementBytes(b) + (ElementBytes(c) + ElementBytes(d))), [a, b, c, d])
  {
    ParseOne(d);
    ParseRest(b, c, [d], ElementBytes(d));
    ParseMore(a, ElementBytes(b) + (ElementBytes(c) + ElementBytes(d)), [b, c] + [d]);
    assert [a] + ([b, c] + [d]) == [a, b, c, d];
  }

  lemma PeekFour(bs: seq<byte>, es: seq<Element>)
    requires Parses(bs, es) && |es| == 4
    ensures PeekTags(bs, 4) == Ok([es[0].tag, es[1].tag, es[2].tag, es[3].tag])
  {
    PeekElements(bs, es);
    FourTags(es[0], es[1], es[2], es[3]);
    assert es == [es[0], es[1], es[2], es[3]];
  }

  lemma FourTags(a: Element, b: Element, c: Element, d: Element)
    ensures Tags([a, b, c, d]) == [a.tag, b.tag, c.tag, d.tag]
  {
    assert [a, b, c, d][1..] == [b, c, d] && [b, c, d][1..] == [c, d] && [c, d][1..] == [d] && [d][1..] == [];
    assert Tags([d]) == [d.tag] && Tags([c, d]) == [c.tag, d.tag] && Tags([b, c, d]) == [b.tag, c.tag, d.tag];
  }

  /** An integer and three more elements, read as an open request whatever their
      tags. */
  lemma OpenElements(bs: seq<byte>, es: seq<Element>, version: i64, identity: Oid)
    requires Parses(bs, es) && |es| == 4
    requires es[0].content == IntContent(version) && ParseOid(es[1].content) == Ok(identity)
    ensures DecodeOpen(bs) == Ok(Open(OpenPdu(version, identity, es[2].content, es[3].content)))
  {
    IntContentSpec(version);
    var rest1 := ParseTlv(bs).value.2;
    assert Parses(rest1, es[1..]) && es[1..][0] == es[1];
    var rest2 := ParseTlv(rest1).value.2;
    assert es[1..][1..] == es[2..] && Parses(rest2, es[2..]) && es[2..][0] == es[2];
    var rest3 := ParseTlv(rest2).value.2;
    assert es[2..][1..] == es[3..] && Parses(rest3, es[3..]) && es[3..][0] == es[3];
  }

  /** An OID in second place: the open decoder. */
  lemma OpenPath(content: seq<byte>, tags: seq<byte>)
    requires PeekTags(content, 4) == Ok(tags) && |tags| == 4 && tags[1] == 0x06
    ensures DecodeContent(0xA0, content) == DecodeOpen(content)
  {
  }

  /** Three integers and a SEQUENCE: tried as a register request. */
  lemma RegisterPath(content: seq<byte>, tags: seq<byte>, p: SnmpPdu)
    requires PeekTags(content, 4) == Ok(tags) && |tags| == 4 && tags[1] != 0x06 && tags[3] == 0x30
    requires DecodeBare(0xA0, content) == Ok(p)
    ensures DecodeContent(0xA0, content) == RegisterOrOpen(Ok(RegisterOfPdu(p)), content)
  {
  }

  lemma OpenContentParts(o: OpenPdu)
    ensures |OidContent(o.identity)| < |OpenContent(o)| && |o.descriptionOctets| < |OpenContent(o)| && |o.passwordOctets| < |OpenContent(o)|
  {
    TlvLonger(0x06, OidContent(o.identity));
    TlvLonger(0x04, o.descriptionOctets);
    TlvLonger(0x04, o.passwordOctets);
  }

  function OpenParts(o: OpenPdu): seq<Element> {
    [Element(0x02, IntContent(o.version)), Element(0x06, OidContent(o.identity)),
     Element(0x04, o.descriptionOctets), Element(0x04, o.passwordOctets)]
  }

  lemma OpenParses(o: OpenPdu)
    requires |OpenContent(o)| < 0x1_0000_0000
    ensures Parses(OpenContent(o), OpenParts(o))
  {
    OpenContentParts(o);
    IntContentSpec(o.version);
    var es := OpenParts(o);
    ParseFour(es[0], es[1], es[2], es[3]);
  }

  lemma OpenContentDecodes(bs: seq<byte>, o: OpenPdu, identity: Oid)
    requires Parses(bs, OpenParts(o)) && ParseOid(OidContent(o.identity)) == Ok(identity)
    ensures DecodeContent(0xA0, bs) == Ok(Open(o.(identity := identity)))
  {
    var es := OpenParts(o);
    PeekFour(bs, es);
    OpenElements(bs, es, o.version, identity);
    OpenPath(bs, [0x02, 0x06, 0x04, 0x04]);
  }

  /** The decoded open differs at most in its identity. */
  lemma OpenDecodes(o: OpenPdu, rest: seq<byte>)
    requires |OpenContent(o)| < 0x1_0000_0000
    ensures ParseOid(OidContent(o.identity)).Ok?
    ensures var bytes := Tlv(0xA0, OpenContent(o));
      DecodeSmux(bytes + rest) == Ok((Open(o.(identity := ParseOid(OidContent(o.identity)).value)), |bytes|))
  {
    OidRoundTripIff(o.identity);
    var identity := ParseOid(OidContent(o.identity)).value;
    OpenParses(o);
    OpenContentDecodes(OpenContent(o), o, identity);
    OuterTlv(0xA0, OpenContent(o), rest, Ok(Open(o.(identity := identity))));
  }

  /** An open request is never taken for a register request: it decodes to itself
      exactly when its identity can be carried, and else to some other open. */
  lemma OpenRoundTripIff(o: OpenPdu, rest: seq<byte>)
    requires |OpenContent(o)| < 0x1_0000_0000
    ensures var bytes := Tlv(0xA0, OpenContent(o));
      var r := DecodeSmux(bytes + rest);
      r.Ok? && r.value.0.Open? && r.value.1 == |bytes| && (r.value.0 == Open(o) <==> Smuxable(o.identity))
  {
    OpenDecodes(o, rest);
    OidRoundTripIff(o.identity);
  }

  function ToU32(v: i64): u32 {
    v % 0x1_0000_0000
  }

  /** The name a register request carries. */
  function RegisterName(subtree: Oid, priority: i64, operation: i64): Oid {
    subtree + [ToU32(priority), ToU32(operation)]
  }

  /** A Get PDU with one NULL binding. */
  function GetOf(name: Oid): SnmpPdu {
    SnmpPdu(0, 0, 0, 0, [VarBind(name, Null)])
  }

  function EncodeRegister(subtree: Oid, priority: i64, operation: i64): seq<byte> {
    Tlv(0xA0, PduContent(GetOf(RegisterName(subtree, priority, operation))))
  }

  /** A list that is one item. */
  lemma OneItem(bs: seq<byte>, tag: byte, content: seq<byte>, vb: VarBind)
    requires ParseTlv(bs) == Ok((tag, content, [])) && DecodeVarBindContent(content) == Ok(vb)
    ensures DecodeVarBinds(bs) == Ok([vb])
  {
    assert ItemDecoder()(bs) == Ok((vb, []));
    assert DecodeList([], ItemDecoder()) == Ok([]);
    assert [vb] + [] == [vb];
  }

  lemma OneElement(vb: VarBind)
    ensures ListContent([vb]) == Tlv(0x30, VarBindContent(vb))
  {
    assert [vb][1..] == [];
    assert ListBytes([vb][1..], VarBindEncoder()) == [];
    var item := VarBindEncoder()(vb);
    assert item + [] == item;
  }

  lemma OneBindingList(vb: VarBind)
    requires ValueFaithful(vb.value) && |ListContent([vb])| < 0x1_0000_0000
    ensures ParseOid(OidContent(vb.oid)).Ok?
    ensures DecodeVarBinds(ListContent([vb])) == Ok([VarBind(ParseOid(OidContent(vb.oid)).value, vb.value)])
  {
    var content := VarBindContent(vb);
    ElementShorter([vb], 0);
    OneElement(vb);
    VarBindReads(vb);
    ValueRoundTripIff(vb.value);
    LastTlv(0x30, content);
    OneItem(Tlv(0x30, content), 0x30, content, VarBind(ParseOid(OidContent(vb.oid)).value, vb.value));
  }

  /** What comes out of a PDU with one binding: its name as the OID codec gives it. */
  lemma OneBinding(p: SnmpPdu, vb: VarBind, name: Oid, tag: byte)
    requires ValueFaithful(vb.value) && tag % 32 == p.kind <= 8 && p.variables == [vb]
    requires |ListContent([vb])| < 0x1_0000_0000 && ParseOid(OidContent(vb.oid)) == Ok(name)
    ensures DecodeBare(tag, PduContent(p)) == Ok(p.(variables := [VarBind(name, vb.value)]))
  {
    OneBindingList(vb);
    BareReadsAs(tag, p, [VarBind(name, vb.value)]);
  }

  function PduParts(p: SnmpPdu): seq<Element> {
    [Element(0x02, IntContent(p.requestId)), Element(0x02, IntContent(p.errorStatus)),
     Element(0x02, IntContent(p.errorIndex)), Element(0x30, ListContent(p.variables))]
  }

  lemma PduParses(p: SnmpPdu)
    requires |ListContent(p.variables)| < 0x1_0000_0000
    ensures Parses(PduContent(p), PduParts(p))
  {
    IntContentSpec(p.requestId);
    IntContentSpec(p.errorStatus);
    IntContentSpec(p.errorIndex);
    var es := PduParts(p);
    ParseFour(es[0], es[1], es[2], es[3]);
  }

  /** Elements of the register request's shape pass the structural test. */
  lemma PartsTried(bs: seq<byte>, es: seq<Element>, out: SnmpPdu)
    requires Parses(bs, es) && |es| == 4 && es[1].tag != 0x06 && es[3].tag == 0x30 && DecodeBare(0xA0, bs) == Ok(out)
    ensures DecodeContent(0xA0, bs) == RegisterOrOpen(Ok(RegisterOfPdu(out)), bs)
  {
    PeekFour(bs, es);
    RegisterPath(bs, [es[0].tag, es[1].tag, es[2].tag, es[3].tag], out);
  }

  lemma TriedAsRegister(p: SnmpPdu, out: SnmpPdu, reg: Option<SmuxPdu>)
    requires |PduContent(p)| < 0x1_0000_0000 && DecodeBare(0xA0, PduContent(p)) == Ok(out) && RegisterOfPdu(out) == reg
    ensures DecodeContent(0xA0, PduContent(p)) == RegisterOrOpen(Ok(reg), PduContent(p))
  {
    ListWithinPdu(p);
    PduParses(p);
    PartsTried(PduContent(p), PduParts(p), out);
  }

  lemma OneName(p: SnmpPdu, vb: VarBind)
    requires p.kind == 0 && p.variables == [vb]
    ensures RegisterOfPdu(p) == RegisterOf(vb.oid)
  {
  }

  /** Under the shared tag a PDU with one binding is a register request or an
      open request by the arcs of the name that comes out. */
  lemma OneBindingDecodes(p: SnmpPdu, vb: VarBind, rest: seq<byte>)
    requires ValueFaithful(vb.value) && p.kind == 0 && p.variables == [vb]
    requires |PduContent(p)| < 0x1_0000_0000
    ensures ParseOid(OidContent(vb.oid)).Ok?
    ensures var bytes := Tlv(0xA0, PduContent(p));
      var reg := RegisterOf(ParseOid(OidContent(vb.oid)).value);
      DecodeSmux(bytes + rest) == Taking(RegisterOrOpen(Ok(reg), PduContent(p)), |bytes|)
  {
    OidRoundTripIff(vb.oid);
    var name := ParseOid(OidContent(vb.oid)).value;
    OneBindingContent(p, vb, name);
    OuterTlv(0xA0, PduContent(p), rest, RegisterOrOpen(Ok(RegisterOf(name)), PduContent(p)));
  }

  lemma OneBindingContent(p: SnmpPdu, vb: VarBind, name: Oid)
    requires ValueFaithful(vb.value) && p.kind == 0 && p.variables == [vb]
    requires |PduContent(p)| < 0x1_0000_0000 && ParseOid(OidContent(vb.oid)) == Ok(name)
    ensures DecodeContent(0xA0, PduContent(p)) == RegisterOrOpen(Ok(RegisterOf(name)), PduContent(p))
  {
    var shared: byte := 0xA0;
    SharedTagKind(shared);
    var out := OneBare(p, vb, name, shared);
    TriedAsRegister(p, out, RegisterOf(name));
  }

  lemma SharedTagKind(tag: byte)
    requires tag == 0xA0
    ensures tag % 32 == 0
  {
  }

  lemma OneBare(p: SnmpPdu, vb: VarBind, name: Oid, tag: byte) returns (out: SnmpPdu)
    requires ValueFaithful(vb.value) && tag % 32 == p.kind == 0 && p.variables == [vb]
    requires |PduContent(p)| < 0x1_0000_0000 && ParseOid(OidContent(vb.oid)) == Ok(name)
    ensures DecodeBare(tag, PduContent(p)) == Ok(out) && RegisterOfPdu(out) == RegisterOf(name)
  {
    out := p.(variables := [VarBind(name, vb.value)]);
    ListWithinPdu(p);
    OneBinding(p, vb, name, tag);
    OneName(out, VarBind(name, vb.value));
  }

  /** A register request with operation 1 decodes to the same subtree and
      priority, taking its whole length, exactly when the name it carries can be
      carried and the subtree is not empty. */
  lemma RegisterRoundTripIff(subtree: Oid, priority: u32, rest: seq<byte>)
    requires var name := RegisterName(subtree, priority, 1);
      |PduContent(GetOf(name))| < 0x1_0000_0000
    ensures var bytes := EncodeRegister(subtree, priority, 1);
      var name := RegisterName(subtree, priority, 1);
      DecodeSmux(bytes + rest) == Ok((Register(subtree, priority, 1), |bytes|)) <==> Smuxable(name) && subtree != []
  {
    var name := RegisterName(subtree, priority, 1);
    OneBindingDecodes(GetOf(name), VarBind(name, Null), rest);
    OidRoundTripIff(name);
    RegisterOfName(ParseOid(OidContent(name)).value, subtree, priority);
    OpenIsNoRegister(PduContent(GetOf(name)));
  }

  lemma OpenIsNoRegister(content: seq<byte>)
    ensures var r := DecodeOpen(content); r.Ok? ==> r.value.Open?
  {
  }

  /** A name gives this registration exactly when it is the registration's own
      name. */
  lemma RegisterOfName(out: Oid, subtree: Oid, priority: u32)
    ensures RegisterOf(out) == Some(Register(subtree, priority, 1))
       <==> out == RegisterName(subtree, priority, 1) && subtree != []
  {
    var name := RegisterName(subtree, priority, 1);
    assert name[..|name| - 2] == subtree;
    if |out| >= 3 {
      assert out == out[..|out| - 2] + [out[|out| - 2], out[|out| - 1]];
    }
  }

  /** Whatever arrives, a decoded register request has operation 1: an unregister
      request (operation -1) is never recognised. */
  lemma OnlyRegistersAreRecognised(buf: seq<byte>)
    ensures var r := DecodeSmux(buf); r.Ok? && r.value.0.Register? ==> r.value.0.operation == 1
  {
    var front := ParseTlv(buf);
    if front.Ok? {
      ContentRegisters(front.value.0, front.value.1);
    }
  }

  lemma ContentRegisters(tag: byte, content: seq<byte>)
    ensures var r := DecodeContent(tag, content); r.Ok? && r.value.Register? ==> r.value.operation == 1
  {
    OpenIsNoRegister(content);
  }

  /** What an unregister request decodes to, for every subtree and priority: it
      falls through to the open decoder, which accepts it as an open request with
      identity 0.0, whose undecoded password is the binding list. */
  lemma UnregisterBecomesOpen(subtree: Oid, priority: i64, rest: seq<byte>)
    requires |PduContent(GetOf(RegisterName(subtree, priority, -1)))| < 0x1_0000_0000
    ensures var bytes := EncodeRegister(subtree, priority, -1);
      var list := ListContent(GetOf(RegisterName(subtree, priority, -1)).variables);
      DecodeSmux(bytes + rest) == Ok((Open(OpenPdu(0, [0, 0], [0], list)), |bytes|))
  {
    NameOfUnregister(subtree, priority);
    UnregisterDecodes(RegisterName(subtree, priority, -1), rest);
  }

  lemma NameOfUnregister(subtree: Oid, priority: i64)
    ensures var name := RegisterName(subtree, priority, -1); |name| >= 2 && name[|name| - 1] == 0xFFFF_FFFF
  {
  }

  lemma UnregisterDecodes(name: Oid, rest: seq<byte>)
    requires |name| >= 2 && name[|name| - 1] == 0xFFFF_FFFF && |PduContent(GetOf(name))| < 0x1_0000_0000
    ensures var bytes := Tlv(0xA0, PduContent(GetOf(name)));
      DecodeSmux(bytes + rest) == Ok((Open(OpenPdu(0, [0, 0], [0], ListContent(GetOf(name).variables))), |bytes|))
  {
    ZeroContent();
    WidenedOperation(name);
    ReadAsOpen(GetOf(name), VarBind(name, Null), [0, 0], rest);
  }

  /** A PDU whose name is no registration. */
  lemma ReadAsOpen(p: SnmpPdu, vb: VarBind, identity: Oid, rest: seq<byte>)
    requires vb.value.Null? && p.kind == 0 && p.variables == [vb]
    requires ParseOid(OidContent(vb.oid)).Ok? && RegisterOf(ParseOid(OidContent(vb.oid)).value) == None
    requires |PduContent(p)| < 0x1_0000_0000 && ParseOid(IntContent(p.errorStatus)) == Ok(identity)
    ensures var bytes := Tlv(0xA0, PduContent(p));
      var o := OpenPdu(p.requestId, identity, IntContent(p.errorIndex), ListContent(p.variables));
      DecodeSmux(bytes + rest) == Ok((Open(o), |bytes|))
  {
    OneBindingDecodes(p, vb, rest);
    ListWithinPdu(p);
    PduReadAsOpen(p, identity);
  }

  /** The seven low bits of the last arc are those of the last octet. */
  lemma {:induction false} LastArcLow(buf: seq<byte>)
    requires buf != [] && ParseArcs(buf).Ok?
    ensures var arcs := ParseArcs(buf).value; arcs != [] && arcs[|arcs| - 1] % 128 == buf[|buf| - 1] % 128
    decreases |buf|
  {
    var one := ParseArc(buf, 0).value;
    ArcLow(buf, 0);
    if one.1 != [] {
      LastArcLow(one.1);
    }
  }

  /** Either the octets are used up, and the last one gave the low bits, or some
      are left behind the arc. */
  lemma {:induction false} ArcLow(buf: seq<byte>, acc: u32)
    requires ParseArc(buf, acc).Ok?
    ensures var (arc, rest) := ParseArc(buf, acc).value;
      if rest == [] then arc % 128 == buf[|buf| - 1] % 128 else rest[|rest| - 1] == buf[|buf| - 1]
    decreases |buf|
  {
    AddGroupLow(acc, buf[0]);
    if buf[0] >= 128 {
      ArcLow(buf[1..], AddGroup(acc, buf[0]));
    }
  }

  lemma AddGroupLow(acc: nat, b: nat)
    ensures AddGroup(acc, b) % 128 == b % 128
  {
  }

  /** A name that ends in the widened -1 gives no registration, even when its only
      other arc is the priority: the low bits of the last arc never make 1. */
  lemma WidenedOperation(name: Oid)
    requires |name| >= 2 && name[|name| - 1] == 0xFFFF_FFFF
    ensures ParseOid(OidContent(name)).Ok? && RegisterOf(ParseOid(OidContent(name)).value) == None
  {
    OidRoundTripIff(name);
    LastOctet(name);
    NotOperationOne(OidContent(name));
  }

  /** Content whose last octet has the low bits of -1. */
  lemma NotOperationOne(content: seq<byte>)
    requires content != [] && content[|content| - 1] % 8 == 7 && ParseOid(content).Ok?
    ensures RegisterOf(ParseOid(content).value) == None
  {
    var name := ParseOid(content).value;
    ParsedTail(content);
    if content[1..] != [] {
      LastArcLow(content[1..]);
    }
    NotOneIsNone(name);
  }

  lemma ParsedTail(content: seq<byte>)
    requires ParseOid(content).Ok?
    ensures content != [] && ParseArcs(content[1..]).Ok?
    ensures var name, arcs := ParseOid(content).value, ParseArcs(content[1..]).value;
      |name| == 2 + |arcs| && (arcs != [] ==> name[|name| - 1] == arcs[|arcs| - 1])
  {
  }

  lemma NotOneIsNone(name: Oid)
    requires |name| >= 3 ==> name[|name| - 1] != 1
    ensures RegisterOf(name) == None
  {
  }

  lemma LastOctet(name: Oid)
    requires |name| >= 2 && name[|name| - 1] == 0xFFFF_FFFF
    ensures OidContent(name) != [] && OidContent(name)[|OidContent(name)| - 1] % 8 == 7
  {
    if |name| == 2 {
      LastOctetOfTwo(name);
    } else {
      LastOctetOfMore(name, Base128(FirstNumber(name)), name[2..]);
    }
  }

  lemma LastOctetOfMore(name: Oid, first: seq<byte>, arcs: seq<u32>)
    requires |name| > 2 && name[|name| - 1] == 0xFFFF_FFFF && first == Base128(FirstNumber(name)) && arcs == name[2..]
    ensures OidContent(name) != [] && OidContent(name)[|OidContent(name)| - 1] % 8 == 7
  {
    LastOfArcs(arcs);
    LastOf(first, ArcsContent(arcs));
    assert OidContent(name) == first + ArcsContent(arcs);
  }

  lemma LastOf(a: seq<byte>, b: seq<byte>)
    requires b != []
    ensures (a + b)[|a + b| - 1] == b[|b| - 1]
  {
  }

  lemma LastOctetOfTwo(name: Oid)
    requires |name| == 2 && name[1] == 0xFFFF_FFFF
    ensures OidContent(name) != [] && OidContent(name)[|OidContent(name)| - 1] % 8 == 7
  {
    var first := Base128(FirstNumber(name));
    WrappedLow(name[0]);
    assert ArcsContent(name[2..]) == [] && first + [] == first;
    assert OidContent(name) == first && first[|first| - 1] == FirstNumber(name) % 128;
  }

  lemma WrappedLow(a: nat)
    ensures Pack(a, 0xFFFF_FFFF) % 0x1_0000_0000 % 128 % 8 == 7
  {
    var n := Pack(a, 0xFFFF_FFFF);
    assert n == 8 * (5 * a + 0x1FFF_FFFF) + 7;
    var q := n / 0x1_0000_0000;
    assert n % 0x1_0000_0000 == 8 * (5 * a + 0x1FFF_FFFF - 0x2000_0000 * q) + 7;
  }

  lemma {:induction false} LastOfArcs(arcs: seq<u32>)
    requires arcs != []
    ensures var c := ArcsContent(arcs); c != [] && c[|c| - 1] == arcs[|arcs| - 1] % 128
  {
    if |arcs| > 1 {
      LastOfArcs(arcs[1..]);
      LastOf(Base128(arcs[0]), ArcsContent(arcs[1..]));
    }
  }

  lemma ZeroContent()
    ensures IntContent(0) == [0] && ParseOid([0]) == Ok([0, 0])
  {
    IntContentSpec(0);
    MinimalIsShortest(IntContent(0), [0]);
    LeadByte(IntContent(0));
    assert [0][1..] == [] && ParseArcs([]) == Ok([]);
    assert [0, 0] + [] == [0, 0];
  }

  /** Request id as version, error status as identity, error index as description
      and the bindings as password, all undecoded. */
  lemma PduReadAsOpen(p: SnmpPdu, identity: Oid)
    requires |ListContent(p.variables)| < 0x1_0000_0000 && ParseOid(IntContent(p.errorStatus)) == Ok(identity)
    ensures var o := OpenPdu(p.requestId, identity, IntContent(p.errorIndex), ListContent(p.variables));
      DecodeOpen(PduContent(p)) == Ok(Open(o))
  {
    PduParses(p);
    OpenElements(PduContent(p), PduParts(p), p.requestId, identity);
  }
}
