/** AgentX PDU bodies, the 20-byte header and whole PDUs
    (crates/netsnmp-agent/src/agentx/protocol.rs). */
module AgentxPdus {
  import opened Oids
  import V = Values
  import opened Outcomes
  import opened Bytes
  import opened Codecs
  import opened AgentxCodec

  // ----- Search ranges and binding lists -----

  type Range = (Oid, Oid)

  predicate RangeEncodable(r: Range) {
    OidEncodable(r.0) && OidEncodable(r.1)
  }

  predicate RangeFaithful(r: Range) {
    Packable(r.0) && Packable(r.1)
  }

  /** Start with the include byte set, then the end. */
  function RangeBytes(r: Range, ord: Order): seq<byte>
    requires RangeEncodable(r)
  {
    OidBytes(r.0, 1, ord) + OidBytes(r.1, 0, ord)
  }

  function DecodeRange(bs: seq<byte>, ord: Order): (r: Decoded<Range>)
    ensures r.Ok? ==> |r.value.1| + 8 <= |bs|
  {
    match DecodeOid(bs, ord)
    case Err(e) => Err(e)
    case Ok((start, afterStart)) =>
      if afterStart == [] then Err(Truncated)
      else
        match DecodeOid(afterStart, ord)
        case Err(e) => Err(e)
        case Ok((end, rest)) => Ok(((start, end), rest))
  }

  lemma RangeRoundTripIff(r: Range, ord: Order, rest: seq<byte>)
    requires RangeEncodable(r)
    ensures var d := DecodeRange(RangeBytes(r, ord) + rest, ord);
      if RangeFaithful(r) then Gives(d, r, rest) else Misses(d, r)
  {
    var end := OidBytes(r.1, 0, ord) + rest;
    assert RangeBytes(r, ord) + rest == OidBytes(r.0, 1, ord) + end;
    OidRoundTripIff(r.0, 1, ord, end);
    OidRoundTripIff(r.1, 0, ord, rest);
  }

  function RangeEncoder(ord: Order): Range -> seq<byte> {
    (r: Range) => if RangeEncodable(r) then RangeBytes(r, ord) else []
  }

  function RangeDecoder(ord: Order): seq<byte> -> Decoded<Range> {
    (bs: seq<byte>) => DecodeRange(bs, ord)
  }

  function VarBindEncoder(ord: Order): VarBind -> seq<byte> {
    (vb: VarBind) => if VarBindEncodable(vb) then VarBindBytes(vb, ord) else []
  }

  function VarBindDecoder(ord: Order): seq<byte> -> Decoded<VarBind> {
    (bs: seq<byte>) => DecodeVarBind(bs, ord)
  }

  ghost predicate RangesEncodable(rs: seq<Range>) {
    forall i :: 0 <= i < |rs| ==> RangeEncodable(rs[i])
  }

  ghost predicate VarBindsEncodable(vbs: seq<VarBind>) {
    forall i :: 0 <= i < |vbs| ==> VarBindEncodable(vbs[i])
  }

  ghost predicate RangesFaithful(rs: seq<Range>) {
    forall i :: 0 <= i < |rs| ==> RangeFaithful(rs[i])
  }

  ghost predicate VarBindsFaithful(vbs: seq<VarBind>) {
    forall i :: 0 <= i < |vbs| ==> VarBindFaithful(vbs[i])
  }

  ghost function DecodeRanges(bs: seq<byte>, ord: Order): Result<seq<Range>> {
    DecodeList(bs, RangeDecoder(ord))
  }

  ghost function DecodeVarBinds(bs: seq<byte>, ord: Order): Result<seq<VarBind>> {
    DecodeList(bs, VarBindDecoder(ord))
  }

  lemma RangesRoundTripIff(rs: seq<Range>, ord: Order)
    requires RangesEncodable(rs)
    ensures DecodeRanges(ListBytes(rs, RangeEncoder(ord)), ord) == Ok(rs) <==> RangesFaithful(rs)
  {
    var faithful := (r: Range) => RangeFaithful(r);
    forall i, rest | 0 <= i < |rs|
      ensures RangeEncoder(ord)(rs[i]) != []
      ensures var d := RangeDecoder(ord)(RangeEncoder(ord)(rs[i]) + rest);
        if faithful(rs[i]) then Gives(d, rs[i], rest) else Misses(d, rs[i])
    {
      RangeRoundTripIff(rs[i], ord, rest);
    }
    ListRoundTripIff(rs, RangeEncoder(ord), RangeDecoder(ord), faithful);
  }

  lemma VarBindsRoundTripIff(vbs: seq<VarBind>, ord: Order)
    requires VarBindsEncodable(vbs)
    ensures DecodeVarBinds(ListBytes(vbs, VarBindEncoder(ord)), ord) == Ok(vbs) <==> VarBindsFaithful(vbs)
  {
    var faithful := (vb: VarBind) => VarBindFaithful(vb);
    forall i, rest | 0 <= i < |vbs|
      ensures VarBindEncoder(ord)(vbs[i]) != []
      ensures var d := VarBindDecoder(ord)(VarBindEncoder(ord)(vbs[i]) + rest);
        if faithful(vbs[i]) then Gives(d, vbs[i], rest) else Misses(d, vbs[i])
    {
      VarBindAligned(vbs[i], ord);
      VarBindRoundTripIff(vbs[i], ord, rest);
    }
    ListRoundTripIff(vbs, VarBindEncoder(ord), VarBindDecoder(ord), faithful);
  }

  function VarBindAppender(ord: Order): (seq<byte>, VarBind) -> seq<byte> {
    (out: seq<byte>, vb: VarBind) =>
      if VarBindEncodable(vb) then AppendData(out, vb.data, ord) + OidBytes(vb.name, 0, ord) else out
  }

  function RangeAppender(ord: Order): (seq<byte>, Range) -> seq<byte> {
    (out: seq<byte>, r: Range) => out + RangeEncoder(ord)(r)
  }

  lemma VarBindIsLocal(out: seq<byte>, vb: VarBind, ord: Order)
    requires VarBindEncodable(vb) && |out| % 4 == 0
    ensures VarBindAppender(ord)(out, vb) == out + VarBindEncoder(ord)(vb)
    ensures |VarBindEncoder(ord)(vb)| % 4 == 0
  {
    DataIsLocal(out, vb.data, ord);
    VarBindAligned(vb, ord);
    var data := DataHead(vb.data, ord) + PayloadBytes(vb.data, ord);
    assert out + data + OidBytes(vb.name, 0, ord) == out + (data + OidBytes(vb.name, 0, ord));
  }

  /** On an aligned buffer a binding list adds each binding's own bytes and keeps
      the buffer aligned. */
  lemma VarBindsAreLocal(out: seq<byte>, vbs: seq<VarBind>, ord: Order)
    requires VarBindsEncodable(vbs) && |out| % 4 == 0
    ensures AppendList(out, vbs, VarBindAppender(ord)) == out + ListBytes(vbs, VarBindEncoder(ord))
    ensures |AppendList(out, vbs, VarBindAppender(ord))| % 4 == 0
  {
    forall i, o: seq<byte> | 0 <= i < |vbs| && |o| % 4 == 0
      ensures VarBindAppender(ord)(o, vbs[i]) == o + VarBindEncoder(ord)(vbs[i])
    {
      VarBindIsLocal(o, vbs[i], ord);
    }
    forall i | 0 <= i < |vbs| ensures |VarBindEncoder(ord)(vbs[i])| % 4 == 0 {
      VarBindIsLocal([], vbs[i], ord);
    }
    ListIsLocal(out, vbs, VarBindAppender(ord), VarBindEncoder(ord));
  }

  lemma RangesAreLocal(out: seq<byte>, rs: seq<Range>, ord: Order)
    requires RangesEncodable(rs) && |out| % 4 == 0
    ensures AppendList(out, rs, RangeAppender(ord)) == out + ListBytes(rs, RangeEncoder(ord))
    ensures |AppendList(out, rs, RangeAppender(ord))| % 4 == 0
  {
    forall i | 0 <= i < |rs| ensures |RangeEncoder(ord)(rs[i])| % 4 == 0 {
      assert |RangeBytes(rs[i], ord)| == 8 + 4 * |StoredArcs(rs[i].0)| + 4 * |StoredArcs(rs[i].1)|;
    }
    ListIsLocal(out, rs, RangeAppender(ord), RangeEncoder(ord));
  }

  // ----- Bodies -----

  datatype CloseReason = OtherReason | ParseError | ProtocolError | Timeout | Shutdown

  function ReasonCode(r: CloseReason): byte {
    match r case OtherReason => 1 case ParseError => 2 case ProtocolError => 3 case Timeout => 4 case Shutdown => 5
  }

  function ReasonOf(b: byte): CloseReason {
    match b case 2 => ParseError case 3 => ProtocolError case 4 => Timeout case 5 => Shutdown case _ => OtherReason
  }

  datatype Reg = Reg(timeout: byte, priority: byte, rangeSubid: byte, subtree: Oid, rangeBound: Oid,
                     context: Option<seq<byte>>)

  datatype BindKind = SetBinds | UndoBinds | NotifyBinds | IndexAllocate | IndexDeallocate

  /** The bodies; variants with one layout share a constructor: Register and
      Unregister, Get and GetNext, the binding lists, and the two capability
      PDUs. */
  datatype Body =
    | Open(timeout: byte, id: Oid, descr: seq<byte>)
    | Close(reason: CloseReason)
    | Registration(remove: bool, reg: Reg)
    | Search(next: bool, context: Option<seq<byte>>, ranges: seq<Range>)
    | GetBulk(context: Option<seq<byte>>, nonRepeaters: u16, ranges: seq<Range>, maxRepetitions: u16)
    | Binds(kind: BindKind, context: Option<seq<byte>>, varbinds: seq<VarBind>)
    | Cleanup
    | Ping(context: Option<seq<byte>>)
    | Caps(removeCaps: bool, context: Option<seq<byte>>, id: Oid, descr: seq<byte>)
    | Response(sysUpTime: u32, error: u16, index: u16, varbinds: seq<VarBind>)

  function BindCode(kind: BindKind): byte {
    match kind
    case SetBinds => 8
    case UndoBinds => 9
    case NotifyBinds => 11
    case IndexAllocate => 13
    case IndexDeallocate => 14
  }

  function TypeCode(b: Body): byte {
    match b
    case Open(_, _, _) => 1
    case Close(_) => 2
    case Registration(remove, _) => if remove then 4 else 3
    case Search(next, _, _) => if next then 6 else 5
    case GetBulk(_, _, _, _) => 7
    case Binds(kind, _, _) => BindCode(kind)
    case Cleanup => 10
    case Ping(_) => 12
    case Caps(remove, _, _, _) => if remove then 16 else 15
    case Response(_, _, _, _) => 18
  }

  function ContextOf(b: Body): Option<seq<byte>> {
    match b
    case Registration(_, reg) => reg.context
    case Search(_, context, _) => context
    case GetBulk(context, _, _, _) => context
    case Binds(_, context, _) => context
    case Ping(context) => context
    case Caps(_, context, _, _) => context
    case _ => V.None
  }

  ghost predicate BodyEncodable(b: Body) {
    match b
    case Open(_, id, _) => OidEncodable(id)
    case Registration(_, reg) => OidEncodable(reg.subtree)
    case Search(_, _, ranges) => RangesEncodable(ranges)
    case GetBulk(_, _, ranges, _) => RangesEncodable(ranges)
    case Binds(_, _, vbs) => VarBindsEncodable(vbs)
    case Caps(_, _, id, _) => OidEncodable(id)
    case Response(_, _, _, vbs) => VarBindsEncodable(vbs)
    case _ => true
  }

  function AppendContext(out: seq<byte>, context: Option<seq<byte>>, ord: Order): seq<byte> {
    match context case None => out case Some(c) => Pad(out + LengthWord(c, ord) + c)
  }

  /** The bound arc that is written: the one at index range_subid - 1, or 0. */
  function UpperArc(reg: Reg): u32 {
    if 0 < reg.rangeSubid <= |reg.rangeBound| then reg.rangeBound[reg.rangeSubid - 1] else 0
  }

  function BoundBytes(reg: Reg, ord: Order): seq<byte> {
    if reg.rangeSubid == 0 then [] else ord.put(UpperArc(reg), 4)
  }

  /** A subtree or capability OID followed by a padded text, on the buffer. */
  function AppendIdText(out: seq<byte>, id: Oid, descr: seq<byte>, ord: Order): seq<byte>
    requires OidEncodable(id)
  {
    Pad(out + OidBytes(id, 0, ord) + LengthWord(descr, ord) + descr)
  }

  function RegistrationBytes(reg: Reg, ord: Order): seq<byte>
    requires OidEncodable(reg.subtree)
  {
    AppendContext([reg.timeout, reg.priority, reg.rangeSubid, 0], reg.context, ord)
      + OidBytes(reg.subtree, 0, ord) + BoundBytes(reg, ord)
  }

  function BulkHead(nonRepeaters: u16, maxRepetitions: u16, ord: Order): seq<byte> {
    ord.put(nonRepeaters, 2) + ord.put(maxRepetitions, 2)
  }

  function ResponseHead(sysUpTime: u32, error: u16, index: u16, ord: Order): seq<byte> {
    ord.put(sysUpTime, 4) + ord.put(error, 2) + ord.put(index, 2)
  }

  /** The encoder on an empty buffer, with its whole-buffer padding. */
  ghost function EncodedBody(b: Body, ord: Order): seq<byte>
    requires BodyEncodable(b)
  {
    match b
    case Open(timeout, id, descr) => AppendIdText([timeout, 0, 0, 0], id, descr, ord)
    case Close(reason) => [ReasonCode(reason), 0, 0, 0]
    case Registration(_, reg) => RegistrationBytes(reg, ord)
    case Search(_, context, ranges) => AppendList(AppendContext([], context, ord), ranges, RangeAppender(ord))
    case GetBulk(context, nonRepeaters, ranges, maxRepetitions) =>
      AppendList(AppendContext(BulkHead(nonRepeaters, maxRepetitions, ord), context, ord), ranges, RangeAppender(ord))
    case Binds(_, context, vbs) => AppendList(AppendContext([], context, ord), vbs, VarBindAppender(ord))
    case Cleanup => []
    case Ping(context) => AppendContext([], context, ord)
    case Caps(_, context, id, descr) => AppendIdText(AppendContext([], context, ord), id, descr, ord)
    case Response(sysUpTime, error, index, vbs) =>
      AppendList(ResponseHead(sysUpTime, error, index, ord), vbs, VarBindAppender(ord))
  }

  method EncodeContext(start: seq<byte>, context: Option<seq<byte>>, ord: Order) returns (out: seq<byte>)
    ensures out == AppendContext(start, context, ord)
  {
    out := start;
    if context.Some? {
      out := PadToFour(start + LengthWord(context.value, ord) + context.value);
    }
  }

  method EncodeIdText(start: seq<byte>, id: Oid, descr: seq<byte>, ord: Order) returns (out: seq<byte>)
    requires OidEncodable(id)
    ensures out == AppendIdText(start, id, descr, ord)
  {
    var oid := EncodeOid(id, 0, ord);
    out := PadToFour(start + oid + LengthWord(descr, ord) + descr);
  }

  method EncodeBody(b: Body, ord: Order) returns (out: seq<byte>)
    requires BodyEncodable(b)
    ensures out == EncodedBody(b, ord)
  {
    match b
    case Open(timeout, id, descr) =>
      out := EncodeIdText([timeout, 0, 0, 0], id, descr, ord);
    case Close(reason) =>
      out := [ReasonCode(reason), 0, 0, 0];
    case Registration(_, reg) =>
      out := EncodeContext([reg.timeout, reg.priority, reg.rangeSubid, 0], reg.context, ord);
      var oid := EncodeOid(reg.subtree, 0, ord);
      out := out + oid + BoundBytes(reg, ord);
    case Search(_, context, ranges) =>
      out := EncodeContext([], context, ord);
      out := EncodeList(out, ranges, RangeAppender(ord));
    case GetBulk(context, nonRepeaters, ranges, maxRepetitions) =>
      out := EncodeContext(BulkHead(nonRepeaters, maxRepetitions, ord), context, ord);
      out := EncodeList(out, ranges, RangeAppender(ord));
    case Binds(_, context, vbs) =>
      out := EncodeContext([], context, ord);
      out := EncodeList(out, vbs, VarBindAppender(ord));
    case Cleanup =>
      out := [];
    case Ping(context) =>
      out := EncodeContext([], context, ord);
    case Caps(_, context, id, descr) =>
      out := EncodeContext([], context, ord);
      out := EncodeIdText(out, id, descr, ord);
    case Response(sysUpTime, error, index, vbs) =>
      out := EncodeList(ResponseHead(sysUpTime, error, index, ord), vbs, VarBindAppender(ord));
  }

  function DecodeOpen(bs: seq<byte>, ord: Order): Result<Body> {
    if |bs| < 4 then Err(Truncated)
    else
      match DecodeOid(bs[4..], ord)
      case Err(e) => Err(e)
      case Ok((id, rest)) =>
        match TakeCounted(rest, ord)
        case Err(e) => Err(e)
        case Ok((descr, _)) => Ok(Open(bs[0], id, descr))
  }

  /** A context is never read: the subtree is expected right behind the fixed
      fields, and the bound is one arc. */
  function DecodeRegistration(remove: bool, bs: seq<byte>, ord: Order): Result<Body> {
    if |bs| < 4 then Err(Truncated)
    else
      match DecodeOid(bs[4..], ord)
      case Err(e) => Err(e)
      case Ok((subtree, rest)) =>
        if bs[2] == 0 then Ok(Registration(remove, Reg(bs[0], bs[1], 0, subtree, [], V.None)))
        else
          match TakeU32(rest, ord)
          case Err(e) => Err(e)
          case Ok((upper, _)) => Ok(Registration(remove, Reg(bs[0], bs[1], bs[2], subtree, [upper], V.None)))
  }

  ghost function DecodeBulk(bs: seq<byte>, ord: Order): Result<Body> {
    match TakeU16(bs, ord)
    case Err(e) => Err(e)
    case Ok((nonRepeaters, rest)) =>
      match TakeU16(rest, ord)
      case Err(e) => Err(e)
      case Ok((maxRepetitions, rest2)) =>
        match DecodeRanges(rest2, ord)
        case Err(e) => Err(e)
        case Ok(ranges) => Ok(GetBulk(V.None, nonRepeaters, ranges, maxRepetitions))
  }

  function DecodeCaps(remove: bool, bs: seq<byte>, ord: Order): Result<Body> {
    match DecodeOid(bs, ord)
    case Err(e) => Err(e)
    case Ok((id, rest)) =>
      match TakeCounted(rest, ord)
      case Err(e) => Err(e)
      case Ok((descr, _)) => Ok(Caps(remove, V.None, id, descr))
  }

  ghost function DecodeResponse(bs: seq<byte>, ord: Order): Result<Body> {
    match TakeU32(bs, ord)
    case Err(e) => Err(e)
    case Ok((sysUpTime, r1)) =>
      match TakeU16(r1, ord)
      case Err(e) => Err(e)
      case Ok((error, r2)) =>
        match TakeU16(r2, ord)
        case Err(e) => Err(e)
        case Ok((index, r3)) =>
          match DecodeVarBinds(r3, ord)
          case Err(e) => Err(e)
          case Ok(vbs) => Ok(Response(sysUpTime, error, index, vbs))
  }

  ghost function DecodeBinds(kind: BindKind, bs: seq<byte>, ord: Order): Result<Body> {
    match DecodeVarBinds(bs, ord)
    case Err(e) => Err(e)
    case Ok(vbs) => Ok(Binds(kind, V.None, vbs))
  }

  /** GetNext is decoded as Get. */
  ghost function DecodeSearch(bs: seq<byte>, ord: Order): Result<Body> {
    match DecodeRanges(bs, ord)
    case Err(e) => Err(e)
    case Ok(ranges) => Ok(Search(false, V.None, ranges))
  }

  ghost function DecodeBody(code: byte, bs: seq<byte>, ord: Order): Result<Body> {
    if code == 1 then DecodeOpen(bs, ord)
    else if code == 2 then if |bs| < 4 then Err(Truncated) else Ok(Close(ReasonOf(bs[0])))
    else if code == 3 then DecodeRegistration(false, bs, ord)
    else if code == 4 then DecodeRegistration(true, bs, ord)
    else if code == 5 || code == 6 then DecodeSearch(bs, ord)
    else if code == 7 then DecodeBulk(bs, ord)
    else if code == 8 then DecodeBinds(SetBinds, bs, ord)
    else if code == 9 then DecodeBinds(UndoBinds, bs, ord)
    else if code == 10 then Ok(Cleanup)
    else if code == 11 then DecodeBinds(NotifyBinds, bs, ord)
    else if code == 12 then Ok(Ping(V.None))
    else if code == 13 then DecodeBinds(IndexAllocate, bs, ord)
    else if code == 14 then DecodeBinds(IndexDeallocate, bs, ord)
    else if code == 15 then DecodeCaps(false, bs, ord)
    else if code == 16 then DecodeCaps(true, bs, ord)
    else if code == 18 then DecodeResponse(bs, ord)
    else Err(UnknownPduType)
  }

  // ----- Which bodies survive -----

  /** A range registration survives when the bound is a single arc and that arc
      is the one written: index 1, or a bound of 0. */
  predicate RangeKept(reg: Reg) {
    if reg.rangeSubid == 0 then reg.rangeBound == []
    else |reg.rangeBound| == 1 && (reg.rangeSubid == 1 || reg.rangeBound[0] == 0)
  }

  ghost predicate Faithful(b: Body) {
    match b
    case Open(_, id, descr) => Packable(id) && |descr| < 0x1_0000_0000
    case Close(_) => true
    case Registration(_, reg) => Packable(reg.subtree) && RangeKept(reg)
    case Search(next, _, ranges) => !next && RangesFaithful(ranges)
    case GetBulk(_, _, ranges, _) => RangesFaithful(ranges)
    case Binds(_, _, vbs) => VarBindsFaithful(vbs)
    case Cleanup => true
    case Ping(_) => true
    case Caps(_, _, id, descr) => Packable(id) && |descr| < 0x1_0000_0000
    case Response(_, _, _, vbs) => VarBindsFaithful(vbs)
  }

  lemma OidThenText(id: Oid, descr: seq<byte>, ord: Order)
    requires OidEncodable(id)
    ensures var bs := OidBytes(id, 0, ord) + Counted(descr, ord);
      var r := DecodeOid(bs, ord);
      && r.Ok?
      && (r.value.0 == id <==> Packable(id))
      && (Packable(id) ==> (TakeCounted(r.value.1, ord).Ok? && TakeCounted(r.value.1, ord).value.0 == descr
                            <==> |descr| < 0x1_0000_0000))
  {
    OidComesOutAs(id, 0, ord, Counted(descr, ord));
    OidRoundTripIff(id, 0, ord, Counted(descr, ord));
    CountedRoundTripIff(descr, ord, []);
    assert Counted(descr, ord) + [] == Counted(descr, ord);
  }

  /** On an aligned buffer the text is padded on its own. */
  lemma IdTextIsLocal(out: seq<byte>, id: Oid, descr: seq<byte>, ord: Order)
    requires OidEncodable(id) && |out| % 4 == 0
    ensures AppendIdText(out, id, descr, ord) == out + (OidBytes(id, 0, ord) + Counted(descr, ord))
  {
    var head := out + OidBytes(id, 0, ord);
    assert |head| == |out| + 4 + 4 * |StoredArcs(id)|;
    PadIsLocal(head, descr, ord);
  }

  lemma OpenRoundTripIff(timeout: byte, id: Oid, descr: seq<byte>, ord: Order)
    requires OidEncodable(id)
    ensures DecodeOpen(AppendIdText([timeout, 0, 0, 0], id, descr, ord), ord) == Ok(Open(timeout, id, descr))
       <==> Packable(id) && |descr| < 0x1_0000_0000
  {
    IdTextIsLocal([timeout, 0, 0, 0], id, descr, ord);
    Apart([timeout, 0, 0, 0], OidBytes(id, 0, ord) + Counted(descr, ord));
    OidThenText(id, descr, ord);
  }

  lemma CapsRoundTripIff(remove: bool, id: Oid, descr: seq<byte>, ord: Order)
    requires OidEncodable(id)
    ensures DecodeCaps(remove, AppendIdText([], id, descr, ord), ord) == Ok(Caps(remove, V.None, id, descr))
       <==> Packable(id) && |descr| < 0x1_0000_0000
  {
    IdTextIsLocal([], id, descr, ord);
    var bs := OidBytes(id, 0, ord) + Counted(descr, ord);
    assert [] + bs == bs;
    OidThenText(id, descr, ord);
  }

  lemma RegistrationRoundTripIff(remove: bool, reg: Reg, ord: Order)
    requires OidEncodable(reg.subtree) && reg.context.None?
    ensures DecodeRegistration(remove, RegistrationBytes(reg, ord), ord) == Ok(Registration(remove, reg))
       <==> Packable(reg.subtree) && RangeKept(reg)
  {
    RegistrationLayout(reg, ord);
    OidComesOutAs(reg.subtree, 0, ord, BoundBytes(reg, ord));
    OidRoundTripIff(reg.subtree, 0, ord, BoundBytes(reg, ord));
    if reg.rangeSubid != 0 {
      TakeU32Of(UpperArc(reg), ord, []);
      assert BoundBytes(reg, ord) + [] == BoundBytes(reg, ord);
      assert [UpperArc(reg)] == reg.rangeBound <==> RangeKept(reg);
    }
  }

  lemma RegistrationLayout(reg: Reg, ord: Order)
    requires OidEncodable(reg.subtree) && reg.context.None?
    ensures var bs := RegistrationBytes(reg, ord);
      && |bs| >= 4 && bs[0] == reg.timeout && bs[1] == reg.priority && bs[2] == reg.rangeSubid
      && bs[4..] == OidBytes(reg.subtree, 0, ord) + BoundBytes(reg, ord)
  {
  }

  /** Reading two fixed words back leaves the list. */
  lemma BulkHeadReads(nonRepeaters: u16, maxRepetitions: u16, list: seq<byte>, ord: Order)
    ensures var bs := BulkHead(nonRepeaters, maxRepetitions, ord) + list;
      DecodeBulk(bs, ord)
        == match DecodeRanges(list, ord)
           case Err(e) => Err(e)
           case Ok(ranges) => Ok(GetBulk(V.None, nonRepeaters, ranges, maxRepetitions))
  {
    var rest := ord.put(maxRepetitions, 2) + list;
    assert BulkHead(nonRepeaters, maxRepetitions, ord) + list == ord.put(nonRepeaters, 2) + rest;
    TakeU16Of(nonRepeaters, ord, rest);
    TakeU16Of(maxRepetitions, ord, list);
  }

  lemma BulkLayout(nonRepeaters: u16, ranges: seq<Range>, maxRepetitions: u16, ord: Order)
    requires RangesEncodable(ranges)
    ensures EncodedBody(GetBulk(V.None, nonRepeaters, ranges, maxRepetitions), ord)
         == BulkHead(nonRepeaters, maxRepetitions, ord) + ListBytes(ranges, RangeEncoder(ord))
  {
    RangesAreLocal(BulkHead(nonRepeaters, maxRepetitions, ord), ranges, ord);
  }

  lemma BulkRoundTripIff(nonRepeaters: u16, ranges: seq<Range>, maxRepetitions: u16, list: seq<byte>, ord: Order)
    ensures DecodeBulk(BulkHead(nonRepeaters, maxRepetitions, ord) + list, ord)
            == Ok(GetBulk(V.None, nonRepeaters, ranges, maxRepetitions))
       <==> DecodeRanges(list, ord) == Ok(ranges)
  {
    BulkHeadReads(nonRepeaters, maxRepetitions, list, ord);
  }

  lemma ResponseHeadReads(sysUpTime: u32, error: u16, index: u16, list: seq<byte>, ord: Order)
    ensures DecodeResponse(ResponseHead(sysUpTime, error, index, ord) + list, ord)
         == match DecodeVarBinds(list, ord)
            case Err(e) => Err(e)
            case Ok(vbs) => Ok(Response(sysUpTime, error, index, vbs))
  {
    var r2 := ord.put(index, 2) + list;
    var r1 := ord.put(error, 2) + r2;
    assert ResponseHead(sysUpTime, error, index, ord) + list == ord.put(sysUpTime, 4) + r1;
    TakeU32Of(sysUpTime, ord, r1);
    TakeU16Of(error, ord, r2);
    TakeU16Of(index, ord, list);
  }

  lemma ResponseLayout(sysUpTime: u32, error: u16, index: u16, vbs: seq<VarBind>, ord: Order)
    requires VarBindsEncodable(vbs)
    ensures EncodedBody(Response(sysUpTime, error, index, vbs), ord)
         == ResponseHead(sysUpTime, error, index, ord) + ListBytes(vbs, VarBindEncoder(ord))
  {
    VarBindsAreLocal(ResponseHead(sysUpTime, error, index, ord), vbs, ord);
  }

  lemma ResponseRoundTripIff(sysUpTime: u32, error: u16, index: u16, vbs: seq<VarBind>, list: seq<byte>, ord: Order)
    ensures DecodeResponse(ResponseHead(sysUpTime, error, index, ord) + list, ord)
            == Ok(Response(sysUpTime, error, index, vbs))
       <==> DecodeVarBinds(list, ord) == Ok(vbs)
  {
    ResponseHeadReads(sysUpTime, error, index, list, ord);
  }

  lemma BindsRoundTripIff(kind: BindKind, vbs: seq<VarBind>, ord: Order)
    requires VarBindsEncodable(vbs)
    ensures DecodeBinds(kind, AppendList([], vbs, VarBindAppender(ord)), ord) == Ok(Binds(kind, V.None, vbs))
       <==> VarBindsFaithful(vbs)
  {
    VarBindsAreLocal([], vbs, ord);
    assert [] + ListBytes(vbs, VarBindEncoder(ord)) == ListBytes(vbs, VarBindEncoder(ord));
    VarBindsRoundTripIff(vbs, ord);
  }

  /** Get and GetNext have one encoding, and it is decoded as Get. */
  lemma SearchComesOutAsGet(ranges: seq<Range>, ord: Order)
    requires RangesEncodable(ranges)
    ensures DecodeSearch(AppendList([], ranges, RangeAppender(ord)), ord) == Ok(Search(false, V.None, ranges))
       <==> RangesFaithful(ranges)
  {
    RangesAreLocal([], ranges, ord);
    assert [] + ListBytes(ranges, RangeEncoder(ord)) == ListBytes(ranges, RangeEncoder(ord));
    RangesRoundTripIff(ranges, ord);
  }

  /** The type codes with several variants select the right decoder. */
  lemma BindsDispatch(kind: BindKind, bs: seq<byte>, ord: Order)
    ensures DecodeBody(BindCode(kind), bs, ord) == DecodeBinds(kind, bs, ord)
  {
  }

  lemma CapsDispatch(remove: bool, bs: seq<byte>, ord: Order)
    ensures DecodeBody(if remove then 16 else 15, bs, ord) == DecodeCaps(remove, bs, ord)
  {
  }

  lemma ResponseDispatch(bs: seq<byte>, ord: Order)
    ensures DecodeBody(18, bs, ord) == DecodeResponse(bs, ord)
  {
  }

  /** The body comes back, and only if it is faithful. */
  ghost predicate ComesBackIffFaithful(b: Body, ord: Order)
    requires BodyEncodable(b)
  {
    DecodeBody(TypeCode(b), EncodedBody(b, ord), ord) == Ok(b) <==> Faithful(b)
  }

  lemma OpenComesBack(b: Body, ord: Order)
    requires b.Open? && BodyEncodable(b)
    ensures ComesBackIffFaithful(b, ord)
  {
    OpenRoundTripIff(b.timeout, b.id, b.descr, ord);
  }

  lemma RegistrationComesBack(b: Body, ord: Order)
    requires b.Registration? && BodyEncodable(b) && ContextOf(b).None?
    ensures ComesBackIffFaithful(b, ord)
  {
    RegistrationRoundTripIff(b.remove, b.reg, ord);
  }

  lemma SearchComesBack(b: Body, ord: Order)
    requires b.Search? && BodyEncodable(b) && ContextOf(b).None?
    ensures ComesBackIffFaithful(b, ord)
  {
    SearchComesOutAsGet(b.ranges, ord);
  }

  lemma BulkComesBack(b: Body, ord: Order)
    requires b.GetBulk? && BodyEncodable(b) && ContextOf(b).None?
    ensures ComesBackIffFaithful(b, ord)
  {
    var list := ListBytes(b.ranges, RangeEncoder(ord));
    BulkLayout(b.nonRepeaters, b.ranges, b.maxRepetitions, ord);
    RangesRoundTripIff(b.ranges, ord);
    BulkRoundTripIff(b.nonRepeaters, b.ranges, b.maxRepetitions, list, ord);
    BulkDispatch(EncodedBody(b, ord), ord);
  }

  lemma BulkDispatch(bs: seq<byte>, ord: Order)
    ensures DecodeBody(7, bs, ord) == DecodeBulk(bs, ord)
  {
  }

  lemma BindsComeBack(b: Body, ord: Order)
    requires b.Binds? && BodyEncodable(b) && ContextOf(b).None?
    ensures ComesBackIffFaithful(b, ord)
  {
    BindsRoundTripIff(b.kind, b.varbinds, ord);
    BindsDispatch(b.kind, EncodedBody(b, ord), ord);
  }

  lemma CapsComeBack(b: Body, ord: Order)
    requires b.Caps? && BodyEncodable(b) && ContextOf(b).None?
    ensures ComesBackIffFaithful(b, ord)
  {
    CapsRoundTripIff(b.removeCaps, b.id, b.descr, ord);
    CapsDispatch(b.removeCaps, EncodedBody(b, ord), ord);
  }

  lemma ResponseComesBack(b: Body, ord: Order)
    requires b.Response? && BodyEncodable(b)
    ensures ComesBackIffFaithful(b, ord)
  {
    var list := ListBytes(b.varbinds, VarBindEncoder(ord));
    ResponseLayout(b.sysUpTime, b.error, b.index, b.varbinds, ord);
    VarBindsRoundTripIff(b.varbinds, ord);
    ResponseRoundTripIff(b.sysUpTime, b.error, b.index, b.varbinds, list, ord);
    ResponseDispatch(EncodedBody(b, ord), ord);
  }

  lemma FixedComesBack(b: Body, ord: Order)
    requires (b.Close? || b.Cleanup? || b.Ping?) && BodyEncodable(b) && ContextOf(b).None?
    ensures ComesBackIffFaithful(b, ord)
  {
  }

  /** A context-free body comes back exactly when it is faithful. */
  lemma BodyRoundTripIff(b: Body, ord: Order)
    requires BodyEncodable(b) && ContextOf(b).None?
    ensures ComesBackIffFaithful(b, ord)
  {
    match b
    case Open(_, _, _) => OpenComesBack(b, ord);
    case Registration(_, _) => RegistrationComesBack(b, ord);
    case Search(_, _, _) => SearchComesBack(b, ord);
    case GetBulk(_, _, _, _) => BulkComesBack(b, ord);
    case Binds(_, _, _) => BindsComeBack(b, ord);
    case Caps(_, _, _, _) => CapsComeBack(b, ord);
    case Response(_, _, _, _) => ResponseComesBack(b, ord);
    case _ => FixedComesBack(b, ord);
  }

  // ----- Bodies with a context -----

  /** The decoder reads an empty context as an empty OID, a length of 0 or a tag
      0, and gives every context back as empty. */
  ghost predicate ContextKept(b: Body) {
    match ContextOf(b)
    case None => true
    case Some(c) =>
      c == [] &&
      match b
      case Ping(_) => true
      case Registration(_, reg) => reg.subtree == [] && reg.rangeBound == if reg.rangeSubid == 0 then [] else [0]
      case Caps(_, _, id, descr) => id == [] && descr == []
      case _ => false
  }

  const Zero4: seq<byte> := [0, 0, 0, 0]

  ghost predicate ZeroWords(ord: Order) {
    ord.put(0, 4) == Zero4 && ord.get([0, 0]) == 0
  }

  lemma EmptyContext(out: seq<byte>, ord: Order)
    requires ZeroWords(ord) && |out| % 4 == 0
    ensures AppendContext(out, V.Some([]), ord) == out + Zero4
  {
    var none: seq<byte> := [];
    assert |none| % 0x1_0000_0000 == 0 && LengthWord(none, ord) == Zero4;
    var padded := out + Zero4;
    assert out + LengthWord(none, ord) + none == padded;
    AlignedSum(|out|, 4);
    assert PadLength(|padded|) == 0;
    assert Pad(padded) == padded;
    assert AppendContext(out, V.Some(none), ord) == Pad(padded);
  }

  /** Zero bytes read as an OID: the empty one. */
  lemma ZeroOid(tail: seq<byte>, ord: Order)
    ensures DecodeOid(Zero4 + tail, ord) == Ok(([], tail))
  {
    var bs := Zero4 + tail;
    assert bs[0] == 0 && bs[1] == 0 && bs[4..] == tail;
    assert PrefixArcs(0) + ReadArcs(tail, 0, ord) == [] && tail[0..] == tail;
  }

  /** A decoded OID took the bytes of its own encoding, or five words more: a
      longer form without the prefix byte. */
  lemma DecodedOidSize(bs: seq<byte>, inc: byte, ord: Order) returns (k: nat)
    requires DecodeOid(bs, ord).Ok? && OidEncodable(DecodeOid(bs, ord).value.0)
    ensures var (o, rest) := DecodeOid(bs, ord).value; |bs| == |OidBytes(o, inc, ord)| + 20 * k + |rest|
  {
    var o := DecodeOid(bs, ord).value.0;
    k := if bs[1] == 0 && Prefixed(o) then 1 else 0;
  }

  lemma DecodedRangeSize(bs: seq<byte>, ord: Order) returns (k: nat)
    requires DecodeRange(bs, ord).Ok? && RangeEncodable(DecodeRange(bs, ord).value.0)
    ensures var (r, rest) := DecodeRange(bs, ord).value; |bs| == |RangeBytes(r, ord)| + 20 * k + |rest|
  {
    var k1 := DecodedOidSize(bs, 1, ord);
    var k2 := DecodedOidSize(DecodeOid(bs, ord).value.1, 0, ord);
    k := k1 + k2;
  }

  lemma RangesSplit(bs: seq<byte>, ranges: seq<Range>, ord: Order) returns (rest: seq<byte>)
    requires bs != [] && DecodeRanges(bs, ord) == Ok(ranges)
    ensures ranges != [] && DecodeRange(bs, ord) == Ok((ranges[0], rest)) && |rest| < |bs|
    ensures DecodeRanges(rest, ord) == Ok(ranges[1..])
  {
    assert RangeDecoder(ord)(bs) == DecodeRange(bs, ord);
    rest := DecodeRange(bs, ord).value.1;
  }

  /** The bytes of the list took as many words, and k times five more. */
  lemma {:induction false} RangesTake(bs: seq<byte>, ranges: seq<Range>, ord: Order) returns (k: nat)
    requires RangesEncodable(ranges) && DecodeRanges(bs, ord) == Ok(ranges)
    ensures |bs| == |ListBytes(ranges, RangeEncoder(ord))| + 20 * k
    decreases |bs|
  {
    if bs == [] {
      k := 0;
    } else {
      var rest := RangesSplit(bs, ranges, ord);
      var first := DecodedRangeSize(bs, ord);
      var later := RangesTake(rest, ranges[1..], ord);
      k := first + later;
      RangesLength(ranges, ord);
    }
  }

  lemma RangesLength(ranges: seq<Range>, ord: Order)
    requires ranges != [] && RangesEncodable(ranges)
    ensures |ListBytes(ranges, RangeEncoder(ord))| == |RangeBytes(ranges[0], ord)| + |ListBytes(ranges[1..], RangeEncoder(ord))|
  {
  }

  /** A word in front of a list of ranges: whatever is read, it is not that
      list. */
  lemma ShiftedRanges(word: seq<byte>, ranges: seq<Range>, ord: Order)
    requires |word| == 4 && RangesEncodable(ranges)
    ensures DecodeRanges(word + ListBytes(ranges, RangeEncoder(ord)), ord) != Ok(ranges)
  {
    var list := ListBytes(ranges, RangeEncoder(ord));
    if DecodeRanges(word + list, ord) == Ok(ranges) {
      var k := RangesTake(word + list, ranges, ord);
      NoFiveWords(|word + list|, |list|, k);
    }
  }

  /** Four bytes are no multiple of twenty. */
  lemma NoFiveWords(n: nat, l: nat, k: nat)
    requires n == l + 20 * k
    ensures n != l + 4
  {
  }

  /** Zero bytes in front of a binding list: tag 0 is no type. */
  lemma ZeroTag(tail: seq<byte>, ord: Order)
    requires ZeroWords(ord)
    ensures DecodeVarBinds(Zero4 + tail, ord).Err?
  {
    var bs := Zero4 + tail;
    assert bs[..2] == [0, 0];
    assert DecodeVarBind(bs, ord).Err?;
    assert VarBindDecoder(ord)(bs) == DecodeVarBind(bs, ord);
  }

  /** A set context flag only fills in an empty context. */
  function FillContext(b: Body): Body {
    match b
    case Registration(remove, reg) => Registration(remove, reg.(context := V.Some([])))
    case Search(next, _, ranges) => Search(next, V.Some([]), ranges)
    case GetBulk(_, nonRepeaters, ranges, maxRepetitions) => GetBulk(V.Some([]), nonRepeaters, ranges, maxRepetitions)
    case Binds(kind, _, vbs) => Binds(kind, V.Some([]), vbs)
    case Ping(_) => Ping(V.Some([]))
    case Caps(remove, _, id, descr) => Caps(remove, V.Some([]), id, descr)
    case _ => b
  }

  /** Decoding a body under a set context flag. */
  ghost function DecodeFilled(b: Body, ord: Order): Result<Body>
    requires BodyEncodable(b)
  {
    match DecodeBody(TypeCode(b), EncodedBody(b, ord), ord)
    case Err(e) => Err(e)
    case Ok(d) => Ok(FillContext(d))
  }

  function WithoutContext(b: Body): Body {
    match b
    case Registration(remove, reg) => Registration(remove, reg.(context := V.None))
    case Search(next, _, ranges) => Search(next, V.None, ranges)
    case GetBulk(_, nonRepeaters, ranges, maxRepetitions) => GetBulk(V.None, nonRepeaters, ranges, maxRepetitions)
    case Binds(kind, _, vbs) => Binds(kind, V.None, vbs)
    case Ping(_) => Ping(V.None)
    case Caps(remove, _, id, descr) => Caps(remove, V.None, id, descr)
    case _ => b
  }

  lemma Refill(d: Body, b: Body)
    requires ContextOf(d).None? && ContextOf(b).Some?
    ensures FillContext(d) == b <==> ContextOf(b) == V.Some([]) && d == WithoutContext(b)
  {
  }

  /** The decoder never reads a context. */
  lemma DecodedContextFree(code: byte, bs: seq<byte>, ord: Order)
    ensures var r := DecodeBody(code, bs, ord); r.Ok? ==> ContextOf(r.value).None?
  {
    if code == 3 || code == 4 {
      RegistrationContextFree(code == 4, bs, ord);
    } else if code == 7 {
      BulkContextFree(bs, ord);
    } else if code == 15 || code == 16 {
      CapsContextFree(code == 16, bs, ord);
    } else if code == 1 || code == 18 {
      OthersContextFree(bs, ord);
    }
  }

  lemma RegistrationContextFree(remove: bool, bs: seq<byte>, ord: Order)
    ensures var r := DecodeRegistration(remove, bs, ord); r.Ok? ==> r.value.Registration? && ContextOf(r.value).None?
  {
  }

  lemma BulkContextFree(bs: seq<byte>, ord: Order)
    ensures var r := DecodeBulk(bs, ord); r.Ok? ==> r.value.GetBulk? && ContextOf(r.value).None?
  {
  }

  lemma CapsContextFree(remove: bool, bs: seq<byte>, ord: Order)
    ensures var r := DecodeCaps(remove, bs, ord); r.Ok? ==> r.value.Caps? && ContextOf(r.value).None?
  {
  }

  lemma OthersContextFree(bs: seq<byte>, ord: Order)
    ensures var r := DecodeOpen(bs, ord); r.Ok? ==> r.value.Open?
    ensures var r := DecodeResponse(bs, ord); r.Ok? ==> r.value.Response?
  {
  }

  /** What is decoded, context aside. */
  ghost predicate RestComesBack(b: Body, ord: Order)
    requires BodyEncodable(b)
  {
    DecodeBody(TypeCode(b), EncodedBody(b, ord), ord) == Ok(WithoutContext(b))
  }

  lemma FilledIff(b: Body, ord: Order)
    requires BodyEncodable(b) && ContextOf(b).Some?
    ensures DecodeFilled(b, ord) == Ok(b) <==> ContextOf(b) == V.Some([]) && RestComesBack(b, ord)
  {
    var r := DecodeBody(TypeCode(b), EncodedBody(b, ord), ord);
    DecodedContextFree(TypeCode(b), EncodedBody(b, ord), ord);
    if r.Ok? {
      Refill(r.value, b);
    }
  }

  lemma SearchLosesContext(b: Body, ord: Order)
    requires BodyEncodable(b) && b.Search? && b.context == V.Some([]) && ZeroWords(ord)
    ensures !RestComesBack(b, ord)
  {
    var list := RangesBehindZeros([], b.ranges, ord);
    assert [] + list == list;
  }

  lemma BulkContextLayout(b: Body, ord: Order) returns (list: seq<byte>)
    requires BodyEncodable(b) && b.GetBulk? && b.context == V.Some([]) && ZeroWords(ord)
    ensures EncodedBody(b, ord) == BulkHead(b.nonRepeaters, b.maxRepetitions, ord) + list
    ensures DecodeRanges(list, ord) != Ok(b.ranges)
  {
    list := RangesBehindZeros(BulkHead(b.nonRepeaters, b.maxRepetitions, ord), b.ranges, ord);
  }

  lemma Associate(a: seq<byte>, b: seq<byte>, c: seq<byte>)
    ensures a + b + c == a + (b + c)
  {
  }

  lemma AppendedToZeros(head: seq<byte>, ranges: seq<Range>, ord: Order)
    requires |head| % 4 == 0 && RangesEncodable(ranges)
    ensures AppendList(head + Zero4, ranges, RangeAppender(ord)) == head + Zero4 + ListBytes(ranges, RangeEncoder(ord))
  {
    AlignedSum(|head|, 4);
    RangesAreLocal(head + Zero4, ranges, ord);
  }

  /** On an aligned buffer an empty context puts a zero word in front of the
      list. */
  lemma RangesBehindZeros(head: seq<byte>, ranges: seq<Range>, ord: Order) returns (list: seq<byte>)
    requires |head| % 4 == 0 && RangesEncodable(ranges) && ZeroWords(ord)
    ensures AppendList(AppendContext(head, V.Some([]), ord), ranges, RangeAppender(ord)) == head + list
    ensures DecodeRanges(list, ord) != Ok(ranges)
  {
    EmptyContext(head, ord);
    AppendedToZeros(head, ranges, ord);
    ShiftedRanges(Zero4, ranges, ord);
    Associate(head, Zero4, ListBytes(ranges, RangeEncoder(ord)));
    list := Zero4 + ListBytes(ranges, RangeEncoder(ord));
  }

  lemma BulkLosesContext(b: Body, ord: Order)
    requires BodyEncodable(b) && b.GetBulk? && b.context == V.Some([]) && ZeroWords(ord)
    ensures !RestComesBack(b, ord)
  {
    var list := BulkContextLayout(b, ord);
    BulkRoundTripIff(b.nonRepeaters, b.ranges, b.maxRepetitions, list, ord);
  }

  lemma BindsLoseContext(b: Body, ord: Order)
    requires BodyEncodable(b) && b.Binds? && b.context == V.Some([]) && ZeroWords(ord)
    ensures !RestComesBack(b, ord)
  {
    EmptyContext([], ord);
    assert [] + Zero4 == Zero4;
    VarBindsAreLocal(Zero4, b.varbinds, ord);
    ZeroTag(ListBytes(b.varbinds, VarBindEncoder(ord)), ord);
    BindsDispatch(b.kind, EncodedBody(b, ord), ord);
  }

  /** Empty subtree or capability OID and what follows it. */
  lemma ZeroWordReads(tail: seq<byte>, ord: Order)
    requires ZeroWords(ord)
    ensures TakeU32(Zero4 + tail, ord) == Ok((0, tail)) && TakeCounted(Zero4 + tail, ord) == Ok(([], tail))
  {
    TakeU32Of(0, ord, tail);
    assert tail[..0] == [] && tail[0..] == tail;
  }

  lemma EmptyOidBytes(ord: Order)
    ensures OidBytes([], 0, ord) == Zero4
  {
  }

  lemma RegistrationContextLayout(b: Body, ord: Order) returns (tail: seq<byte>)
    requires BodyEncodable(b) && b.Registration? && b.reg.context == V.Some([]) && ZeroWords(ord)
    ensures EncodedBody(b, ord) == [b.reg.timeout, b.reg.priority, b.reg.rangeSubid, 0] + (Zero4 + tail)
    ensures b.reg.subtree == [] ==> tail == Zero4 + BoundBytes(b.reg, ord)
  {
    var reg := b.reg;
    var head := [reg.timeout, reg.priority, reg.rangeSubid, 0];
    tail := OidBytes(reg.subtree, 0, ord) + BoundBytes(reg, ord);
    EmptyContext(head, ord);
    EmptyOidBytes(ord);
    assert head + Zero4 + OidBytes(reg.subtree, 0, ord) + BoundBytes(reg, ord) == head + (Zero4 + tail);
  }

  lemma RegistrationReadsEmpty(remove: bool, head: seq<byte>, tail: seq<byte>, ord: Order)
    requires |head| == 4
    ensures DecodeRegistration(remove, head + (Zero4 + tail), ord)
         == if head[2] == 0 then Ok(Registration(remove, Reg(head[0], head[1], 0, [], [], V.None)))
            else match TakeU32(tail, ord)
                 case Err(e) => Err(e)
                 case Ok((upper, _)) => Ok(Registration(remove, Reg(head[0], head[1], head[2], [], [upper], V.None)))
  {
    var bs := head + (Zero4 + tail);
    assert bs[4..] == Zero4 + tail;
    ZeroOid(tail, ord);
  }

  lemma RegistrationWithContext(b: Body, ord: Order)
    requires BodyEncodable(b) && b.Registration? && b.reg.context == V.Some([]) && ZeroWords(ord)
    ensures RestComesBack(b, ord) <==> ContextKept(b)
  {
    var reg := b.reg;
    var tail := RegistrationContextLayout(b, ord);
    RegistrationReadsEmpty(b.remove, [reg.timeout, reg.priority, reg.rangeSubid, 0], tail, ord);
    if reg.subtree == [] {
      ZeroWordReads(BoundBytes(reg, ord), ord);
    }
  }

  lemma CapsContextLayout(b: Body, ord: Order) returns (tail: seq<byte>)
    requires BodyEncodable(b) && b.Caps? && b.context == V.Some([]) && ZeroWords(ord)
    ensures EncodedBody(b, ord) == Zero4 + tail
    ensures b.id == [] ==> tail == Zero4 + Counted(b.descr, ord)
  {
    EmptyContext([], ord);
    assert [] + Zero4 == Zero4;
    IdTextIsLocal(Zero4, b.id, b.descr, ord);
    EmptyOidBytes(ord);
    tail := OidBytes(b.id, 0, ord) + Counted(b.descr, ord);
    assert Zero4 + OidBytes(b.id, 0, ord) + Counted(b.descr, ord) == Zero4 + tail;
  }

  lemma CapsWithContext(b: Body, ord: Order)
    requires BodyEncodable(b) && b.Caps? && b.context == V.Some([]) && ZeroWords(ord)
    ensures RestComesBack(b, ord) <==> ContextKept(b)
  {
    var tail := CapsContextLayout(b, ord);
    ZeroOid(tail, ord);
    if b.id == [] {
      ZeroWordReads(Counted(b.descr, ord), ord);
    }
    CapsDispatch(b.removeCaps, EncodedBody(b, ord), ord);
  }

  /** Exactly which bodies with a context come back under the context flag. */
  lemma ContextRoundTripIff(b: Body, ord: Order)
    requires BodyEncodable(b) && ContextOf(b).Some? && ZeroWords(ord)
    ensures DecodeFilled(b, ord) == Ok(b) <==> ContextKept(b)
    ensures ContextKept(b) ==> Faithful(b)
  {
    FilledIff(b, ord);
    if ContextOf(b) == V.Some([]) {
      match b
      case Search(_, _, _) => SearchLosesContext(b, ord);
      case GetBulk(_, _, _, _) => BulkLosesContext(b, ord);
      case Binds(_, _, _) => BindsLoseContext(b, ord);
      case Registration(_, _) => RegistrationWithContext(b, ord);
      case Caps(_, _, _, _) => CapsWithContext(b, ord);
      case Ping(_) =>
    }
  }

  /** Every encoded body, with or without a context, fills whole words. */
  lemma BodyAligned(b: Body, ord: Order)
    requires BodyEncodable(b)
    ensures |EncodedBody(b, ord)| % 4 == 0
  {
    match b
    case Registration(_, reg) => RegistrationAligned(reg, ord);
    case Search(_, context, ranges) => RangesAfterContextAligned([], context, ranges, ord);
    case GetBulk(context, nonRepeaters, ranges, maxRepetitions) =>
      RangesAfterContextAligned(BulkHead(nonRepeaters, maxRepetitions, ord), context, ranges, ord);
    case Binds(_, context, vbs) => VarBindsAfterContextAligned([], context, vbs, ord);
    case Response(sysUpTime, error, index, vbs) =>
      VarBindsAfterContextAligned(ResponseHead(sysUpTime, error, index, ord), V.None, vbs, ord);
    case _ =>
  }

  lemma RegistrationAligned(reg: Reg, ord: Order)
    requires OidEncodable(reg.subtree)
    ensures |RegistrationBytes(reg, ord)| % 4 == 0
  {
    var head := AppendContext([reg.timeout, reg.priority, reg.rangeSubid, 0], reg.context, ord);
    WordsAligned(|StoredArcs(reg.subtree)|);
    AlignedSum(|head|, |OidBytes(reg.subtree, 0, ord)|);
    AlignedSum(|head + OidBytes(reg.subtree, 0, ord)|, |BoundBytes(reg, ord)|);
  }

  lemma RangesAfterContextAligned(out: seq<byte>, context: Option<seq<byte>>, ranges: seq<Range>, ord: Order)
    requires RangesEncodable(ranges) && |out| % 4 == 0
    ensures |AppendList(AppendContext(out, context, ord), ranges, RangeAppender(ord))| % 4 == 0
  {
    RangesAreLocal(AppendContext(out, context, ord), ranges, ord);
  }

  lemma VarBindsAfterContextAligned(out: seq<byte>, context: Option<seq<byte>>, vbs: seq<VarBind>, ord: Order)
    requires VarBindsEncodable(vbs) && |out| % 4 == 0
    ensures |AppendList(AppendContext(out, context, ord), vbs, VarBindAppender(ord))| % 4 == 0
  {
    VarBindsAreLocal(AppendContext(out, context, ord), vbs, ord);
  }

  // ----- Header and whole PDUs -----

  datatype Header = Header(version: byte, pduType: byte, flags: byte, sessionId: u32, transactionId: u32,
                           packetId: u32, payloadLength: u32, timeout: byte)

  datatype Pdu = Pdu(header: Header, body: Body)

  /** The network-byte-order flag, 0x04. */
  predicate IsBig(flags: byte) {
    (flags / 4) % 2 == 1
  }

  /** The non-default-context flag, 0x08. */
  predicate HasContextFlag(flags: byte) {
    (flags / 8) % 2 == 1
  }

  function WithContextFlag(flags: byte, on: bool): byte {
    var cleared := if HasContextFlag(flags) then flags - 8 else flags;
    if on then cleared + 8 else cleared
  }

  lemma ContextFlagKeepsOrder(flags: byte, on: bool)
    ensures IsBig(WithContextFlag(flags, on)) == IsBig(flags)
    ensures HasContextFlag(WithContextFlag(flags, on)) == on
    ensures HasContextFlag(flags) == on ==> WithContextFlag(flags, on) == flags
  {
    var q := flags / 4;
    var q2 := q / 2;
    var h, c, b, l := q2 / 2, q2 % 2, q % 2, flags % 4;
    FlagBits(h, c, b, l);
    FlagBits(h, if on then 1 else 0, b, l);
  }

  /** The two flag bits of a number put together from its bits. */
  lemma FlagBits(h: nat, c: nat, b: nat, l: nat)
    requires c < 2 && b < 2 && l < 4
    ensures var x := 16 * h + 8 * c + 4 * b + l; (x / 8) % 2 == c && (x / 4) % 2 == b
  {
    var x := 16 * h + 8 * c + 4 * b + l;
    DivModUnique(x, 8, 2 * h + c, 4 * b + l);
    DivModUnique(x, 4, 4 * h + 2 * c + b, l);
  }

  /** Four words in a row. */
  function Words(a: u32, b: u32, c: u32, d: u32, ord: Order): seq<byte> {
    ord.put(a, 4) + (ord.put(b, 4) + (ord.put(c, 4) + ord.put(d, 4)))
  }

  function HeaderBytes(h: Header): seq<byte> {
    [h.version, h.pduType, h.flags, 0]
      + Words(h.sessionId, h.transactionId, h.packetId, h.payloadLength, OrderOf(IsBig(h.flags)))
  }

  function WordAt(bs: seq<byte>, i: nat, ord: Order): u32
    requires i + 4 <= |bs|
  {
    TakeU32(bs[i..], ord).value.0
  }

  function DecodeHeader(bs: seq<byte>): Decoded<Header> {
    if |bs| < 20 then Err(Truncated)
    else
      var ord := OrderOf(IsBig(bs[2]));
      Ok((Header(bs[0], bs[1], bs[2], WordAt(bs, 4, ord), WordAt(bs, 8, ord), WordAt(bs, 12, ord),
                 WordAt(bs, 16, ord), 0), bs[20..]))
  }

  lemma WordsRead(head: seq<byte>, a: u32, b: u32, c: u32, d: u32, rest: seq<byte>, ord: Order)
    requires |head| == 4
    ensures var bs := head + Words(a, b, c, d, ord) + rest;
      && |bs| == 20 + |rest| && bs[20..] == rest && bs[..4] == head
      && WordAt(bs, 4, ord) == a && WordAt(bs, 8, ord) == b && WordAt(bs, 12, ord) == c && WordAt(bs, 16, ord) == d
  {
    var bs := head + Words(a, b, c, d, ord) + rest;
    var w3 := ord.put(d, 4) + rest;
    var w2 := ord.put(c, 4) + w3;
    var w1 := ord.put(b, 4) + w2;
    var w0 := ord.put(a, 4) + w1;
    assert bs == head + w0;
    assert bs[4..] == w0 && bs[8..] == w1 && bs[12..] == w2 && bs[16..] == w3 && bs[20..] == rest;
    TakeU32Of(a, ord, w1);
    TakeU32Of(b, ord, w2);
    TakeU32Of(c, ord, w3);
    TakeU32Of(d, ord, rest);
  }

  lemma HeaderRoundTrip(h: Header, rest: seq<byte>)
    ensures DecodeHeader(HeaderBytes(h) + rest) == Ok((h.(timeout := 0), rest))
    ensures |HeaderBytes(h) + rest| == 20 + |rest|
  {
    var head := [h.version, h.pduType, h.flags, 0];
    WordsRead(head, h.sessionId, h.transactionId, h.packetId, h.payloadLength, rest, OrderOf(IsBig(h.flags)));
    var bs := HeaderBytes(h) + rest;
    assert bs[0] == bs[..4][0] && bs[1] == bs[..4][1] && bs[2] == bs[..4][2];
  }

  /** The header as written: type and length from the body, the context flag from
      the body's context. */
  ghost function WrittenHeader(p: Pdu): Header
    requires BodyEncodable(p.body)
  {
    p.header.(pduType := TypeCode(p.body),
              payloadLength := |EncodedBody(p.body, OrderOf(IsBig(p.header.flags)))| % 0x1_0000_0000,
              flags := WithContextFlag(p.header.flags, ContextOf(p.body).Some?))
  }

  ghost function EncodePdu(p: Pdu): seq<byte>
    requires BodyEncodable(p.body)
  {
    HeaderBytes(WrittenHeader(p)) + EncodedBody(p.body, OrderOf(IsBig(p.header.flags)))
  }

  ghost function DecodePdu(bs: seq<byte>): Result<Pdu> {
    match DecodeHeader(bs)
    case Err(e) => Err(e)
    case Ok((header, payload)) =>
      match DecodeBody(header.pduType, payload, OrderOf(IsBig(header.flags)))
      case Err(e) => Err(e)
      case Ok(body) => Ok(Pdu(header, if HasContextFlag(header.flags) then FillContext(body) else body))
  }

  /** Every PDU, in both byte orders: the body comes back exactly when it is
      faithful and its context, if any, is kept; and whatever decodes carries the
      written header, whose identifiers are the original ones. */
  lemma PduRoundTripIff(p: Pdu)
    requires BodyEncodable(p.body)
    ensures var r := DecodePdu(EncodePdu(p));
      && (r.Ok? && r.value.body == p.body <==> Faithful(p.body) && ContextKept(p.body))
      && (r.Ok? ==> r.value.header == WrittenHeader(p).(timeout := 0))
  {
    var ord := OrderOf(IsBig(p.header.flags));
    ContextFlagKeepsOrder(p.header.flags, ContextOf(p.body).Some?);
    HeaderRoundTrip(WrittenHeader(p), EncodedBody(p.body, ord));
    BehindHeader(p.body, IsBig(p.header.flags));
  }

  /** The body alone, its context filled in when there was one. */
  lemma BehindHeader(b: Body, big: bool)
    requires BodyEncodable(b)
    ensures var r := DecodeBody(TypeCode(b), EncodedBody(b, OrderOf(big)), OrderOf(big));
      r.Ok? && (if ContextOf(b).Some? then FillContext(r.value) else r.value) == b <==> Faithful(b) && ContextKept(b)
  {
    if ContextOf(b).None? {
      BodyRoundTripIff(b, OrderOf(big));
    } else {
      ZeroBytes(big);
      ContextRoundTripIff(b, OrderOf(big));
    }
  }

  /** The length field counts the bytes behind the header, which are whole words,
      as long as the count fits it. */
  lemma PayloadLengthIsExact(p: Pdu)
    requires BodyEncodable(p.body)
    ensures |EncodePdu(p)| % 4 == 0
    ensures |EncodePdu(p)| < 20 + 0x1_0000_0000 ==> WrittenHeader(p).payloadLength == |EncodePdu(p)| - 20
  {
    var body := EncodedBody(p.body, OrderOf(IsBig(p.header.flags)));
    BodyAligned(p.body, OrderOf(IsBig(p.header.flags)));
    HeaderRoundTrip(WrittenHeader(p), body);
    HeaderAligned(|body|);
    SmallMod(|body|);
  }

  lemma HeaderAligned(n: nat)
    requires n % 4 == 0
    ensures (20 + n) % 4 == 0
  {
  }

  lemma SmallMod(n: nat)
    ensures n < 0x1_0000_0000 ==> n % 0x1_0000_0000 == n
  {
  }
}
