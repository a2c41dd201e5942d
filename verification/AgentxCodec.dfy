/** The AgentX wire codec (crates/netsnmp-agent/src/agentx/protocol.rs): packed
    OIDs, typed data, variable bindings and search ranges, in any byte order.
    Text fields are their UTF-8 bytes. */
module AgentxCodec {
  import opened Oids
  import V = Values
  import opened Outcomes
  import opened Bytes
  import opened Codecs

  type byte = V.byte
  type Option<+T> = V.Option<T>

  type u16 = x: int | 0 <= x < 0x1_0000

  datatype Error = Truncated | UnknownPduType | UnsupportedType

  type Result<+T> = Outcome<T, Error>

  type Decoded<+T> = Result<(T, seq<byte>)>

  // ----- Integers -----

  function TakeU32(bs: seq<byte>, ord: Order): (r: Decoded<u32>)
    ensures r.Ok? <==> 4 <= |bs|
    ensures r.Ok? ==> r.value.1 == bs[4..]
  {
    if |bs| < 4 then Err(Truncated)
    else
      Pow256Values();
      Ok((ord.get(bs[..4]), bs[4..]))
  }

  function TakeU16(bs: seq<byte>, ord: Order): (r: Decoded<u16>)
    ensures r.Ok? <==> 2 <= |bs|
    ensures r.Ok? ==> r.value.1 == bs[2..]
  {
    if |bs| < 2 then Err(Truncated)
    else
      Pow256Values();
      Ok((ord.get(bs[..2]), bs[2..]))
  }

  function TakeU64(bs: seq<byte>, ord: Order): (r: Decoded<V.u64>)
    ensures r.Ok? <==> 8 <= |bs|
    ensures r.Ok? ==> r.value.1 == bs[8..]
  {
    if |bs| < 8 then Err(Truncated)
    else
      Pow256Values();
      Ok((ord.get(bs[..8]), bs[8..]))
  }

  lemma TakeU32Of(v: u32, ord: Order, rest: seq<byte>)
    ensures Gives(TakeU32(ord.put(v, 4) + rest, ord), v, rest)
  {
    Pow256Values();
    Apart(ord.put(v, 4), rest);
  }

  lemma TakeU16Of(v: u16, ord: Order, rest: seq<byte>)
    ensures Gives(TakeU16(ord.put(v, 2) + rest, ord), v, rest)
  {
    Pow256Values();
    Apart(ord.put(v, 2), rest);
  }

  lemma TakeU64Of(v: V.u64, ord: Order, rest: seq<byte>)
    ensures Gives(TakeU64(ord.put(v, 8) + rest, ord), v, rest)
  {
    Pow256Values();
    Apart(ord.put(v, 8), rest);
  }

  // ----- Packed OIDs -----

  /** The OID lies under 1.3.6.1 and is folded into a prefix byte. */
  predicate Prefixed(o: Oid) {
    |o| >= 4 && o[0] == 1 && o[1] == 3 && o[2] == 6 && o[3] == 1
  }

  /** The encoder reads the fifth arc of a prefixed OID, so 1.3.6.1 alone makes
      it index past the end. */
  predicate OidEncodable(o: Oid) {
    Prefixed(o) ==> |o| >= 5
  }

  /** Only 1.3.6.1 itself makes the encoder index past its end. */
  lemma OneOidIsNotEncodable(o: Oid)
    ensures !OidEncodable(o) <==> o == [1, 3, 6, 1]
  {
  }

  function StoredArcs(o: Oid): seq<u32>
    requires OidEncodable(o)
  {
    if Prefixed(o) then o[5..] else o
  }

  function PrefixByte(o: Oid): byte
    requires OidEncodable(o)
  {
    if !Prefixed(o) then 0
    else if o[4] % 256 == 0 then 1 else o[4] % 256
  }

  function ArcBytes(arcs: seq<u32>, ord: Order): (bs: seq<byte>)
    ensures |bs| == 4 * |arcs|
  {
    if arcs == [] then [] else ord.put(arcs[0], 4) + ArcBytes(arcs[1..], ord)
  }

  /** Count, prefix, include, reserved, then one word per stored arc. */
  function OidBytes(o: Oid, inc: byte, ord: Order): (bs: seq<byte>)
    requires OidEncodable(o)
    ensures |bs| == 4 + 4 * |StoredArcs(o)|
  {
    [|StoredArcs(o)| % 256, PrefixByte(o), inc, 0] + ArcBytes(StoredArcs(o), ord)
  }

  /** The encoder's loop over the arcs. */
  method EncodeOid(o: Oid, inc: byte, ord: Order) returns (out: seq<byte>)
    requires OidEncodable(o)
    ensures out == OidBytes(o, inc, ord)
  {
    var arcs := StoredArcs(o);
    out := [|arcs| % 256, PrefixByte(o), inc, 0];
    for i := 0 to |arcs|
      invariant out + ArcBytes(arcs[i..], ord) == OidBytes(o, inc, ord)
    {
      assert arcs[i..][1..] == arcs[i + 1..];
      assert out + (ord.put(arcs[i], 4) + ArcBytes(arcs[i + 1..], ord))
          == out + ord.put(arcs[i], 4) + ArcBytes(arcs[i + 1..], ord);
      out := out + ord.put(arcs[i], 4);
    }
  }

  function ReadArcs(bs: seq<byte>, n: nat, ord: Order): (arcs: seq<u32>)
    requires 4 * n <= |bs|
    ensures |arcs| == n
    decreases n
  {
    if n == 0 then [] else [TakeU32(bs, ord).value.0] + ReadArcs(bs[4..], n - 1, ord)
  }

  function PrefixArcs(prefix: byte): Oid {
    if prefix == 0 then [] else [1, 3, 6, 1, prefix]
  }

  function DecodeOid(bs: seq<byte>, ord: Order): (r: Decoded<Oid>)
    ensures r.Ok? ==> |r.value.1| + 4 <= |bs|
  {
    if |bs| < 4 then Err(Truncated)
    else
      var n: nat := bs[0];
      var body := bs[4..];
      if |body| < 4 * n then Err(Truncated)
      else Ok((PrefixArcs(bs[1]) + ReadArcs(body, n, ord), body[4 * n..]))
  }

  /** The OIDs the packed form can carry: at most 255 stored arcs, and a fifth
      arc of 1 to 255 under 1.3.6.1. */
  predicate Packable(o: Oid) {
    if Prefixed(o) then |o| >= 5 && 1 <= o[4] <= 255 && |o| <= 260 else |o| <= 255
  }

  lemma {:induction false} ReadArcsOf(arcs: seq<u32>, n: nat, rest: seq<byte>, ord: Order)
    requires n <= |arcs|
    ensures ReadArcs(ArcBytes(arcs, ord) + rest, n, ord) == arcs[..n]
    decreases n
  {
    if n > 0 {
      var bs, tail := ArcBytes(arcs, ord) + rest, ArcBytes(arcs[1..], ord) + rest;
      assert bs == ord.put(arcs[0], 4) + tail;
      TakeU32Of(arcs[0], ord, tail);
      ReadArcsOf(arcs[1..], n - 1, rest, ord);
      assert bs[4..] == tail;
      assert arcs[..n] == [arcs[0]] + arcs[1..][..n - 1];
    }
  }

  /** What comes out of an encoded OID: the prefix arcs as stored in one byte, and
      as many arcs as the count byte says. */
  lemma OidComesOutAs(o: Oid, inc: byte, ord: Order, rest: seq<byte>)
    requires OidEncodable(o)
    ensures var arcs := StoredArcs(o);
      var r := DecodeOid(OidBytes(o, inc, ord) + rest, ord);
      r.Ok? && r.value.0 == PrefixArcs(PrefixByte(o)) + arcs[..|arcs| % 256]
      && (|arcs| <= 255 ==> r.value.1 == rest)
  {
    var arcs := StoredArcs(o);
    var bs := OidBytes(o, inc, ord) + rest;
    assert bs[4..] == ArcBytes(arcs, ord) + rest;
    ReadArcsOf(arcs, |arcs| % 256, rest, ord);
    Apart(ArcBytes(arcs, ord), rest);
  }

  /** Decoding an encoded OID gives it and the rest back exactly when it is
      packable; otherwise it gives some other OID. */
  lemma OidRoundTripIff(o: Oid, inc: byte, ord: Order, rest: seq<byte>)
    requires OidEncodable(o)
    ensures var r := DecodeOid(OidBytes(o, inc, ord) + rest, ord);
      if Packable(o) then Gives(r, o, rest) else Misses(r, o)
  {
    OidComesOutAs(o, inc, ord, rest);
    var arcs := StoredArcs(o);
    if |arcs| <= 255 {
      assert arcs[..|arcs|] == arcs;
      if Prefixed(o) {
        assert o == [1, 3, 6, 1, o[4]] + o[5..];
        assert ([1, 3, 6, 1, PrefixByte(o)] + arcs)[4] == PrefixByte(o);
      } else {
        assert [] + arcs == arcs;
      }
    }
  }

  // ----- Padding -----

  function Zeros(n: nat): (bs: seq<byte>)
    ensures |bs| == n
  {
    seq(n, _ => 0)
  }

  function PadLength(n: nat): nat {
    (4 - n % 4) % 4
  }

  /** The encoder pads its whole output buffer. */
  function Pad(out: seq<byte>): (bs: seq<byte>)
    ensures |bs| % 4 == 0
  {
    out + Zeros(PadLength(|out|))
  }

  method PadToFour(start: seq<byte>) returns (out: seq<byte>)
    ensures out == Pad(start)
  {
    out := start;
    ghost var k := 0;
    while |out| % 4 != 0
      invariant k <= PadLength(|start|) && out == start + Zeros(k)
      decreases PadLength(|start|) - k
    {
      out := out + [0];
      k := k + 1;
    }
  }

  /** The decoder skips padding computed from the data alone. */
  function TakePadded(bs: seq<byte>, len: nat): (r: Decoded<seq<byte>>)
    ensures r.Ok? ==> |r.value.1| <= |bs|
  {
    if |bs| < len then Err(Truncated)
    else if |bs| - len < PadLength(len) then Err(Truncated)
    else Ok((bs[..len], bs[len + PadLength(len)..]))
  }

  /** The length word written for some data (`as u32`). */
  function LengthWord(data: seq<byte>, ord: Order): seq<byte> {
    ord.put(|data| % 0x1_0000_0000, 4)
  }

  /** Length word and data, padded on their own. */
  function Counted(data: seq<byte>, ord: Order): seq<byte> {
    LengthWord(data, ord) + data + Zeros(PadLength(|data|))
  }

  lemma CountedAligned(data: seq<byte>, ord: Order)
    ensures |Counted(data, ord)| % 4 == 0
  {
    PadFills(|data|);
  }

  lemma PadFills(n: nat)
    ensures (4 + n + PadLength(n)) % 4 == 0
  {
    assert n == 4 * (n / 4) + n % 4;
    if n % 4 == 0 {
      AlignedSum(4, n);
    } else {
      assert 4 + n + PadLength(n) == 4 * (n / 4 + 2);
    }
  }

  /** On an aligned buffer the encoder's padding is the data's own padding. */
  lemma PadIsLocal(out: seq<byte>, data: seq<byte>, ord: Order)
    requires |out| % 4 == 0
    ensures Pad(out + LengthWord(data, ord) + data) == out + Counted(data, ord)
  {
    assert |LengthWord(data, ord)| == 4;
    assert PadLength(|out + LengthWord(data, ord) + data|) == PadLength(|data|);
  }

  function TakeCounted(bs: seq<byte>, ord: Order): (r: Decoded<seq<byte>>)
    ensures r.Ok? ==> |r.value.1| + 4 <= |bs|
  {
    match TakeU32(bs, ord)
    case Err(e) => Err(e)
    case Ok((len, rest)) => TakePadded(rest, len)
  }

  /** Counted data comes back exactly when its length fits the length word. */
  lemma CountedRoundTripIff(data: seq<byte>, ord: Order, rest: seq<byte>)
    ensures var r := TakeCounted(Counted(data, ord) + rest, ord);
      if |data| < 0x1_0000_0000 then Gives(r, data, rest) else Misses(r, data)
  {
    var tail := data + Zeros(PadLength(|data|)) + rest;
    assert Counted(data, ord) + rest == LengthWord(data, ord) + tail;
    TakeU32Of(|data| % 0x1_0000_0000, ord, tail);
    if |data| < 0x1_0000_0000 {
      assert tail[..|data|] == data;
      assert tail[|data| + PadLength(|data|)..] == rest;
    }
  }

  // ----- Typed data -----

  datatype Data =
    | Integer(i: V.i32)
    | OctetString(octets: seq<byte>)
    | Null
    | ObjectId(oid: Oid)
    | IpAddress(a: byte, b: byte, c: byte, d: byte)
    | Counter32(c32: u32)
    | Gauge32(g32: u32)
    | TimeTicks(ticks: u32)
    | Opaque(bytes: seq<byte>)
    | Counter64(c64: V.u64)

  function Tag(d: Data): u16 {
    match d
    case Integer(_) => 2
    case OctetString(_) => 4
    case Null => 5
    case ObjectId(_) => 6
    case IpAddress(_, _, _, _) => 64
    case Counter32(_) => 65
    case Gauge32(_) => 66
    case TimeTicks(_) => 67
    case Opaque(_) => 68
    case Counter64(_) => 70
  }

  /** A signed word as its two's-complement bit pattern, and back. */
  function Unsigned32(v: V.i32): u32 {
    if v < 0 then v + 0x1_0000_0000 else v
  }

  function Signed32(v: u32): V.i32 {
    if v >= 0x8000_0000 then v - 0x1_0000_0000 else v
  }

  predicate DataEncodable(d: Data) {
    d.ObjectId? ==> OidEncodable(d.oid)
  }

  /** The payload of a fixed-size value. */
  function FixedBytes(d: Data, ord: Order): seq<byte>
    requires DataEncodable(d) && !d.OctetString? && !d.Opaque?
  {
    match d
    case Integer(v) => ord.put(Unsigned32(v), 4)
    case Null => []
    case ObjectId(o) => OidBytes(o, 0, ord)
    case IpAddress(a, b, c, e) => [a, b, c, e]
    case Counter32(v) => ord.put(v, 4)
    case Gauge32(v) => ord.put(v, 4)
    case TimeTicks(v) => ord.put(v, 4)
    case Counter64(v) => ord.put(v, 8)
  }

  function DataHead(d: Data, ord: Order): seq<byte> {
    ord.put(Tag(d), 2) + [0, 0]
  }

  /** The encoder appends type, reserved and payload to its buffer, and pads the
      whole buffer behind a variable-length payload. */
  method EncodeData(start: seq<byte>, d: Data, ord: Order) returns (out: seq<byte>)
    requires DataEncodable(d)
    ensures out == AppendData(start, d, ord)
  {
    out := start + DataHead(d, ord);
    match d
    case OctetString(s) =>
      out := PadToFour(out + LengthWord(s, ord) + s);
    case Opaque(s) =>
      out := PadToFour(out + LengthWord(s, ord) + s);
    case _ =>
      out := out + FixedBytes(d, ord);
  }

  function AppendData(out: seq<byte>, d: Data, ord: Order): seq<byte>
    requires DataEncodable(d)
  {
    var head := out + DataHead(d, ord);
    match d
    case OctetString(s) => Pad(head + LengthWord(s, ord) + s)
    case Opaque(s) => Pad(head + LengthWord(s, ord) + s)
    case _ => head + FixedBytes(d, ord)
  }

  /** The payload on its own, with its own padding. */
  function PayloadBytes(d: Data, ord: Order): seq<byte>
    requires DataEncodable(d)
  {
    match d
    case OctetString(s) => Counted(s, ord)
    case Opaque(s) => Counted(s, ord)
    case _ => FixedBytes(d, ord)
  }

  lemma PayloadAligned(d: Data, ord: Order)
    requires DataEncodable(d)
    ensures |PayloadBytes(d, ord)| % 4 == 0
  {
    match d
    case OctetString(s) => CountedAligned(s, ord);
    case Opaque(s) => CountedAligned(s, ord);
    case ObjectId(o) => assert |OidBytes(o, 0, ord)| == 4 + 4 * |StoredArcs(o)|;
    case _ =>
  }

  /** The alignment invariant: an aligned buffer grows by exactly the value's own
      bytes. */
  lemma DataIsLocal(out: seq<byte>, d: Data, ord: Order)
    requires DataEncodable(d) && |out| % 4 == 0
    ensures AppendData(out, d, ord) == out + (DataHead(d, ord) + PayloadBytes(d, ord))
  {
    var head := out + DataHead(d, ord);
    AlignedSum(|out|, 4);
    if d.OctetString? {
      PadIsLocal(head, d.octets, ord);
    } else if d.Opaque? {
      PadIsLocal(head, d.bytes, ord);
    }
  }

  function DecodeInteger(bs: seq<byte>, ord: Order): (r: Decoded<Data>)
    ensures r.Ok? ==> |r.value.1| <= |bs|
  {
    match TakeU32(bs, ord) case Err(e) => Err(e) case Ok((v, rest)) => Ok((Integer(Signed32(v)), rest))
  }

  /** The three unsigned 32-bit kinds. */
  function DecodeUnsigned(tag: u16, bs: seq<byte>, ord: Order): (r: Decoded<Data>)
    ensures r.Ok? ==> |r.value.1| <= |bs|
  {
    match TakeU32(bs, ord)
    case Err(e) => Err(e)
    case Ok((v, rest)) =>
      Ok((if tag == 65 then Counter32(v) else if tag == 66 then Gauge32(v) else TimeTicks(v), rest))
  }

  function DecodeText(tag: u16, bs: seq<byte>, ord: Order): (r: Decoded<Data>)
    ensures r.Ok? ==> |r.value.1| <= |bs|
  {
    match TakeCounted(bs, ord)
    case Err(e) => Err(e)
    case Ok((s, rest)) => Ok((if tag == 4 then OctetString(s) else Opaque(s), rest))
  }

  function DecodeObjectId(bs: seq<byte>, ord: Order): (r: Decoded<Data>)
    ensures r.Ok? ==> |r.value.1| <= |bs|
  {
    match DecodeOid(bs, ord) case Err(e) => Err(e) case Ok((o, rest)) => Ok((ObjectId(o), rest))
  }

  function DecodeCounter64(bs: seq<byte>, ord: Order): (r: Decoded<Data>)
    ensures r.Ok? ==> |r.value.1| <= |bs|
  {
    match TakeU64(bs, ord) case Err(e) => Err(e) case Ok((v, rest)) => Ok((Counter64(v), rest))
  }

  function DecodeData(tag: u16, bs: seq<byte>, ord: Order): (r: Decoded<Data>)
    ensures r.Ok? ==> |r.value.1| <= |bs|
  {
    if tag == 2 then DecodeInteger(bs, ord)
    else if tag == 4 || tag == 68 then DecodeText(tag, bs, ord)
    else if tag == 5 then Ok((Null, bs))
    else if tag == 6 then DecodeObjectId(bs, ord)
    else if tag == 64 then
      if |bs| < 4 then Err(Truncated) else Ok((IpAddress(bs[0], bs[1], bs[2], bs[3]), bs[4..]))
    else if tag == 65 || tag == 66 || tag == 67 then DecodeUnsigned(tag, bs, ord)
    else if tag == 70 then DecodeCounter64(bs, ord)
    else Err(UnsupportedType)
  }

  /** The values that survive the trip. */
  predicate DataFaithful(d: Data) {
    match d
    case ObjectId(o) => Packable(o)
    case OctetString(s) => |s| < 0x1_0000_0000
    case Opaque(s) => |s| < 0x1_0000_0000
    case _ => true
  }

  lemma WordDataRoundTrip(d: Data, v: u32, ord: Order, rest: seq<byte>)
    requires d == Integer(Signed32(v)) || d == Counter32(v) || d == Gauge32(v) || d == TimeTicks(v)
    ensures Gives(DecodeData(Tag(d), ord.put(v, 4) + rest, ord), d, rest)
  {
    TakeU32Of(v, ord, rest);
  }

  lemma TextDataRoundTripIff(d: Data, s: seq<byte>, ord: Order, rest: seq<byte>)
    requires d == OctetString(s) || d == Opaque(s)
    ensures var r := DecodeData(Tag(d), Counted(s, ord) + rest, ord);
      if |s| < 0x1_0000_0000 then Gives(r, d, rest) else Misses(r, d)
  {
    CountedRoundTripIff(s, ord, rest);
  }

  lemma OidDataRoundTripIff(o: Oid, ord: Order, rest: seq<byte>)
    requires OidEncodable(o)
    ensures var r := DecodeData(6, OidBytes(o, 0, ord) + rest, ord);
      if Packable(o) then Gives(r, ObjectId(o), rest) else Misses(r, ObjectId(o))
  {
    OidRoundTripIff(o, 0, ord, rest);
  }

  lemma OtherDataRoundTrip(d: Data, ord: Order, rest: seq<byte>)
    requires d.Null? || d.IpAddress? || d.Counter64?
    ensures Gives(DecodeData(Tag(d), FixedBytes(d, ord) + rest, ord), d, rest)
  {
    match d
    case Null => assert [] + rest == rest;
    case IpAddress(a, b, c, e) => Apart([a, b, c, e], rest);
    case Counter64(v) => TakeU64Of(v, ord, rest);
  }

  lemma DataRoundTripIff(d: Data, ord: Order, rest: seq<byte>)
    requires DataEncodable(d)
    ensures var r := DecodeData(Tag(d), PayloadBytes(d, ord) + rest, ord);
      if DataFaithful(d) then Gives(r, d, rest) else Misses(r, d)
  {
    match d
    case Integer(v) => WordDataRoundTrip(d, Unsigned32(v), ord, rest);
    case Counter32(v) => WordDataRoundTrip(d, v, ord, rest);
    case Gauge32(v) => WordDataRoundTrip(d, v, ord, rest);
    case TimeTicks(v) => WordDataRoundTrip(d, v, ord, rest);
    case OctetString(s) => TextDataRoundTripIff(d, s, ord, rest);
    case Opaque(s) => TextDataRoundTripIff(d, s, ord, rest);
    case ObjectId(o) => OidDataRoundTripIff(o, ord, rest);
    case _ => OtherDataRoundTrip(d, ord, rest);
  }

  // ----- Variable bindings: data first, then the name -----

  datatype VarBind = VarBind(name: Oid, data: Data)

  predicate VarBindEncodable(vb: VarBind) {
    OidEncodable(vb.name) && DataEncodable(vb.data)
  }

  predicate VarBindFaithful(vb: VarBind) {
    Packable(vb.name) && DataFaithful(vb.data)
  }

  function VarBindBytes(vb: VarBind, ord: Order): seq<byte>
    requires VarBindEncodable(vb)
  {
    DataHead(vb.data, ord) + PayloadBytes(vb.data, ord) + OidBytes(vb.name, 0, ord)
  }

  lemma VarBindAligned(vb: VarBind, ord: Order)
    requires VarBindEncodable(vb)
    ensures |VarBindBytes(vb, ord)| % 4 == 0 && |VarBindBytes(vb, ord)| >= 8
  {
    PayloadAligned(vb.data, ord);
    AlignedSum(|DataHead(vb.data, ord)|, |PayloadBytes(vb.data, ord)|);
    WordsAligned(|StoredArcs(vb.name)|);
    AlignedSum(|DataHead(vb.data, ord) + PayloadBytes(vb.data, ord)|, |OidBytes(vb.name, 0, ord)|);
  }

  function DecodeVarBind(bs: seq<byte>, ord: Order): (r: Decoded<VarBind>)
    ensures r.Ok? ==> |r.value.1| + 8 <= |bs|
  {
    match TakeU16(bs, ord)
    case Err(e) => Err(e)
    case Ok((tag, afterTag)) =>
      if |afterTag| < 2 then Err(Truncated)
      else
        NameBehind(DecodeData(tag, afterTag[2..], ord), ord)
  }

  /** The name is read behind the data. */
  function NameBehind(decoded: Decoded<Data>, ord: Order): (r: Decoded<VarBind>)
    ensures r.Ok? ==> decoded.Ok? && |r.value.1| + 4 <= |decoded.value.1|
  {
    match decoded
    case Err(e) => Err(e)
    case Ok((data, afterData)) =>
      match DecodeOid(afterData, ord)
      case Err(e) => Err(e)
      case Ok((name, rest)) => Ok((VarBind(name, data), rest))
  }

  lemma VarBindSteps(bs: seq<byte>, tag: u16, payload: seq<byte>, ord: Order)
    requires TakeU16(bs, ord) == Ok((tag, [0, 0] + payload))
    ensures DecodeVarBind(bs, ord) == NameBehind(DecodeData(tag, payload, ord), ord)
  {
    assert ([0, 0] + payload)[2..] == payload;
  }

  lemma VarBindLayout(vb: VarBind, ord: Order, rest: seq<byte>)
    requires VarBindEncodable(vb)
    ensures TakeU16(VarBindBytes(vb, ord) + rest, ord)
         == Ok((Tag(vb.data), [0, 0] + (PayloadBytes(vb.data, ord) + (OidBytes(vb.name, 0, ord) + rest))))
  {
    var payload := PayloadBytes(vb.data, ord) + (OidBytes(vb.name, 0, ord) + rest);
    assert VarBindBytes(vb, ord) + rest == ord.put(Tag(vb.data), 2) + ([0, 0] + payload);
    TakeU16Of(Tag(vb.data), ord, [0, 0] + payload);
  }

  lemma NameBehindIff(d: Decoded<Data>, n: Decoded<Oid>, vb: VarBind, tail: seq<byte>, rest: seq<byte>, data: bool, name: bool, ord: Order)
    requires if data then Gives(d, vb.data, tail) else Misses(d, vb.data)
    requires DecodeOid(tail, ord) == n && if name then Gives(n, vb.name, rest) else Misses(n, vb.name)
    ensures if data && name then Gives(NameBehind(d, ord), vb, rest) else Misses(NameBehind(d, ord), vb)
  {
  }

  lemma VarBindRoundTripIff(vb: VarBind, ord: Order, rest: seq<byte>)
    requires VarBindEncodable(vb)
    ensures var r := DecodeVarBind(VarBindBytes(vb, ord) + rest, ord);
      if VarBindFaithful(vb) then Gives(r, vb, rest) else Misses(r, vb)
  {
    var name := OidBytes(vb.name, 0, ord) + rest;
    var payload := PayloadBytes(vb.data, ord) + name;
    VarBindLayout(vb, ord, rest);
    VarBindSteps(VarBindBytes(vb, ord) + rest, Tag(vb.data), payload, ord);
    DataRoundTripIff(vb.data, ord, name);
    OidRoundTripIff(vb.name, 0, ord, rest);
    NameBehindIff(DecodeData(Tag(vb.data), payload, ord), DecodeOid(name, ord), vb, name, rest,
                  DataFaithful(vb.data), Packable(vb.name), ord);
  }
}
