/** The AgentX wire format of RFC 2741 laid out byte by byte, and what the codec
    (crates/netsnmp-agent/src/agentx/protocol.rs) has to do with it: what is
    encoded is that layout, in the byte order the header's flag names, and any
    bytes are read by it. */
module Wire {
  import opened Oids
  import V = Values
  import opened Outcomes
  import opened Bytes
  import opened Codecs
  import opened AgentxCodec
  import opened AgentxPdus

  // ----- The layout -----

  function Word(v: nat, big: bool): seq<byte> {
    Digits(v, 4, big)
  }

  function Half(v: nat, big: bool): seq<byte> {
    Digits(v, 2, big)
  }

  function WireArcs(arcs: seq<u32>, big: bool): seq<byte> {
    if arcs == [] then [] else Word(arcs[0], big) + WireArcs(arcs[1..], big)
  }

  /** Number of words, prefix, include, reserved, the words. Below 1.3.6.1 the
      prefix stands for the first five arcs and is never 0. */
  function WireOid(o: Oid, inc: byte, big: bool): seq<byte> {
    if |o| >= 5 && o[0] == 1 && o[1] == 3 && o[2] == 6 && o[3] == 1
    then [(|o| - 5) % 256, if o[4] % 256 == 0 then 1 else o[4] % 256, inc, 0] + WireArcs(o[5..], big)
    else [|o| % 256, 0, inc, 0] + WireArcs(o, big)
  }

  /** Zeros up to a whole word. */
  function Filler(n: nat): seq<byte> {
    if n % 4 == 0 then [] else if n % 4 == 1 then [0, 0, 0] else if n % 4 == 2 then [0, 0] else [0]
  }

  /** Length, octets, zeros up to a whole word. */
  function WireText(s: seq<byte>, big: bool): seq<byte> {
    Word(|s|, big) + s + Filler(|s|)
  }

  /** Type, reserved, payload. */
  function WireData(d: Data, big: bool): seq<byte> {
    match d
    case Integer(i) => Half(2, big) + [0, 0] + Word(if i < 0 then i + 0x1_0000_0000 else i, big)
    case OctetString(s) => Half(4, big) + [0, 0] + WireText(s, big)
    case Null => Half(5, big) + [0, 0]
    case ObjectId(o) => Half(6, big) + [0, 0] + WireOid(o, 0, big)
    case IpAddress(a, b, c, e) => Half(64, big) + [0, 0] + [a, b, c, e]
    case Counter32(n) => Half(65, big) + [0, 0] + Word(n, big)
    case Gauge32(n) => Half(66, big) + [0, 0] + Word(n, big)
    case TimeTicks(n) => Half(67, big) + [0, 0] + Word(n, big)
    case Opaque(s) => Half(68, big) + [0, 0] + WireText(s, big)
    case Counter64(n) => Half(70, big) + [0, 0] + Digits(n, 8, big)
  }

  /** Type and value, then the name, binding after binding. */
  function WireBindings(vbs: seq<VarBind>, big: bool): seq<byte> {
    if vbs == [] then [] else WireData(vbs[0].data, big) + WireOid(vbs[0].name, 0, big) + WireBindings(vbs[1..], big)
  }

  /** The start, which is included, then the end, range after range. */
  function WireRanges(rs: seq<Range>, big: bool): seq<byte> {
    if rs == [] then [] else WireOid(rs[0].0, 1, big) + WireOid(rs[0].1, 0, big) + WireRanges(rs[1..], big)
  }

  function WireContext(context: Option<seq<byte>>, big: bool): seq<byte> {
    match context case None => [] case Some(c) => WireText(c, big)
  }

  function WireReg(reg: Reg, big: bool): seq<byte> {
    [reg.timeout, reg.priority, reg.rangeSubid, 0] + WireContext(reg.context, big) + WireOid(reg.subtree, 0, big)
      + if reg.rangeSubid == 0 then []
        else if reg.rangeSubid <= |reg.rangeBound| then Word(reg.rangeBound[reg.rangeSubid - 1], big)
        else [0, 0, 0, 0]
  }

  function WireBody(b: Body, big: bool): seq<byte> {
    match b
    case Open(timeout, id, descr) => [timeout, 0, 0, 0] + WireOid(id, 0, big) + WireText(descr, big)
    case Close(OtherReason) => [1, 0, 0, 0]
    case Close(ParseError) => [2, 0, 0, 0]
    case Close(ProtocolError) => [3, 0, 0, 0]
    case Close(Timeout) => [4, 0, 0, 0]
    case Close(Shutdown) => [5, 0, 0, 0]
    case Registration(_, reg) => WireReg(reg, big)
    case Search(_, context, ranges) => WireContext(context, big) + WireRanges(ranges, big)
    case GetBulk(context, nonRepeaters, ranges, maxRepetitions) =>
      Half(nonRepeaters, big) + Half(maxRepetitions, big) + WireContext(context, big) + WireRanges(ranges, big)
    case Binds(_, context, vbs) => WireContext(context, big) + WireBindings(vbs, big)
    case Cleanup => []
    case Ping(context) => WireContext(context, big)
    case Caps(_, context, id, descr) => WireContext(context, big) + WireOid(id, 0, big) + WireText(descr, big)
    case Response(sysUpTime, error, index, vbs) =>
      Word(sysUpTime, big) + Half(error, big) + Half(index, big) + WireBindings(vbs, big)
  }

  /** The PDU type of RFC 2741 section 6.1. */
  function WireType(b: Body): byte {
    match b
    case Open(_, _, _) => 1
    case Close(_) => 2
    case Registration(false, _) => 3
    case Registration(true, _) => 4
    case Search(false, _, _) => 5
    case Search(true, _, _) => 6
    case GetBulk(_, _, _, _) => 7
    case Binds(SetBinds, _, _) => 8
    case Binds(UndoBinds, _, _) => 9
    case Cleanup => 10
    case Binds(NotifyBinds, _, _) => 11
    case Ping(_) => 12
    case Binds(IndexAllocate, _, _) => 13
    case Binds(IndexDeallocate, _, _) => 14
    case Caps(false, _, _, _) => 15
    case Caps(true, _, _, _) => 16
    case Response(_, _, _, _) => 18
  }

  predicate CarriesContext(b: Body) {
    match b
    case Registration(_, reg) => reg.context.Some?
    case Search(_, context, _) => context.Some?
    case GetBulk(context, _, _, _) => context.Some?
    case Binds(_, context, _) => context.Some?
    case Ping(context) => context.Some?
    case Caps(_, context, _, _) => context.Some?
    case _ => false
  }

  /** The flags with bit 0x08 telling of a context. */
  function WireFlags(flags: byte, context: bool): byte {
    flags - 8 * ((flags / 8) % 2) + if context then 8 else 0
  }

  /** The header: version, type, flags, reserved, then session, transaction, packet
      and length, in the order that bit 0x04 of the flags names. */
  function WirePdu(p: Pdu): seq<byte> {
    var h, big := p.header, (p.header.flags / 4) % 2 == 1;
    var body := WireBody(p.body, big);
    [h.version, WireType(p.body), WireFlags(h.flags, CarriesContext(p.body)), 0]
      + (Word(h.sessionId, big) + (Word(h.transactionId, big) + (Word(h.packetId, big) + Word(|body|, big)))) + body
  }

  // ----- What is encoded -----

  lemma WordIs(v: nat, n: nat, big: bool)
    ensures OrderOf(big).put(v, n) == Digits(v, n, big)
  {
    OrderWrites(big, v, n);
  }

  lemma {:induction false} ArcsAre(arcs: seq<u32>, big: bool)
    ensures ArcBytes(arcs, OrderOf(big)) == WireArcs(arcs, big)
  {
    if arcs != [] {
      WordIs(arcs[0], 4, big);
      ArcsAre(arcs[1..], big);
    }
  }

  lemma OidIs(o: Oid, inc: byte, big: bool)
    requires OidEncodable(o)
    ensures OidBytes(o, inc, OrderOf(big)) == WireOid(o, inc, big)
  {
    ArcsAre(StoredArcs(o), big);
  }

  /** Only the low 32 bits of a length are written. */
  lemma WordWraps(n: nat, big: bool)
    ensures Word(n % 0x1_0000_0000, big) == Word(n, big)
  {
    Pow256Values();
    forall k | 0 <= k < 4 ensures Digit(n % 0x1_0000_0000, k) == Digit(n, k) {
      LowDigit(n, 4, k);
    }
  }

  lemma FillerIs(n: nat)
    ensures Zeros(PadLength(n)) == Filler(n) && |Filler(n)| == PadLength(n)
  {
    assert Zeros(0) == [] && Zeros(1) == [0] && Zeros(2) == [0, 0] && Zeros(3) == [0, 0, 0];
  }

  lemma TextIs(s: seq<byte>, big: bool)
    ensures Counted(s, OrderOf(big)) == WireText(s, big)
  {
    LengthIs(s, big);
    FillerIs(|s|);
  }

  lemma LengthIs(s: seq<byte>, big: bool)
    ensures LengthWord(s, OrderOf(big)) == Word(|s|, big)
  {
    WordIs(|s| % 0x1_0000_0000, 4, big);
    WordWraps(|s|, big);
  }

  lemma DataFrom(d: Data, tag: nat, payload: seq<byte>, big: bool)
    requires DataEncodable(d) && tag == Tag(d) && PayloadBytes(d, OrderOf(big)) == payload
    ensures DataHead(d, OrderOf(big)) + PayloadBytes(d, OrderOf(big)) == Half(tag, big) + [0, 0] + payload
  {
    WordIs(tag, 2, big);
  }

  lemma NumberIs(d: Data, tag: nat, v: nat, n: nat, big: bool)
    requires DataEncodable(d) && tag == Tag(d) && PayloadBytes(d, OrderOf(big)) == OrderOf(big).put(v, n)
    ensures DataHead(d, OrderOf(big)) + PayloadBytes(d, OrderOf(big)) == Half(tag, big) + [0, 0] + Digits(v, n, big)
  {
    WordIs(v, n, big);
    DataFrom(d, tag, Digits(v, n, big), big);
  }

  lemma IntegerIs(i: V.i32, big: bool)
    ensures DataHead(Integer(i), OrderOf(big)) + PayloadBytes(Integer(i), OrderOf(big)) == WireData(Integer(i), big)
  {
    NumberIs(Integer(i), 2, Unsigned32(i), 4, big);
  }

  lemma CounterIs(d: Data, n: u32, big: bool)
    requires d == Counter32(n) || d == Gauge32(n) || d == TimeTicks(n)
    ensures DataHead(d, OrderOf(big)) + PayloadBytes(d, OrderOf(big)) == WireData(d, big)
  {
    NumberIs(d, Tag(d), n, 4, big);
  }

  lemma Counter64Is(n: V.u64, big: bool)
    ensures DataHead(Counter64(n), OrderOf(big)) + PayloadBytes(Counter64(n), OrderOf(big)) == WireData(Counter64(n), big)
  {
    NumberIs(Counter64(n), 70, n, 8, big);
  }

  lemma DataIs(d: Data, big: bool)
    requires DataEncodable(d)
    ensures DataHead(d, OrderOf(big)) + PayloadBytes(d, OrderOf(big)) == WireData(d, big)
  {
    match d
    case OctetString(s) =>
      TextIs(s, big);
      DataFrom(d, 4, WireText(s, big), big);
    case Null =>
      DataFrom(d, 5, [], big);
      assert Half(5, big) + [0, 0] + [] == Half(5, big) + [0, 0];
    case ObjectId(o) =>
      OidIs(o, 0, big);
      DataFrom(d, 6, WireOid(o, 0, big), big);
    case IpAddress(a, b, c, e) => DataFrom(d, 64, [a, b, c, e], big);
    case Opaque(s) =>
      TextIs(s, big);
      DataFrom(d, 68, WireText(s, big), big);
    case Integer(i) => IntegerIs(i, big);
    case Counter32(n) => CounterIs(d, n, big);
    case Gauge32(n) => CounterIs(d, n, big);
    case TimeTicks(n) => CounterIs(d, n, big);
    case Counter64(n) => Counter64Is(n, big);
  }

  lemma {:induction false} BindingsAre(vbs: seq<VarBind>, big: bool)
    requires VarBindsEncodable(vbs)
    ensures ListBytes(vbs, VarBindEncoder(OrderOf(big))) == WireBindings(vbs, big)
  {
    if vbs != [] {
      DataIs(vbs[0].data, big);
      OidIs(vbs[0].name, 0, big);
      BindingsAre(vbs[1..], big);
      assert VarBindEncoder(OrderOf(big))(vbs[0]) == WireData(vbs[0].data, big) + WireOid(vbs[0].name, 0, big);
    }
  }

  lemma {:induction false} RangesAre(rs: seq<Range>, big: bool)
    requires RangesEncodable(rs)
    ensures ListBytes(rs, RangeEncoder(OrderOf(big))) == WireRanges(rs, big)
  {
    if rs != [] {
      OidIs(rs[0].0, 1, big);
      OidIs(rs[0].1, 0, big);
      RangesAre(rs[1..], big);
      assert RangeEncoder(OrderOf(big))(rs[0]) == WireOid(rs[0].0, 1, big) + WireOid(rs[0].1, 0, big);
    }
  }

  lemma ContextIs(out: seq<byte>, context: Option<seq<byte>>, big: bool)
    requires |out| % 4 == 0
    ensures AppendContext(out, context, OrderOf(big)) == out + WireContext(context, big)
    ensures |AppendContext(out, context, OrderOf(big))| % 4 == 0
  {
    if context.Some? {
      PadIsLocal(out, context.value, OrderOf(big));
      TextIs(context.value, big);
    }
  }

  lemma IdTextIs(out: seq<byte>, id: Oid, descr: seq<byte>, big: bool)
    requires OidEncodable(id) && |out| % 4 == 0
    ensures AppendIdText(out, id, descr, OrderOf(big)) == out + WireOid(id, 0, big) + WireText(descr, big)
  {
    IdTextIsLocal(out, id, descr, OrderOf(big));
    OidIs(id, 0, big);
    TextIs(descr, big);
    Reassociate(out, WireOid(id, 0, big), WireText(descr, big));
  }

  lemma Reassociate(a: seq<byte>, b: seq<byte>, c: seq<byte>)
    ensures a + (b + c) == a + b + c
  {
  }

  lemma RegIs(reg: Reg, big: bool)
    requires OidEncodable(reg.subtree)
    ensures RegistrationBytes(reg, OrderOf(big)) == WireReg(reg, big)
  {
    ContextIs([reg.timeout, reg.priority, reg.rangeSubid, 0], reg.context, big);
    OidIs(reg.subtree, 0, big);
    WordIs(UpperArc(reg), 4, big);
    ZeroBytes(big);
  }

  lemma ContextThenRanges(out: seq<byte>, context: Option<seq<byte>>, rs: seq<Range>, big: bool)
    requires RangesEncodable(rs) && |out| % 4 == 0
    ensures AppendList(AppendContext(out, context, OrderOf(big)), rs, RangeAppender(OrderOf(big)))
         == out + WireContext(context, big) + WireRanges(rs, big)
  {
    ContextIs(out, context, big);
    RangesAreLocal(AppendContext(out, context, OrderOf(big)), rs, OrderOf(big));
    RangesAre(rs, big);
  }

  lemma ContextThenBindings(out: seq<byte>, context: Option<seq<byte>>, vbs: seq<VarBind>, big: bool)
    requires VarBindsEncodable(vbs) && |out| % 4 == 0
    ensures AppendList(AppendContext(out, context, OrderOf(big)), vbs, VarBindAppender(OrderOf(big)))
         == out + WireContext(context, big) + WireBindings(vbs, big)
  {
    ContextIs(out, context, big);
    VarBindsAreLocal(AppendContext(out, context, OrderOf(big)), vbs, OrderOf(big));
    BindingsAre(vbs, big);
  }

  lemma BulkIs(context: Option<seq<byte>>, nonRepeaters: u16, ranges: seq<Range>, maxRepetitions: u16, big: bool)
    requires RangesEncodable(ranges)
    ensures var b := GetBulk(context, nonRepeaters, ranges, maxRepetitions); EncodedBody(b, OrderOf(big)) == WireBody(b, big)
  {
    WordIs(nonRepeaters, 2, big);
    WordIs(maxRepetitions, 2, big);
    ContextThenRanges(BulkHead(nonRepeaters, maxRepetitions, OrderOf(big)), context, ranges, big);
  }

  lemma CapsAre(context: Option<seq<byte>>, id: Oid, descr: seq<byte>, big: bool)
    requires OidEncodable(id)
    ensures AppendIdText(AppendContext([], context, OrderOf(big)), id, descr, OrderOf(big))
         == WireContext(context, big) + WireOid(id, 0, big) + WireText(descr, big)
  {
    var out := AppendContext([], context, OrderOf(big));
    ContextIs([], context, big);
    assert out == WireContext(context, big);
    IdTextIs(out, id, descr, big);
  }

  lemma ResponseIs(sysUpTime: u32, error: u16, index: u16, vbs: seq<VarBind>, big: bool)
    requires VarBindsEncodable(vbs)
    ensures var b := Response(sysUpTime, error, index, vbs); EncodedBody(b, OrderOf(big)) == WireBody(b, big)
  {
    WordIs(sysUpTime, 4, big);
    WordIs(error, 2, big);
    WordIs(index, 2, big);
    var head := ResponseHead(sysUpTime, error, index, OrderOf(big));
    ContextThenBindings(head, V.None, vbs, big);
    assert head + [] == head;
  }

  lemma ListIs(b: Body, big: bool)
    requires BodyEncodable(b) && (b.Search? || b.Binds? || b.Ping?)
    ensures EncodedBody(b, OrderOf(big)) == WireBody(b, big)
  {
    match b
    case Search(_, context, ranges) =>
      ContextThenRanges([], context, ranges, big);
      assert [] + WireContext(context, big) == WireContext(context, big);
    case Binds(_, context, vbs) =>
      ContextThenBindings([], context, vbs, big);
      assert [] + WireContext(context, big) == WireContext(context, big);
    case Ping(context) =>
      ContextIs([], context, big);
  }

  /** Every body, with or without a context, is laid out so. */
  lemma BodyIs(b: Body, big: bool)
    requires BodyEncodable(b)
    ensures EncodedBody(b, OrderOf(big)) == WireBody(b, big)
  {
    match b
    case Open(timeout, id, descr) => IdTextIs([timeout, 0, 0, 0], id, descr, big);
    case Close(reason) =>
    case Registration(_, reg) => RegIs(reg, big);
    case GetBulk(context, nonRepeaters, ranges, maxRepetitions) => BulkIs(context, nonRepeaters, ranges, maxRepetitions, big);
    case Cleanup =>
    case Caps(_, context, id, descr) => CapsAre(context, id, descr, big);
    case Response(sysUpTime, error, index, vbs) => ResponseIs(sysUpTime, error, index, vbs, big);
    case _ => ListIs(b, big);
  }

  /** The OIDs that a body names. */
  function Names(b: Body): seq<Oid> {
    match b
    case Open(_, id, _) => [id]
    case Registration(_, reg) => [reg.subtree]
    case Search(_, _, ranges) => RangeNames(ranges)
    case GetBulk(_, _, ranges, _) => RangeNames(ranges)
    case Binds(_, _, vbs) => BindingNames(vbs)
    case Caps(_, _, id, _) => [id]
    case Response(_, _, _, vbs) => BindingNames(vbs)
    case _ => []
  }

  function RangeNames(rs: seq<Range>): seq<Oid> {
    if rs == [] then [] else [rs[0].0, rs[0].1] + RangeNames(rs[1..])
  }

  function BindingNames(vbs: seq<VarBind>): seq<Oid> {
    if vbs == [] then []
    else [vbs[0].name] + (if vbs[0].data.ObjectId? then [vbs[0].data.oid] else []) + BindingNames(vbs[1..])
  }

  lemma {:induction false} RangesEncodableIff(rs: seq<Range>)
    ensures RangesEncodable(rs) <==> [1, 3, 6, 1] !in RangeNames(rs)
  {
    if rs != [] {
      RangesEncodableIff(rs[1..]);
      OneOidIsNotEncodable(rs[0].0);
      OneOidIsNotEncodable(rs[0].1);
      assert RangesEncodable(rs) <==> RangeEncodable(rs[0]) && RangesEncodable(rs[1..]);
    }
  }

  lemma {:induction false} BindingsEncodableIff(vbs: seq<VarBind>)
    ensures VarBindsEncodable(vbs) <==> [1, 3, 6, 1] !in BindingNames(vbs)
  {
    if vbs != [] {
      BindingsEncodableIff(vbs[1..]);
      OneOidIsNotEncodable(vbs[0].name);
      if vbs[0].data.ObjectId? {
        OneOidIsNotEncodable(vbs[0].data.oid);
      }
      assert VarBindsEncodable(vbs) <==> VarBindEncodable(vbs[0]) && VarBindsEncodable(vbs[1..]);
    }
  }

  /** Every body can be encoded, but for those that name 1.3.6.1 itself. */
  lemma EncodableIff(b: Body)
    ensures BodyEncodable(b) <==> [1, 3, 6, 1] !in Names(b)
  {
    match b
    case Open(_, id, _) => OneOidIsNotEncodable(id);
    case Registration(_, reg) => OneOidIsNotEncodable(reg.subtree);
    case Search(_, _, ranges) => RangesEncodableIff(ranges);
    case GetBulk(_, _, ranges, _) => RangesEncodableIff(ranges);
    case Binds(_, _, vbs) => BindingsEncodableIff(vbs);
    case Caps(_, _, id, _) => OneOidIsNotEncodable(id);
    case Response(_, _, _, vbs) => BindingsEncodableIff(vbs);
    case _ =>
  }

  lemma TypeIs(b: Body)
    ensures TypeCode(b) == WireType(b) && ContextOf(b).Some? == CarriesContext(b)
  {
  }

  lemma FlagsAre(flags: byte, context: bool)
    ensures WithContextFlag(flags, context) == WireFlags(flags, context)
    ensures (WireFlags(flags, context) / 4) % 2 == (flags / 4) % 2
  {
    ContextFlagKeepsOrder(flags, context);
  }

  lemma HeaderIs(h: Header, big: bool)
    requires big == ((h.flags / 4) % 2 == 1)
    ensures HeaderBytes(h)
         == [h.version, h.pduType, h.flags, 0]
              + (Word(h.sessionId, big) + (Word(h.transactionId, big) + (Word(h.packetId, big) + Word(h.payloadLength, big))))
  {
    WordIs(h.sessionId, 4, big);
    WordIs(h.transactionId, 4, big);
    WordIs(h.packetId, 4, big);
    WordIs(h.payloadLength, 4, big);
  }

  /** What goes out for a PDU, byte for byte. */
  lemma PduIs(p: Pdu)
    requires BodyEncodable(p.body)
    ensures EncodePdu(p) == WirePdu(p)
  {
    var h, big := p.header, (p.header.flags / 4) % 2 == 1;
    BodyIs(p.body, big);
    TypeIs(p.body);
    FlagsAre(h.flags, CarriesContext(p.body));
    WordWraps(|WireBody(p.body, big)|, big);
    HeaderIs(WrittenHeader(p), big);
  }

  // ----- What is read -----

  /** v is the number these bytes spell. */
  predicate Spells(bs: seq<byte>, v: nat, big: bool) {
    v < Pow256(|bs|) && Digits(v, |bs|, big) == bs
  }

  /** A header of any 20 bytes. */
  lemma HeaderReads(bs: seq<byte>)
    ensures |bs| < 20 ==> DecodeHeader(bs) == Err(Truncated)
    ensures |bs| >= 20 ==> DecodeHeader(bs).Ok?
    ensures |bs| >= 20 ==>
      var (h, rest) := DecodeHeader(bs).value;
      var big := (bs[2] / 4) % 2 == 1;
      && rest == bs[20..] && h.version == bs[0] && h.pduType == bs[1] && h.flags == bs[2] && h.timeout == 0
      && Spells(bs[4..8], h.sessionId, big) && Spells(bs[8..12], h.transactionId, big)
      && Spells(bs[12..16], h.packetId, big) && Spells(bs[16..20], h.payloadLength, big)
  {
    if |bs| >= 20 {
      var big := (bs[2] / 4) % 2 == 1;
      assert bs[4..][..4] == bs[4..8] && bs[8..][..4] == bs[8..12] && bs[12..][..4] == bs[12..16] && bs[16..][..4] == bs[16..20];
      OrderReads(big, bs[4..8]);
      OrderReads(big, bs[8..12]);
      OrderReads(big, bs[12..16]);
      OrderReads(big, bs[16..20]);
    }
  }

  /** Numbers in bodies. */
  lemma NumbersRead(bs: seq<byte>, big: bool)
    ensures if |bs| < 2 then TakeU16(bs, OrderOf(big)) == Err(Truncated)
            else TakeU16(bs, OrderOf(big)).Ok? && TakeU16(bs, OrderOf(big)).value.1 == bs[2..]
                 && Spells(bs[..2], TakeU16(bs, OrderOf(big)).value.0, big)
    ensures if |bs| < 8 then TakeU64(bs, OrderOf(big)) == Err(Truncated)
            else TakeU64(bs, OrderOf(big)).Ok? && TakeU64(bs, OrderOf(big)).value.1 == bs[8..]
                 && Spells(bs[..8], TakeU64(bs, OrderOf(big)).value.0, big)
  {
    if |bs| >= 2 {
      OrderReads(big, bs[..2]);
    }
    if |bs| >= 8 {
      OrderReads(big, bs[..8]);
    }
  }

  lemma WordReads(bs: seq<byte>, big: bool)
    ensures if |bs| < 4 then TakeU32(bs, OrderOf(big)) == Err(Truncated)
            else TakeU32(bs, OrderOf(big)).Ok? && TakeU32(bs, OrderOf(big)).value.1 == bs[4..]
                 && Spells(bs[..4], TakeU32(bs, OrderOf(big)).value.0, big)
  {
    if |bs| >= 4 {
      OrderReads(big, bs[..4]);
    }
  }

  /** Word i of some bytes. */
  function WordSlice(bs: seq<byte>, i: nat): seq<byte>
    requires 4 * i + 4 <= |bs|
  {
    bs[4 * i..4 * i + 4]
  }

  lemma LaterWord(bs: seq<byte>, i: nat)
    requires 4 * i + 8 <= |bs|
    ensures WordSlice(bs[4..], i) == WordSlice(bs, i + 1)
  {
  }

  lemma FirstWordReads(bs: seq<byte>, big: bool)
    requires |bs| >= 4
    ensures Spells(WordSlice(bs, 0), TakeU32(bs, OrderOf(big)).value.0, big)
  {
    WordReads(bs, big);
    assert WordSlice(bs, 0) == bs[..4];
  }

  lemma {:induction false} ArcRead(bs: seq<byte>, n: nat, i: nat, big: bool)
    requires 4 * n <= |bs| && i < n
    ensures Spells(WordSlice(bs, i), ReadArcs(bs, n, OrderOf(big))[i], big)
    decreases n
  {
    if i > 0 {
      ArcRead(bs[4..], n - 1, i - 1, big);
      LaterWord(bs, i - 1);
    } else {
      FirstWordReads(bs, big);
    }
  }

  lemma ArcsRead(bs: seq<byte>, n: nat, big: bool)
    requires 4 + 4 * n <= |bs|
    ensures forall i :: 0 <= i < n ==> Spells(WordSlice(bs, i + 1), ReadArcs(bs[4..], n, OrderOf(big))[i], big)
  {
    forall i | 0 <= i < n ensures Spells(WordSlice(bs, i + 1), ReadArcs(bs[4..], n, OrderOf(big))[i], big) {
      ArcRead(bs[4..], n, i, big);
      LaterWord(bs, i);
    }
  }

  /** An OID of any bytes: refused when the words announced are not there; else
      the five arcs of a prefix that is not 0, and the words. */
  lemma OidReads(bs: seq<byte>, big: bool) returns (n: nat, words: seq<u32>)
    ensures bs != [] ==> n == bs[0]
    ensures if |bs| < 4 || |bs| < 4 + 4 * n then DecodeOid(bs, OrderOf(big)) == Err(Truncated)
            else
              && |words| == n && (forall i :: 0 <= i < n ==> Spells(WordSlice(bs, i + 1), words[i], big))
              && DecodeOid(bs, OrderOf(big)) == Ok((if bs[1] == 0 then words else [1, 3, 6, 1, bs[1]] + words, bs[4 + 4 * n..]))
  {
    n, words := if bs == [] then 0 else bs[0], [];
    if |bs| >= 4 && |bs| >= 4 + 4 * n {
      words := ReadArcs(bs[4..], n, OrderOf(big));
      ArcsRead(bs, n, big);
      OidPieces(bs, n, words, big);
    }
  }

  lemma OidPieces(bs: seq<byte>, n: nat, words: seq<u32>, big: bool)
    requires |bs| >= 4 && n == bs[0] && |bs| >= 4 + 4 * n && words == ReadArcs(bs[4..], n, OrderOf(big))
    ensures DecodeOid(bs, OrderOf(big)) == Ok((if bs[1] == 0 then words else [1, 3, 6, 1, bs[1]] + words, bs[4 + 4 * n..]))
  {
    assert [] + words == words;
    assert bs[4..][4 * n..] == bs[4 + 4 * n..];
  }

  /** Counted octets of any bytes, with their padding. */
  lemma TextReads(bs: seq<byte>, big: bool) returns (n: nat)
    ensures |bs| < 4 ==> TakeCounted(bs, OrderOf(big)) == Err(Truncated)
    ensures |bs| >= 4 ==> Spells(bs[..4], n, big)
    ensures |bs| >= 4 ==>
      TakeCounted(bs, OrderOf(big))
        == if |bs| < 4 + n + |Filler(n)| then Err(Truncated) else Ok((bs[4..4 + n], bs[4 + n + |Filler(n)|..]))
  {
    WordReads(bs, big);
    n := 0;
    if |bs| >= 4 {
      n := TakeU32(bs, OrderOf(big)).value.0;
      CountedReads(bs, n, OrderOf(big));
      PaddedReads(bs, n);
    }
  }

  lemma CountedReads(bs: seq<byte>, n: u32, ord: Order)
    requires |bs| >= 4 && TakeU32(bs, ord) == Ok((n, bs[4..]))
    ensures TakeCounted(bs, ord) == TakePadded(bs[4..], n)
  {
  }

  lemma PaddedReads(bs: seq<byte>, n: nat)
    requires |bs| >= 4
    ensures TakePadded(bs[4..], n)
         == if |bs| < 4 + n + |Filler(n)| then Err(Truncated) else Ok((bs[4..4 + n], bs[4 + n + |Filler(n)|..]))
  {
    FillerIs(n);
    if |bs| >= 4 + n + |Filler(n)| {
      assert bs[4..][..n] == bs[4..4 + n];
      assert bs[4..][n + |Filler(n)|..] == bs[4 + n + |Filler(n)|..];
    }
  }

  /** Which kind of value each type number stands for; all others are refused as
      unsupported. */
  lemma TypesRead(tag: u16, bs: seq<byte>, big: bool)
    ensures var r := DecodeData(tag, bs, OrderOf(big));
      && (r == Err(UnsupportedType) <==> tag !in {2, 4, 5, 6, 64, 65, 66, 67, 68, 70})
      && (r.Ok? ==>
            var d := r.value.0;
            && (tag == 2 <==> d.Integer?) && (tag == 4 <==> d.OctetString?) && (tag == 5 <==> d.Null?) && (tag == 6 <==> d.ObjectId?)
            && (tag == 64 <==> d.IpAddress?) && (tag == 65 <==> d.Counter32?) && (tag == 66 <==> d.Gauge32?)
            && (tag == 67 <==> d.TimeTicks?) && (tag == 68 <==> d.Opaque?) && (tag == 70 <==> d.Counter64?))
  {
  }

  lemma RangesFailAs(bs: seq<byte>, big: bool)
    ensures DecodeRanges(bs, OrderOf(big)) != Err(UnknownPduType)
  {
    ListErrors(bs, RangeDecoder(OrderOf(big)), UnknownPduType);
  }

  lemma BindingsFailAs(bs: seq<byte>, big: bool)
    ensures DecodeVarBinds(bs, OrderOf(big)) != Err(UnknownPduType)
  {
    ListErrors(bs, VarBindDecoder(OrderOf(big)), UnknownPduType);
  }

  /** A body that was read, of this type. */
  predicate ReadAs(r: Result<Body>, code: byte) {
    if r.Ok? then WireType(r.value) == code else r.error != UnknownPduType
  }

  lemma OpenKind(bs: seq<byte>, big: bool)
    ensures ReadAs(DecodeOpen(bs, OrderOf(big)), 1)
  {
  }

  lemma RegistrationKind(bs: seq<byte>, big: bool, remove: bool)
    ensures ReadAs(DecodeRegistration(remove, bs, OrderOf(big)), if remove then 4 else 3)
  {
  }

  lemma CapsKind(bs: seq<byte>, big: bool, remove: bool)
    ensures ReadAs(DecodeCaps(remove, bs, OrderOf(big)), if remove then 16 else 15)
  {
  }

  lemma SearchKind(bs: seq<byte>, big: bool)
    ensures ReadAs(DecodeSearch(bs, OrderOf(big)), 5)
  {
    RangesFailAs(bs, big);
  }

  lemma BindsKind(kind: BindKind, bs: seq<byte>, big: bool)
    ensures ReadAs(DecodeBinds(kind, bs, OrderOf(big)), WireType(Binds(kind, V.None, [])))
  {
    BindingsFailAs(bs, big);
  }

  lemma BulkFront(bs: seq<byte>, ord: Order) returns (list: seq<byte>)
    ensures DecodeBulk(bs, ord) == Err(Truncated)
      || if DecodeRanges(list, ord).Err? then DecodeBulk(bs, ord) == Err(DecodeRanges(list, ord).error)
         else DecodeBulk(bs, ord).Ok? && DecodeBulk(bs, ord).value.GetBulk?
  {
    list := if |bs| < 4 then [] else bs[2..][2..];
  }

  lemma BulkKind(bs: seq<byte>, big: bool)
    ensures ReadAs(DecodeBulk(bs, OrderOf(big)), 7)
  {
    var list := BulkFront(bs, OrderOf(big));
    RangesFailAs(list, big);
  }

  lemma ResponseFront(bs: seq<byte>, ord: Order) returns (list: seq<byte>)
    ensures DecodeResponse(bs, ord) == Err(Truncated)
      || if DecodeVarBinds(list, ord).Err? then DecodeResponse(bs, ord) == Err(DecodeVarBinds(list, ord).error)
         else DecodeResponse(bs, ord).Ok? && DecodeResponse(bs, ord).value.Response?
  {
    list := if |bs| < 8 then [] else bs[4..][2..][2..];
  }

  lemma ResponseKind(bs: seq<byte>, big: bool)
    ensures ReadAs(DecodeResponse(bs, OrderOf(big)), 18)
  {
    var list := ResponseFront(bs, OrderOf(big));
    BindingsFailAs(list, big);
  }

  /** Which body each PDU type gives, a GetNext coming out as a Get; all other
      types are refused as unknown. */
  lemma KindsRead(code: byte, bs: seq<byte>, big: bool)
    ensures var r := DecodeBody(code, bs, OrderOf(big));
      if code == 0 || code == 17 || code > 18 then r == Err(UnknownPduType) else ReadAs(r, if code == 6 then 5 else code)
  {
    if code == 1 {
      OpenKind(bs, big);
    } else if code == 3 || code == 4 {
      RegistrationKind(bs, big, code == 4);
    } else if code == 5 || code == 6 {
      SearchKind(bs, big);
    } else if code == 7 {
      BulkKind(bs, big);
    } else if code == 15 || code == 16 {
      CapsKind(bs, big, code == 16);
    } else if code == 18 {
      ResponseKind(bs, big);
    } else {
      ForKind(code, bs, big);
    }
  }

  lemma ForKind(code: byte, bs: seq<byte>, big: bool)
    requires code !in {1, 3, 4, 5, 6, 7, 15, 16, 18}
    ensures var r := DecodeBody(code, bs, OrderOf(big));
      if code == 0 || code == 17 || code > 18 then r == Err(UnknownPduType) else ReadAs(r, code)
  {
    var kind := if code == 8 then SetBinds else if code == 9 then UndoBinds else if code == 11 then NotifyBinds
                else if code == 13 then IndexAllocate else IndexDeallocate;
    BindsKind(kind, bs, big);
    BindsDispatch(kind, bs, OrderOf(big));
  }

  /** A Close names its reason in the first byte; an unknown one counts as other. */
  lemma CloseReads(bs: seq<byte>, big: bool)
    ensures DecodeBody(2, bs, OrderOf(big))
         == if |bs| < 4 then Err(Truncated)
            else Ok(Close(if bs[0] == 2 then ParseError else if bs[0] == 3 then ProtocolError else if bs[0] == 4 then Timeout
                          else if bs[0] == 5 then Shutdown else OtherReason))
  {
  }
}
