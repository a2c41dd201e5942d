/** The SMUX wire format of RFC 1227 over BER, byte by byte, and what the codec
    (crates/netsnmp-agent/src/smux.rs) has to do with it. */
module SmuxWire {
  import opened Oids
  import opened Values
  import opened Outcomes
  import opened Bytes
  import opened Codecs
  import opened Ber
  import opened Smux

  // ----- Tag, length, content -----

  /** The least number of bytes that hold a length. */
  function LengthBytes(len: nat): nat {
    if len < 0x100 then 1 else if len < 0x1_0000 then 2 else if len < 0x100_0000 then 3 else 4
  }

  /** X.690 section 8.1.3: the short form below 128, else the long form with as few
      bytes as possible, most significant first. */
  function WireTlv(tag: byte, content: seq<byte>): seq<byte> {
    if |content| < 128 then [tag, |content|] + content
    else [tag, 128 + LengthBytes(|content|)] + Digits(|content|, LengthBytes(|content|), true) + content
  }

  lemma LengthDigits(len: nat)
    requires 128 <= len < 0x1_0000_0000
    ensures BerLen(len) == [128 + LengthBytes(len)] + Digits(len, LengthBytes(len), true)
  {
    LengthCount(len);
    MinBytesValue(len);
    SpelledBy(MinBytes(len), len);
    LongLength(len, MinBytes(len), LengthBytes(len));
  }

  lemma LongLength(len: nat, bs: seq<byte>, n: nat)
    requires len >= 128 && bs == MinBytes(len) && |bs| == n <= 4
    ensures BerLen(len) == [128 + n] + bs
  {
  }

  lemma LengthCount(len: nat)
    requires 128 <= len < 0x1_0000_0000
    ensures |MinBytes(len)| == LengthBytes(len)
  {
    Pow256Values();
    assert Pow256(3) == 256 * Pow256(2);
    MinBytesLength(len, 0);
    MinBytesLength(len, 1);
    MinBytesLength(len, 2);
    MinBytesLength(len, 3);
    MinBytesLength(len, 4);
  }

  /** Bytes that have a value are its digits. */
  lemma SpelledBy(bs: seq<byte>, v: nat)
    requires FromBe(bs) == v
    ensures bs == Digits(v, |bs|, true)
  {
    OrderReads(true, bs);
  }

  lemma TlvIs(tag: byte, content: seq<byte>)
    requires |content| < 0x1_0000_0000
    ensures Tlv(tag, content) == WireTlv(tag, content)
  {
    if |content| >= 128 {
      LengthDigits(|content|);
    }
  }

  // ----- Integers -----

  /** n bytes hold v in two's complement. */
  predicate Fits(v: int, n: nat)
    requires n > 0
  {
    -128 * Pow256(n - 1) <= v < 128 * Pow256(n - 1)
  }

  /** X.690 section 8.3: two's complement, most significant byte first, in as few
      bytes as possible. */
  ghost predicate TwosComplement(c: seq<byte>, v: int) {
    && c != [] && Fits(v, |c|) && (|c| > 1 ==> !Fits(v, |c| - 1))
    && v + Pow256(|c|) >= 0 && c == Digits(if v < 0 then v + Pow256(|c|) else v, |c|, true)
  }

  lemma IntegerIs(v: i64)
    ensures TwosComplement(IntContent(v), v) && |IntContent(v)| <= 8
  {
    IntContentSpec(v);
    MinimalForm(IntContent(v), v);
  }

  lemma MinimalForm(c: seq<byte>, v: int)
    requires c != [] && SignedBe(c) == v && Minimal(c)
    ensures TwosComplement(c, v)
  {
    SignedForm(c, v);
    if |c| > 1 {
      MinimalIsLarge(c);
      TooLarge(v, |c| - 1);
    }
  }

  lemma TooLarge(v: int, n: nat)
    requires n > 0 && (2 * v >= Pow256(n) || 2 * v < 0 - Pow256(n))
    ensures !Fits(v, n)
  {
  }

  lemma SignedForm(c: seq<byte>, v: int)
    requires c != [] && SignedBe(c) == v
    ensures Fits(v, |c|) && v + Pow256(|c|) >= 0 && c == Digits(if v < 0 then v + Pow256(|c|) else v, |c|, true)
  {
    SignedRange(c);
    InRange(v, |c|);
    SignedValue(c, v);
    SpelledBy(c, if v < 0 then v + Pow256(|c|) else v);
  }

  lemma InRange(v: int, n: nat)
    requires n > 0 && 0 - Pow256(n) <= 2 * v < Pow256(n)
    ensures Fits(v, n) && v + Pow256(n) >= 0
  {
  }

  lemma SignedValue(c: seq<byte>, v: int)
    requires c != [] && SignedBe(c) == v
    ensures FromBe(c) == if v < 0 then v + Pow256(|c|) else v
  {
    SignedSign(c);
  }

  /** Counters, gauges and ticks fill four bytes, Counter64 eight. */
  lemma UnsignedIs(n: u64)
    ensures UnsignedContent(n, 8) == Digits(n, 8, true)
    ensures n < 0x1_0000_0000 ==> UnsignedContent(n, 4) == Digits(n, 4, true)
  {
    Pow256Values();
    WideValue(n, 8);
    TrimToKeepsValue(BeBytes(n, 8), 8);
    SpelledBy(UnsignedContent(n, 8), n);
    if n < 0x1_0000_0000 {
      TrimToKeepsValue(BeBytes(n, 8), 4);
      TrimmedLength(BeBytes(n, 8), 4);
      SpelledBy(UnsignedContent(n, 4), n);
    }
  }

  lemma {:induction false} TrimmedLength(b: seq<byte>, min: nat)
    requires |b| >= min && FromBe(b) < Pow256(min)
    ensures |TrimTo(b, min)| == min
  {
    if |b| > min {
      LeadByte(b);
      PowMonotone(min, |b| - 1);
      if b[0] != 0 {
        Scale(1, b[0], Pow256(|b| - 1));
        assert false;
      }
      TrimmedLength(b[1..], min);
    }
  }

  // ----- OIDs -----

  /** The number that seven-bit groups spell. */
  function GroupValue(bs: seq<byte>): nat {
    if bs == [] then 0 else 128 * GroupValue(bs[..|bs| - 1]) + bs[|bs| - 1] % 128
  }

  /** X.690 section 8.19: groups of seven bits, the high bit set on all but the
      last, no empty group in front. */
  ghost predicate IsGroups(bs: seq<byte>, v: nat) {
    && bs != [] && GroupValue(bs) == v && bs[|bs| - 1] < 128 && bs[0] != 128
    && forall i :: 0 <= i < |bs| - 1 ==> bs[i] >= 128
  }

  lemma OneMoreGroup(bs: seq<byte>, b: byte, low: nat)
    requires low < 128 && (b == low || b == 128 + low)
    ensures GroupValue(bs + [b]) == 128 * GroupValue(bs) + low
  {
    assert (bs + [b])[..|bs|] == bs;
  }

  /** One group more: the value, and where the high bits are. */
  lemma HighGroupsStep(bs: seq<byte>, high: nat, low: nat)
    requires GroupValue(bs) == high && low < 128 && (bs == [] <==> high == 0) && (bs == [] ==> low > 0)
    requires (forall i :: 0 <= i < |bs| ==> bs[i] >= 128) && (bs != [] ==> bs[0] != 128)
    ensures var r := bs + [128 + low];
      GroupValue(r) == 128 * high + low && r != [] && r[0] != 128 && forall i :: 0 <= i < |r| ==> r[i] >= 128
  {
    OneMoreGroup(bs, 128 + low, low);
  }

  lemma {:induction false} HighGroupsValue(v: nat)
    ensures GroupValue(HighGroups(v)) == v && (forall i :: 0 <= i < |HighGroups(v)| ==> HighGroups(v)[i] >= 128)
    ensures HighGroups(v) == [] <==> v == 0
    ensures v > 0 ==> HighGroups(v)[0] != 128
  {
    if v > 0 {
      HighGroupsValue(v / 128);
      HighGroupsStep(HighGroups(v / 128), v / 128, v % 128);
    }
  }

  lemma GroupsAre(v: nat)
    ensures IsGroups(Base128(v), v)
  {
    HighGroupsValue(v / 128);
    LastGroup(HighGroups(v / 128), v / 128, v % 128);
  }

  lemma LastGroup(bs: seq<byte>, high: nat, low: nat)
    requires GroupValue(bs) == high && low < 128
    requires (forall i :: 0 <= i < |bs| ==> bs[i] >= 128) && (bs != [] ==> bs[0] != 128)
    ensures IsGroups(bs + [low], 128 * high + low)
  {
    OneMoreGroup(bs, low, low);
  }

  /** The numbers an OID goes out as: the first two arcs in one, the others as they
      are; nothing is one zero. */
  function Numbers(o: Oid): seq<u32> {
    if o == [] then [0]
    else
      var first: nat, second: nat := o[0], if |o| >= 2 then o[1] else 0;
      [(40 * first + second) % 0x1_0000_0000] + if |o| >= 2 then o[2..] else []
  }

  /** The groups of every number, one after the other. */
  ghost predicate AreGroups(bs: seq<byte>, numbers: seq<u32>, parts: seq<seq<byte>>) {
    |parts| == |numbers| && bs == Flat(parts) && forall i :: 0 <= i < |parts| ==> IsGroups(parts[i], numbers[i])
  }

  function Flat(parts: seq<seq<byte>>): seq<byte> {
    if parts == [] then [] else parts[0] + Flat(parts[1..])
  }

  lemma {:induction false} ArcsAreGroups(arcs: seq<u32>) returns (parts: seq<seq<byte>>)
    ensures AreGroups(ArcsContent(arcs), arcs, parts)
  {
    parts := [];
    if arcs != [] {
      var more := ArcsAreGroups(arcs[1..]);
      GroupsAre(arcs[0]);
      parts := [Base128(arcs[0])] + more;
      assert parts[1..] == more;
    }
  }

  lemma OidIs(o: Oid) returns (parts: seq<seq<byte>>)
    ensures AreGroups(OidContent(o), Numbers(o), parts)
  {
    parts := ArcsAreGroups(Numbers(o));
    if o == [] {
      assert [0][1..] == [] && ArcsContent([0]) == Base128(0) + ArcsContent([]);
    } else {
      var n := Numbers(o)[0];
      assert ArcsContent(Numbers(o)) == Base128(n) + ArcsContent(Numbers(o)[1..]);
    }
  }

  /** An OID of any bytes: its first octet alone gives two arcs. */
  lemma OidReads(bs: seq<byte>)
    ensures ParseOid(bs)
         == if bs == [] || ParseArcs(bs[1..]).Err? then Err(Truncated)
            else Ok([bs[0] / 40, bs[0] % 40] + ParseArcs(bs[1..]).value)
  {
    if bs != [] {
      ArcsFail(bs[1..]);
    }
  }

  lemma {:induction false} ArcFails(bs: seq<byte>, acc: u32)
    ensures ParseArc(bs, acc).Err? ==> ParseArc(bs, acc) == Err(Truncated)
    decreases |bs|
  {
    if bs != [] && bs[0] >= 128 {
      ArcFails(bs[1..], AddGroup(acc, bs[0]));
    }
  }

  lemma {:induction false} ArcsFail(bs: seq<byte>)
    ensures ParseArcs(bs).Err? ==> ParseArcs(bs) == Err(Truncated)
    decreases |bs|
  {
    if bs != [] {
      ArcFails(bs, 0);
      if ParseArc(bs, 0).Ok? {
        ArcsFail(ParseArc(bs, 0).value.1);
      }
    }
  }

  // ----- Values -----

  /** Tag and content of a value. */
  function WireValue(v: Value): (byte, seq<byte>) {
    match v
    case Integer(i) => (0x02, IntContent(i))
    case OctetString(s) => (0x04, s)
    case Null => (0x05, [])
    case ObjectId(o) => (0x06, OidContent(o))
    case IpAddress(a, b, c, d) => (0x40, [a, b, c, d])
    case Counter32(n) => (0x41, Digits(n, 4, true))
    case Gauge32(n) => (0x42, Digits(n, 4, true))
    case TimeTicks(n) => (0x43, Digits(n, 4, true))
    case Opaque(s) => (0x44, s)
    case Counter64(n) => (0x46, Digits(n, 8, true))
    case NoSuchObject => (0x80, [])
    case NoSuchInstance => (0x81, [])
    case EndOfMibView => (0x82, [])
  }

  lemma ValueIs(v: Value)
    ensures (ValueTag(v), ValueContent(v)) == WireValue(v)
  {
    match v
    case Counter32(n) => UnsignedIs(n);
    case Gauge32(n) => UnsignedIs(n);
    case TimeTicks(n) => UnsignedIs(n);
    case Counter64(n) => UnsignedIs(n);
    case _ =>
  }

  /** A value of any tag and content: unknown tags and addresses of another length
      count as NULL, and only the low 32 or 64 bits of a counter are kept. */
  lemma ValueReads(tag: byte, content: seq<byte>)
    ensures var v := DecodeValueByTag(tag, content);
      && (tag == 0x02 ==> v == Integer(if content == [] then 0 else ShiftIn(content)))
      && (tag == 0x04 ==> v == OctetString(content))
      && (tag == 0x06 ==> v == ObjectId(if ParseOid(content).Ok? then ParseOid(content).value else []))
      && (tag == 0x40 ==> v == if |content| == 4 then IpAddress(content[0], content[1], content[2], content[3]) else Null)
      && (tag == 0x41 ==> v == Counter32(FromBe(content) % 0x1_0000_0000))
      && (tag == 0x42 ==> v == Gauge32(FromBe(content) % 0x1_0000_0000))
      && (tag == 0x43 ==> v == TimeTicks(FromBe(content) % 0x1_0000_0000))
      && (tag == 0x44 ==> v == Opaque(content))
      && (tag == 0x46 ==> v == Counter64(FromBe(content) % 0x1_0000_0000_0000_0000))
      && (tag == 0x80 ==> v == NoSuchObject) && (tag == 0x81 ==> v == NoSuchInstance) && (tag == 0x82 ==> v == EndOfMibView)
      && (tag !in {0x02, 0x04, 0x06, 0x40, 0x41, 0x42, 0x43, 0x44, 0x46, 0x80, 0x81, 0x82} ==> v == Null)
  {
    CountersRead(content);
  }

  lemma CountersRead(content: seq<byte>)
    ensures ParseU32(content) == FromBe(content) % 0x1_0000_0000
    ensures ParseU64(content) == FromBe(content) % 0x1_0000_0000_0000_0000
  {
    var n := FromBe(content);
    FoldIsMod(content, 0x1_0000_0000);
    FoldIsMod(content, 0x1_0000_0000_0000_0000);
    DivModUnique(n % 0x1_0000_0000, 0x1_0000_0000, 0, n % 0x1_0000_0000);
    DivModUnique(n % 0x1_0000_0000_0000_0000, 0x1_0000_0000_0000_0000, 0, n % 0x1_0000_0000_0000_0000);
  }

  // ----- PDUs -----

  /** A SEQUENCE of name and value for every binding. */
  function WireBindings(vbs: seq<VarBind>): seq<byte> {
    if vbs == [] then []
    else
      var (tag, content) := WireValue(vbs[0].value);
      Tlv(0x30, Tlv(0x06, OidContent(vbs[0].oid)) + Tlv(tag, content)) + WireBindings(vbs[1..])
  }

  lemma {:induction false} BindingsAre(vbs: seq<VarBind>)
    ensures ListContent(vbs) == WireBindings(vbs)
  {
    if vbs != [] {
      ValueIs(vbs[0].value);
      BindingsAre(vbs[1..]);
    }
  }

  function WireInteger(v: i64): seq<byte> {
    Tlv(0x02, IntContent(v))
  }

  /** request-id, error-status, error-index, and the bindings in a SEQUENCE. */
  lemma SnmpPduIs(p: SnmpPdu)
    ensures PduContent(p)
         == WireInteger(p.requestId) + (WireInteger(p.errorStatus) + (WireInteger(p.errorIndex) + Tlv(0x30, WireBindings(p.variables))))
  {
    BindingsAre(p.variables);
  }

  /** version, identity, description, password. */
  lemma OpenPduIs(o: OpenPdu)
    ensures OpenContent(o)
         == WireInteger(o.version) + (Tlv(0x06, OidContent(o.identity)) + (Tlv(0x04, o.descriptionOctets) + Tlv(0x04, o.passwordOctets)))
  {
  }

  /** A register request is a Get of one name: the subtree, then priority and
      operation as 32-bit arcs, with a NULL. */
  lemma RegisterPduIs(subtree: Oid, priority: i64, operation: i64)
    ensures var name := subtree + [priority % 0x1_0000_0000, operation % 0x1_0000_0000];
      EncodeRegister(subtree, priority, operation)
        == Tlv(0xA0, WireInteger(0) + (WireInteger(0) + (WireInteger(0)
             + Tlv(0x30, Tlv(0x30, Tlv(0x06, OidContent(name)) + Tlv(0x05, []))))))
  {
    var name := subtree + [priority % 0x1_0000_0000, operation % 0x1_0000_0000];
    SnmpPduIs(GetOf(name));
    OneBindingIs(name);
  }

  lemma OneBindingIs(name: Oid)
    ensures WireBindings([VarBind(name, Null)]) == Tlv(0x30, Tlv(0x06, OidContent(name)) + Tlv(0x05, []))
  {
    assert [VarBind(name, Null)][1..] == [];
    assert WireBindings([]) == [];
  }

  /** The three PDUs that are one integer: 0xA4 closes, 0xA1 answers a
      registration, 0xA5 commits. */
  lemma IntegerPdus(v: i64, rest: seq<byte>)
    ensures DecodeSmux(Tlv(0xA4, WireInteger(v)) + rest) == Ok((Close(v), |Tlv(0xA4, WireInteger(v))|))
    ensures DecodeSmux(Tlv(0xA1, WireInteger(v)) + rest) == Ok((RRsp(v), |Tlv(0xA1, WireInteger(v))|))
    ensures DecodeSmux(Tlv(0xA5, WireInteger(v)) + rest) == Ok((Sout(v), |Tlv(0xA5, WireInteger(v))|))
  {
    TakeIntOf(v, []);
    IntContentSpec(v);
    var c := WireInteger(v);
    assert Int(v) + [] == c;
    IntegerContent(c, v);
    OuterTlv(0xA4, c, rest, Ok(Close(v)));
    OuterTlv(0xA1, c, rest, Ok(RRsp(v)));
    OuterTlv(0xA5, c, rest, Ok(Sout(v)));
  }

  lemma IntegerContent(c: seq<byte>, v: i64)
    requires TakeInt(c) == Ok((v, []))
    ensures DecodeContent(0xA4, c) == Ok(Close(v)) && DecodeContent(0xA1, c) == Ok(RRsp(v)) && DecodeContent(0xA5, c) == Ok(Sout(v))
  {
  }

  /** What each tag can decode to. */
  lemma TagsRead(tag: byte, content: seq<byte>)
    ensures var r := DecodeContent(tag, content);
      r.Ok? ==>
        && (tag == 0xA4 <==> r.value.Close?) && (tag == 0xA1 <==> r.value.RRsp?) && (tag == 0xA5 <==> r.value.Sout?)
        && (r.value.Open? ==> tag == 0xA0) && (tag == 0xA0 ==> r.value.Open? || r.value.Register?)
        && (r.value.Snmp? ==> r.value.pdu.kind == tag % 32 <= 8)
  {
    if SnmpTag(tag) {
      TagReads(tag, content);
      SnmpPath(tag, content, DecodeBare(tag, content));
    }
  }

  lemma TagReads(tag: byte, content: seq<byte>)
    ensures var bare := DecodeBare(tag, content); bare.Ok? ==> bare.value.kind == tag % 32 <= 8
  {
  }
}
