/** The hand-written BER helpers of the SMUX layer
    (crates/netsnmp-agent/src/smux.rs): lengths, TLVs, integers and OIDs. */
module Ber {
  import opened Oids
  import opened Values
  import opened Outcomes
  import opened Bytes
  import opened Codecs

  datatype SmuxError = Truncated | UnknownTag

  type Result<+T> = Outcome<T, SmuxError>

  // ----- Lengths -----

  /** Big-endian bytes without leading zeros. */
  function MinBytes(n: nat): seq<byte> {
    if n == 0 then [] else MinBytes(n / 256) + [n % 256]
  }

  lemma {:induction false} MinBytesValue(n: nat)
    ensures FromBe(MinBytes(n)) == n
  {
    if n > 0 {
      MinBytesValue(n / 256);
      assert MinBytes(n)[..|MinBytes(n)| - 1] == MinBytes(n / 256);
    }
  }

  lemma {:induction false} MinBytesLength(n: nat, k: nat)
    ensures |MinBytes(n)| <= k <==> n < Pow256(k)
    decreases k
  {
    if n > 0 && k > 0 {
      MinBytesLength(n / 256, k - 1);
      assert n / 256 < Pow256(k - 1) <==> n < 256 * Pow256(k - 1);
    }
  }

  /** Short form below 128, else the number of length bytes and the bytes. */
  function BerLen(n: nat): seq<byte> {
    if n < 128 then [n] else [128 + |MinBytes(n)| % 128] + MinBytes(n)
  }

  method RunBerLen(n: nat) returns (out: seq<byte>)
    ensures out == BerLen(n)
  {
    if n < 128 {
      return [n];
    }
    var bytes: seq<byte>, v: nat := [], n;
    while v > 0
      invariant MinBytes(v) + bytes == MinBytes(n)
    {
      assert MinBytes(v / 256) + ([v % 256] + bytes) == MinBytes(v / 256) + [v % 256] + bytes;
      bytes := [v % 256] + bytes;
      v := v / 256;
    }
    assert [] + bytes == bytes;
    out := [128 + |bytes| % 128] + bytes;
  }

  /** The length and how many bytes encode it; at most four length bytes. */
  function ParseLen(buf: seq<byte>): (r: Result<(nat, nat)>)
    ensures r.Ok? ==> 1 <= r.value.1 <= |buf|
  {
    if buf == [] then Err(Truncated)
    else if buf[0] < 128 then Ok((buf[0], 1))
    else
      var n := buf[0] - 128;
      if n == 0 || n > 4 || 1 + n > |buf| then Err(Truncated)
      else Ok((FromBe(buf[1..1 + n]), 1 + n))
  }

  /** A length below 2^32 comes back; one that needs five to eight bytes is
      refused. */
  lemma LenRoundTripIff(n: nat, rest: seq<byte>)
    requires n < 0x1_0000_0000_0000_0000
    ensures ParseLen(BerLen(n) + rest) == if n < 0x1_0000_0000 then Ok((n, |BerLen(n)|)) else Err(Truncated)
  {
    if n >= 128 {
      FewBytes(n);
      LongForm(MinBytes(n), rest);
    }
  }

  lemma FewBytes(n: nat)
    requires 0 < n < 0x1_0000_0000_0000_0000
    ensures 0 < |MinBytes(n)| <= 8 && FromBe(MinBytes(n)) == n
    ensures |MinBytes(n)| <= 4 <==> n < 0x1_0000_0000
  {
    Pow256Values();
    MinBytesLength(n, 8);
    MinBytesLength(n, 4);
    MinBytesValue(n);
  }

  lemma {:induction false} LongForm(bytes: seq<byte>, rest: seq<byte>)
    requires 0 < |bytes| <= 8
    ensures ParseLen([128 + |bytes| % 128] + bytes + rest)
         == if |bytes| <= 4 then Ok((FromBe(bytes), 1 + |bytes|)) else Err(Truncated)
  {
    var buf := [128 + |bytes| % 128] + bytes + rest;
    assert buf[0] == 128 + |bytes|;
    assert buf[1..1 + |bytes|] == bytes;
  }

  // ----- TLVs -----

  function Tlv(tag: byte, content: seq<byte>): seq<byte> {
    [tag] + BerLen(|content|) + content
  }

  /** Tag, content, and the bytes behind the TLV. */
  function ParseTlv(buf: seq<byte>): (r: Result<(byte, seq<byte>, seq<byte>)>)
    ensures r.Ok? ==> |r.value.1| + |r.value.2| + 2 <= |buf|
  {
    if |buf| < 2 then Err(Truncated)
    else
      match ParseLen(buf[1..])
      case Err(e) => Err(e)
      case Ok((len, used)) =>
        if 1 + used + len > |buf| then Err(Truncated)
        else Ok((buf[0], buf[1 + used..1 + used + len], buf[1 + used + len..]))
  }

  /** A TLV parses back, leaving what follows, as long as its content is shorter
      than 2^32 bytes. */
  lemma TlvRoundTrip(tag: byte, content: seq<byte>, rest: seq<byte>)
    requires |content| < 0x1_0000_0000
    ensures ParseTlv(Tlv(tag, content) + rest) == Ok((tag, content, rest))
  {
    var buf := Tlv(tag, content) + rest;
    var len := BerLen(|content|);
    assert buf[1..] == len + (content + rest);
    LenRoundTripIff(|content|, content + rest);
    assert buf[1 + |len|..1 + |len| + |content|] == content;
    assert buf[1 + |len| + |content|..] == rest;
  }

  // ----- Integers -----

  /** The two's-complement value of big-endian bytes. */
  function SignedBe(bs: seq<byte>): int
    requires bs != []
  {
    FromBe(bs) - (if bs[0] >= 128 then Pow256(|bs|) else 0)
  }

  function Wrap64(v: int): i64 {
    (v + 0x8000_0000_0000_0000) % 0x1_0000_0000_0000_0000 - 0x8000_0000_0000_0000
  }

  function SignByte(b: byte): i64 {
    var x: int := b;
    if x >= 128 then x - 256 else x
  }

  function Shift(v: int, b: int): i64 {
    Wrap64(256 * v + b)
  }

  /** The parser: sign-extend the first byte, then shift the others in. */
  function ShiftIn(bs: seq<byte>): i64
    requires bs != []
  {
    if |bs| == 1 then SignByte(bs[0])
    else Shift(ShiftIn(bs[..|bs| - 1]), bs[|bs| - 1])
  }

  method ParseInteger(buf: seq<byte>) returns (r: Result<i64>)
    ensures r == if buf == [] then Err(Truncated) else Ok(ShiftIn(buf))
  {
    if buf == [] {
      return Err(Truncated);
    }
    var v := SignByte(buf[0]);
    for i := 1 to |buf|
      invariant v == ShiftIn(buf[..i])
    {
      assert buf[..i + 1][..i] == buf[..i];
      v := Shift(v, buf[i]);
    }
    assert buf[..|buf|] == buf;
    r := Ok(v);
  }

  lemma {:induction false} LeadByte(bs: seq<byte>)
    requires bs != []
    ensures FromBe(bs) == bs[0] * Pow256(|bs| - 1) + FromBe(bs[1..])
    ensures FromBe(bs[1..]) < Pow256(|bs| - 1)
  {
    BeBound(bs[1..]);
    if |bs| > 1 {
      var n := |bs| - 1;
      LeadByte(bs[..n]);
      assert bs[..n][1..] == bs[1..][..n - 1];
      assert bs[1..][n - 1] == bs[n];
      assert 256 * (bs[0] * Pow256(n - 1)) == bs[0] * (256 * Pow256(n - 1));
    }
  }

  /** n bytes hold -256^n/2 up to 256^n/2 - 1. */
  lemma SignedRange(bs: seq<byte>)
    requires bs != []
    ensures 0 - Pow256(|bs|) <= 2 * SignedBe(bs) < Pow256(|bs|)
  {
    LeadByte(bs);
    LeadBounds(bs[0], Pow256(|bs| - 1), FromBe(bs[1..]));
  }

  lemma Scale(x: int, y: int, p: int)
    requires x <= y && p >= 0
    ensures x * p <= y * p
  {
  }

  /** Where lead * p + t lies between the multiples of p. */
  lemma LeadBounds(lead: int, p: int, t: int)
    requires 0 <= lead < 256 && p > 0 && 0 <= t < p
    ensures lead >= 128 ==> 128 * p <= lead * p + t < 256 * p
    ensures lead < 128 ==> 0 <= lead * p + t < 128 * p
    ensures 0 < lead < 128 ==> p <= lead * p + t
    ensures 128 <= lead < 255 ==> lead * p + t < 255 * p
  {
    if lead >= 128 {
      Scale(128, lead, p);
      Scale(lead, 255, p);
      if lead < 255 {
        Scale(lead, 254, p);
      }
    } else {
      Scale(0, lead, p);
      Scale(lead, 127, p);
      if lead > 0 {
        Scale(1, lead, p);
      }
    }
  }

  lemma WrapInRange(v: int)
    requires -0x8000_0000_0000_0000 <= v < 0x8000_0000_0000_0000
    ensures Wrap64(v) == v
  {
    DivModUnique(v + 0x8000_0000_0000_0000, 0x1_0000_0000_0000_0000, 0, v + 0x8000_0000_0000_0000);
  }

  /** Eight bytes never leave the 64-bit range. */
  lemma SignedFits(bs: seq<byte>)
    requires 1 <= |bs| <= 8
    ensures -0x8000_0000_0000_0000 <= SignedBe(bs) < 0x8000_0000_0000_0000
  {
    SignedRange(bs);
    PowMonotone(|bs|, 8);
    Pow256Values();
  }

  lemma SignedStep(bs: seq<byte>)
    requires |bs| > 1
    ensures SignedBe(bs) == 256 * SignedBe(bs[..|bs| - 1]) + bs[|bs| - 1]
  {
    var init := bs[..|bs| - 1];
    assert init[0] == bs[0] && FromBe(bs) == 256 * FromBe(init) + bs[|bs| - 1];
    assert Pow256(|bs|) == 256 * Pow256(|init|);
  }

  lemma {:induction false} ShiftInIsSigned(bs: seq<byte>)
    requires 1 <= |bs| <= 8
    ensures ShiftIn(bs) == SignedBe(bs)
  {
    if |bs| == 1 {
      assert FromBe(bs[..0]) == 0 && FromBe(bs) == 256 * FromBe(bs[..0]) + bs[0];
      assert Pow256(1) == 256 * Pow256(0);
    } else {
      ShiftInIsSigned(bs[..|bs| - 1]);
      SignedStep(bs);
      SignedFits(bs);
      WrapInRange(SignedBe(bs));
    }
  }

  lemma {:induction false} PowMonotone(a: nat, b: nat)
    requires a <= b
    ensures Pow256(a) <= Pow256(b)
    decreases b
  {
    if a < b {
      PowMonotone(a, b - 1);
    }
  }

  /** Drop leading zero bytes that do not carry the sign. */
  function TrimZeros(b: seq<byte>): (r: seq<byte>)
    ensures b != [] ==> r != []
  {
    if |b| > 1 && b[0] == 0 && b[1] < 128 then TrimZeros(b[1..]) else b
  }

  /** Drop leading 0xff bytes that do not carry the sign. */
  function TrimOnes(b: seq<byte>): (r: seq<byte>)
    ensures b != [] ==> r != []
  {
    if |b| > 1 && b[0] == 255 && b[1] >= 128 then TrimOnes(b[1..]) else b
  }

  /** `to_be_bytes` of a signed 64-bit integer. */
  function EightBytes(v: i64): seq<byte> {
    BeBytes(if v < 0 then v + 0x1_0000_0000_0000_0000 else v, 8)
  }

  /** The content octets of an INTEGER. */
  function IntContent(v: i64): (c: seq<byte>)
    ensures c != []
  {
    if v >= 0 then
      var b := TrimZeros(EightBytes(v));
      if b[0] >= 128 then [0] + b else b
    else TrimOnes(EightBytes(v))
  }

  /** The trimming loops. */
  method RunIntContent(v: i64) returns (b: seq<byte>)
    ensures b == IntContent(v)
  {
    b := EightBytes(v);
    if v >= 0 {
      while |b| > 1 && b[0] == 0 && b[1] < 128
        invariant b != [] && TrimZeros(b) == TrimZeros(EightBytes(v))
        decreases |b|
      {
        b := b[1..];
      }
      if b[0] >= 128 {
        b := [0] + b;
      }
    } else {
      while |b| > 1 && b[0] == 255 && b[1] >= 128
        invariant b != [] && TrimOnes(b) == TrimOnes(EightBytes(v))
        decreases |b|
      {
        b := b[1..];
      }
    }
  }

  lemma EightBytesValue(v: i64)
    ensures SignedBe(EightBytes(v)) == v
  {
    var u := if v < 0 then v + 0x1_0000_0000_0000_0000 else v;
    Pow256Values();
    WideValue(u, 8);
    LeadingBit(EightBytes(v), v);
  }

  /** The first byte tells the sign. */
  lemma LeadingBit(b: seq<byte>, v: i64)
    requires |b| == 8 && FromBe(b) == if v < 0 then v + 0x1_0000_0000_0000_0000 else v
    ensures SignedBe(b) == v
  {
    Pow256Values();
    LeadByte(b);
    LeadBounds(b[0], Pow256(7), FromBe(b[1..]));
    assert Pow256(8) == 256 * Pow256(7);
  }

  /** No shorter content has the same first nine bits. */
  predicate Minimal(b: seq<byte>) {
    |b| == 1 || (|b| > 1 && !(b[0] == 0 && b[1] < 128) && !(b[0] == 255 && b[1] >= 128))
  }

  lemma {:induction false} TrimZerosKeepsValue(b: seq<byte>)
    requires b != [] && b[0] < 128
    ensures var r := TrimZeros(b);
      |r| <= |b| && SignedBe(r) == SignedBe(b) && Minimal(r) && r[0] < 128
  {
    if |b| > 1 && b[0] == 0 && b[1] < 128 {
      LeadByte(b);
      TrimZerosKeepsValue(b[1..]);
    }
  }

  lemma {:induction false} TrimOnesKeepsValue(b: seq<byte>)
    requires b != [] && b[0] >= 128
    ensures var r := TrimOnes(b);
      |r| <= |b| && SignedBe(r) == SignedBe(b) && Minimal(r) && r[0] >= 128
  {
    if |b| > 1 && b[0] == 255 && b[1] >= 128 {
      LeadByte(b);
      TrimOnesKeepsValue(b[1..]);
    }
  }

  /** Every 64-bit integer gets the two's-complement form of its value, in a
      minimal form of at most eight bytes; the sign-padding branch is never
      taken. */
  lemma IntContentSpec(v: i64)
    ensures var c := IntContent(v);
      && |c| <= 8 && SignedBe(c) == v && Minimal(c)
      && (v >= 0 ==> c == TrimZeros(EightBytes(v)))
      && ShiftIn(c) == v
  {
    var b := EightBytes(v);
    EightBytesValue(v);
    SignedSign(b);
    if v >= 0 {
      TrimZerosKeepsValue(b);
    } else {
      TrimOnesKeepsValue(b);
    }
    ShiftInIsSigned(IntContent(v));
  }

  lemma SignedSign(b: seq<byte>)
    requires b != []
    ensures SignedBe(b) < 0 <==> b[0] >= 128
  {
    BeBound(b);
  }

  /** A minimal form is a shortest one. */
  lemma MinimalIsShortest(a: seq<byte>, b: seq<byte>)
    requires a != [] && b != [] && Minimal(a) && SignedBe(a) == SignedBe(b)
    ensures |a| <= |b|
  {
    if |b| < |a| {
      SignedRange(b);
      PowMonotone(|b|, |a| - 1);
      MinimalIsLarge(a);
    }
  }

  lemma MinimalIsLarge(a: seq<byte>)
    requires |a| > 1 && Minimal(a)
    ensures 2 * SignedBe(a) >= Pow256(|a| - 1) || 2 * SignedBe(a) < 0 - Pow256(|a| - 1)
  {
    LeadByte(a);
    LeadByte(a[1..]);
    var q := Pow256(|a| - 2);
    assert Pow256(|a| - 1) == 256 * q && Pow256(|a|) == 256 * (256 * q);
    LeadBounds(a[0], 256 * q, FromBe(a[1..]));
    LeadBounds(a[1], q, FromBe(a[1..][1..]));
  }

  // ----- Unsigned values -----

  /** `ber_unsigned_content`: drop leading zeros down to `min` bytes. */
  function TrimTo(b: seq<byte>, min: nat): seq<byte> {
    if |b| > min && b[0] == 0 then TrimTo(b[1..], min) else b
  }

  /** Shift bytes in, keeping the low 32 (or 64) bits. */
  function FoldBytes(bs: seq<byte>, modulus: nat): nat
    requires modulus > 0
  {
    if bs == [] then 0 else (256 * FoldBytes(bs[..|bs| - 1], modulus) + bs[|bs| - 1]) % modulus
  }

  /** Folding modulo m gives the number modulo m. */
  lemma {:induction false} FoldIsMod(bs: seq<byte>, modulus: nat)
    requires modulus > 0
    ensures FoldBytes(bs, modulus) == FromBe(bs) % modulus
  {
    if bs != [] {
      FoldIsMod(bs[..|bs| - 1], modulus);
      ModStep(FromBe(bs[..|bs| - 1]), bs[|bs| - 1], modulus);
    }
  }

  lemma ModStep(x: nat, b: nat, m: nat)
    requires m > 0
    ensures (256 * (x % m) + b) % m == (256 * x + b) % m
  {
    var y := 256 * (x % m) + b;
    assert x == m * (x / m) + x % m && y == m * (y / m) + y % m;
    assert 256 * x + b == m * (256 * (x / m) + y / m) + y % m by {
      assert 256 * (m * (x / m)) + m * (y / m) == m * (256 * (x / m) + y / m);
    }
    DivModUnique(256 * x + b, m, 256 * (x / m) + y / m, y % m);
  }

  lemma FoldIsFromBe(bs: seq<byte>, modulus: nat)
    requires FromBe(bs) < modulus
    ensures FoldBytes(bs, modulus) == FromBe(bs)
  {
    FoldIsMod(bs, modulus);
    DivModUnique(FromBe(bs), modulus, 0, FromBe(bs));
  }

  lemma {:induction false} TrimToKeepsValue(b: seq<byte>, min: nat)
    ensures FromBe(TrimTo(b, min)) == FromBe(b)
    ensures |TrimTo(b, min)| <= |b|
  {
    if |b| > min && b[0] == 0 {
      LeadByte(b);
      TrimToKeepsValue(b[1..], min);
    }
  }

  function UnsignedContent(v: u64, min: nat): seq<byte> {
    TrimTo(BeBytes(v, 8), min)
  }

  lemma TrimmedFold(b: seq<byte>, min: nat, modulus: nat)
    requires FromBe(b) < modulus
    ensures FoldBytes(TrimTo(b, min), modulus) == FromBe(b)
    ensures |TrimTo(b, min)| <= |b|
  {
    TrimToKeepsValue(b, min);
    FoldIsFromBe(TrimTo(b, min), modulus);
  }

  lemma WideValue(v: nat, n: nat)
    requires v < Pow256(n)
    ensures FromBe(BeBytes(v, n)) == v
  {
    BeRoundTrip(v, n);
    DivModUnique(v, Pow256(n), 0, v);
  }

  lemma UnsignedRoundTrip(v: u64, min: nat, modulus: nat)
    requires v < modulus
    ensures FoldBytes(UnsignedContent(v, min), modulus) == v
    ensures |UnsignedContent(v, min)| <= 8
  {
    Pow256Values();
    WideValue(v, 8);
    TrimmedFold(BeBytes(v, 8), min, modulus);
  }

  // ----- OIDs -----

  /** The continuation groups of a number, all with the high bit set. */
  function HighGroups(v: nat): seq<byte> {
    if v == 0 then [] else HighGroups(v / 128) + [128 + v % 128]
  }

  function Base128(v: nat): seq<byte> {
    HighGroups(v / 128) + [v % 128]
  }

  /** The encoder collects groups from the low end into a five-byte buffer and
      writes them out in reverse. */
  method RunBase128(value: u32) returns (out: seq<byte>)
    ensures out == Base128(value)
  {
    var v: nat := value / 128;
    out := [value % 128];
    while v > 0
      invariant HighGroups(v) + out == Base128(value)
    {
      assert HighGroups(v / 128) + ([128 + v % 128] + out) == HighGroups(v / 128) + [128 + v % 128] + out;
      out := [128 + v % 128] + out;
      v := v / 128;
    }
    assert [] + out == out;
  }

  function ArcsContent(arcs: seq<u32>): seq<byte> {
    if arcs == [] then [] else Base128(arcs[0]) + ArcsContent(arcs[1..])
  }

  function Pack(a: nat, b: nat): nat {
    40 * a + b
  }

  /** The first two arcs as one number, wrapping at 32 bits. */
  function FirstNumber(o: Oid): u32
    requires o != []
  {
    Pack(o[0], if |o| >= 2 then o[1] else 0) % 0x1_0000_0000
  }

  function OidContent(o: Oid): seq<byte> {
    if o == [] then [0]
    else Base128(FirstNumber(o)) + ArcsContent(if |o| >= 2 then o[2..] else [])
  }

  /** Shift seven bits in, keeping 32. */
  function AddGroup(acc: nat, b: nat): u32 {
    (128 * acc + b % 128) % 0x1_0000_0000
  }

  lemma GroupsAdd(v: nat)
    requires v < 0x1_0000_0000
    ensures AddGroup(v / 128, 128 + v % 128) == v && AddGroup(v / 128, v % 128) == v
  {
    assert (128 + v % 128) % 128 == v % 128;
    assert 128 * (v / 128) + v % 128 == v;
  }

  /** One arc: seven bits per byte, kept to 32 bits, until a byte without the
      high bit. */
  function ParseArc(buf: seq<byte>, acc: u32): (r: Result<(u32, seq<byte>)>)
    ensures r.Ok? ==> |r.value.1| < |buf|
    decreases |buf|
  {
    if buf == [] then Err(Truncated)
    else
      var v := AddGroup(acc, buf[0]);
      if buf[0] < 128 then Ok((v, buf[1..])) else ParseArc(buf[1..], v)
  }

  function ParseArcs(buf: seq<byte>): Result<seq<u32>>
    decreases |buf|
  {
    if buf == [] then Ok([])
    else
      match ParseArc(buf, 0)
      case Err(e) => Err(e)
      case Ok((arc, rest)) =>
        match ParseArcs(rest)
        case Err(e) => Err(e)
        case Ok(arcs) => Ok([arc] + arcs)
  }

  /** The first two arcs are read from a single octet. */
  function ParseOid(buf: seq<byte>): Result<Oid> {
    if buf == [] then Err(Truncated)
    else
      match ParseArcs(buf[1..])
      case Err(e) => Err(e)
      case Ok(arcs) => Ok([buf[0] / 40, buf[0] % 40] + arcs)
  }

  /** The decoder's nested loops over an index. */
  method RunParseOid(buf: seq<byte>) returns (r: Result<Oid>)
    ensures r == ParseOid(buf)
  {
    if buf == [] {
      return Err(Truncated);
    }
    var arcs: seq<u32> := [];
    var rest := buf[1..];
    assert ParseArcs(rest).Ok? ==> [] + ParseArcs(rest).value == ParseArcs(rest).value;
    while rest != []
      invariant ParseArcs(buf[1..])
             == match ParseArcs(rest) case Err(e) => Err(e) case Ok(more) => Ok(arcs + more)
      decreases |rest|
    {
      var one := RunParseArc(rest);
      if one.Err? {
        return Err(one.error);
      }
      ghost var tail := ParseArcs(one.value.1);
      assert tail.Ok? ==> arcs + ([one.value.0] + tail.value) == arcs + [one.value.0] + tail.value;
      arcs, rest := arcs + [one.value.0], one.value.1;
    }
    assert arcs + [] == arcs;
    r := Ok([buf[0] / 40, buf[0] % 40] + arcs);
  }

  method RunParseArc(buf: seq<byte>) returns (r: Result<(u32, seq<byte>)>)
    ensures r == ParseArc(buf, 0)
  {
    var i, value: u32 := 0, 0;
    while i < |buf|
      invariant 0 <= i <= |buf| && ParseArc(buf[i..], value) == ParseArc(buf, 0)
    {
      var b := buf[i];
      assert buf[i..][1..] == buf[i + 1..];
      value := AddGroup(value, b);
      i := i + 1;
      if b < 128 {
        return Ok((value, buf[i..]));
      }
    }
    r := Err(Truncated);
  }

  lemma {:induction false} ParseHighGroups(v: nat, tail: seq<byte>)
    requires v < 0x1_0000_0000
    ensures ParseArc(HighGroups(v) + tail, 0) == ParseArc(tail, v)
  {
    if v == 0 {
      assert HighGroups(v) + tail == tail;
    } else {
      var next := [128 + v % 128] + tail;
      assert HighGroups(v) + tail == HighGroups(v / 128) + next;
      ParseHighGroups(v / 128, next);
      GroupsAdd(v);
      assert next[1..] == tail;
    }
  }

  lemma ParseBase128(v: u32, rest: seq<byte>)
    ensures ParseArc(Base128(v) + rest, 0) == Ok((v, rest))
  {
    var tail := [v % 128] + rest;
    assert Base128(v) + rest == HighGroups(v / 128) + tail;
    ParseHighGroups(v / 128, tail);
    GroupsAdd(v);
    assert tail[1..] == rest;
  }

  lemma {:induction false} ArcsRoundTrip(arcs: seq<u32>)
    ensures ParseArcs(ArcsContent(arcs)) == Ok(arcs)
  {
    if arcs != [] {
      ParseBase128(arcs[0], ArcsContent(arcs[1..]));
      ArcsRoundTrip(arcs[1..]);
      assert arcs == [arcs[0]] + arcs[1..];
    }
  }

  /** High groups, then one byte without the high bit: one arc, whatever its
      value. */
  predicate ArcShaped(s: seq<byte>) {
    |s| > 0 && s[|s| - 1] < 128 && forall i :: 0 <= i < |s| - 1 ==> s[i] >= 128
  }

  lemma {:induction false} ArcShapedParses(s: seq<byte>, acc: u32, rest: seq<byte>)
    requires ArcShaped(s)
    ensures ParseArc(s + rest, acc).Ok? && ParseArc(s + rest, acc).value.1 == rest
    decreases |s|
  {
    var buf := s + rest;
    if |s| == 1 {
      assert buf[1..] == rest;
    } else {
      assert buf[1..] == s[1..] + rest;
      ArcShapedParses(s[1..], AddGroup(acc, s[0]), rest);
    }
  }

  lemma {:induction false} HighGroupsAreHigh(v: nat)
    ensures forall i :: 0 <= i < |HighGroups(v)| ==> HighGroups(v)[i] >= 128
    ensures v > 0 ==> |HighGroups(v)| > 0
  {
    if v > 0 {
      HighGroupsAreHigh(v / 128);
    }
  }

  /** The OIDs this codec can carry: two arcs at least, the second below 40, and
      both together in one octet. */
  predicate Smuxable(o: Oid) {
    |o| >= 2 && o[1] < 40 && Pack(o[0], o[1]) <= 127
  }

  lemma LongNumberTail(n: nat)
    requires n >= 128
    ensures |Base128(n)| > 1 && ArcShaped(Base128(n)[1..])
  {
    HighGroupsAreHigh(n / 128);
  }

  /** A first number above 127 leaves one arc too many. */
  lemma LongFirstNumber(o: Oid)
    requires o != [] && FirstNumber(o) >= 128
    ensures ParseOid(OidContent(o)).Ok? && |ParseOid(OidContent(o)).value| == 3 + |if |o| >= 2 then o[2..] else []|
  {
    var n, arcs := FirstNumber(o), if |o| >= 2 then o[2..] else [];
    LongNumberTail(n);
    ArcsRoundTrip(arcs);
    OneArcMore(Base128(n), ArcsContent(arcs), arcs);
  }

  lemma OneArcMore(first: seq<byte>, rest: seq<byte>, arcs: seq<u32>)
    requires |first| > 1 && ArcShaped(first[1..]) && ParseArcs(rest) == Ok(arcs)
    ensures ParseOid(first + rest).Ok? && |ParseOid(first + rest).value| == 3 + |arcs|
  {
    assert (first + rest)[1..] == first[1..] + rest;
    ArcShapedParses(first[1..], 0, rest);
  }

  lemma ShortFirstNumber(o: Oid, n: nat, arcs: seq<u32>)
    requires o != [] && n == FirstNumber(o) < 128 && arcs == if |o| >= 2 then o[2..] else []
    ensures ParseOid(OidContent(o)) == Ok([n / 40, n % 40] + arcs)
  {
    assert Base128(n) == [n];
    assert OidContent(o) == [n] + ArcsContent(arcs);
    ArcsRoundTrip(arcs);
  }

  /** An OID comes back exactly when it is of that kind, and never fails to
      parse. */
  lemma OidRoundTripIff(o: Oid)
    ensures ParseOid(OidContent(o)).Ok?
    ensures ParseOid(OidContent(o)) == Ok(o) <==> Smuxable(o)
  {
    if o != [] {
      var n, arcs := FirstNumber(o), if |o| >= 2 then o[2..] else [];
      if n >= 128 {
        LongFirstNumber(o);
      } else {
        ShortFirstNumber(o, n, arcs);
        ShortOid(o, n, arcs);
      }
    }
  }

  lemma ShortPack(a: nat, b: nat, n: nat)
    requires n == Pack(a, b) % 0x1_0000_0000 && n < 128
    ensures a == n / 40 && b == n % 40 <==> b < 40 && Pack(a, b) <= 127
  {
    if Pack(a, b) <= 127 {
      DivModUnique(Pack(a, b), 0x1_0000_0000, 0, Pack(a, b));
      if b < 40 {
        DivModUnique(n, 40, a, b);
      }
    }
  }

  lemma ShortOid(o: Oid, n: nat, arcs: seq<u32>)
    requires o != [] && n == FirstNumber(o) < 128 && arcs == if |o| >= 2 then o[2..] else []
    ensures [n / 40, n % 40] + arcs == o <==> Smuxable(o)
  {
    if |o| >= 2 {
      ShortPack(o[0], o[1], n);
      assert o == [o[0], o[1]] + arcs;
    }
  }
}
