/** Fixed-width integers as bytes, in both byte orders. */
module Bytes {
  import opened Values

  function Pow256(n: nat): (p: nat)
    ensures p > 0
  {
    if n == 0 then 1 else 256 * Pow256(n - 1)
  }

  lemma Pow256Values()
    ensures Pow256(1) == 0x100 && Pow256(2) == 0x1_0000 && Pow256(4) == 0x1_0000_0000
    ensures Pow256(8) == 0x1_0000_0000_0000_0000
  {
    assert Pow256(3) == 0x100_0000;
    assert Pow256(5) == 0x100_0000_0000;
    assert Pow256(6) == 0x1_0000_0000_0000;
    assert Pow256(7) == 0x100_0000_0000_0000;
  }

  /** The n low bytes of v, least significant first (`to_le_bytes`). */
  function LeBytes(v: nat, n: nat): (bs: seq<byte>)
    ensures |bs| == n
    decreases n
  {
    if n == 0 then [] else [v % 256] + LeBytes(v / 256, n - 1)
  }

  function FromLe(bs: seq<byte>): nat {
    if bs == [] then 0 else bs[0] + 256 * FromLe(bs[1..])
  }

  /** The n low bytes of v, most significant first (`to_be_bytes`). */
  function BeBytes(v: nat, n: nat): (bs: seq<byte>)
    ensures |bs| == n
    decreases n
  {
    if n == 0 then [] else BeBytes(v / 256, n - 1) + [v % 256]
  }

  function FromBe(bs: seq<byte>): nat {
    if bs == [] then 0 else 256 * FromBe(bs[..|bs| - 1]) + bs[|bs| - 1]
  }

  /** Reading what was written keeps the low n bytes of the number. */
  lemma {:induction false} LeRoundTrip(v: nat, n: nat)
    ensures FromLe(LeBytes(v, n)) == v % Pow256(n)
    decreases n
  {
    if n > 0 {
      LeRoundTrip(v / 256, n - 1);
      assert LeBytes(v, n)[1..] == LeBytes(v / 256, n - 1);
      ModSplit(v, Pow256(n - 1));
    }
  }

  lemma {:induction false} BeRoundTrip(v: nat, n: nat)
    ensures FromBe(BeBytes(v, n)) == v % Pow256(n)
    decreases n
  {
    if n > 0 {
      BeRoundTrip(v / 256, n - 1);
      assert BeBytes(v, n)[..n - 1] == BeBytes(v / 256, n - 1);
      ModSplit(v, Pow256(n - 1));
    }
  }

  lemma ModSplit(v: nat, p: nat)
    requires p > 0
    ensures v % (256 * p) == v % 256 + 256 * ((v / 256) % p)
  {
    var q, r := v / 256, v % 256;
    var a, b := q / p, q % p;
    assert v == 256 * q + r;
    assert q == p * a + b;
    assert v == (256 * p) * a + (256 * b + r) by {
      assert 256 * (p * a) == (256 * p) * a;
    }
    assert 0 <= 256 * b + r < 256 * p;
    DivModUnique(v, 256 * p, a, 256 * b + r);
  }

  lemma DivModUnique(v: int, d: int, q: int, r: int)
    requires 0 <= r < d && v == d * q + r
    ensures v % d == r && v / d == q
  {
    var e := v / d - q;
    assert d * (v / d) + v % d == v;
    assert d * e == r - v % d by {
      assert d * e == d * (v / d) - d * q;
    }
    assert e >= 1 ==> d * e >= d;
    assert e <= -1 ==> d * e <= -d;
  }

  /** A byte order: how a number is put into n bytes and got back. */
  datatype OrderRecord = OrderRecord(put: (nat, nat) -> seq<byte>, get: seq<byte> -> nat)

  /** Putting gives n bytes, getting them back the number modulo 256^n, and no
      bytes give more than their width can hold. */
  ghost predicate Lawful(o: OrderRecord) {
    && (forall v: nat, n: nat {:trigger o.put(v, n)} :: |o.put(v, n)| == n && o.get(o.put(v, n)) == v % Pow256(n))
    && (forall bs {:trigger o.get(bs)} :: o.get(bs) < Pow256(|bs|))
  }

  function LittleEndian(): (o: OrderRecord)
    ensures Lawful(o)
  {
    var o := OrderRecord((v: nat, n: nat) => LeBytes(v, n), (bs: seq<byte>) => FromLe(bs));
    LittleEndianLaw(o);
    o
  }

  function BigEndian(): (o: OrderRecord)
    ensures Lawful(o)
  {
    var o := OrderRecord((v: nat, n: nat) => BeBytes(v, n), (bs: seq<byte>) => FromBe(bs));
    BigEndianLaw(o);
    o
  }

  lemma LittleEndianLaw(o: OrderRecord)
    requires forall v: nat, n: nat {:trigger o.put(v, n)} :: o.put(v, n) == LeBytes(v, n)
    requires forall bs {:trigger o.get(bs)} :: o.get(bs) == FromLe(bs)
    ensures Lawful(o)
  {
    forall v: nat, n: nat ensures |o.put(v, n)| == n && o.get(o.put(v, n)) == v % Pow256(n) {
      LeRoundTrip(v, n);
    }
    forall bs: seq<byte> ensures o.get(bs) < Pow256(|bs|) {
      LeBound(bs);
    }
  }

  lemma BigEndianLaw(o: OrderRecord)
    requires forall v: nat, n: nat {:trigger o.put(v, n)} :: o.put(v, n) == BeBytes(v, n)
    requires forall bs {:trigger o.get(bs)} :: o.get(bs) == FromBe(bs)
    ensures Lawful(o)
  {
    forall v: nat, n: nat ensures |o.put(v, n)| == n && o.get(o.put(v, n)) == v % Pow256(n) {
      BeRoundTrip(v, n);
    }
    forall bs: seq<byte> ensures o.get(bs) < Pow256(|bs|) {
      BeBound(bs);
    }
  }

  type Order = o: OrderRecord | Lawful(o) ghost witness LittleEndian()

  /** The order the network-byte-order flag selects. */
  function OrderOf(big: bool): Order {
    if big then BigEndian() else LittleEndian()
  }

  // ----- Digit by digit -----

  /** The k-th byte of a number, from the least significant one. */
  function Digit(v: nat, k: nat): byte {
    (v / Pow256(k)) % 256
  }

  /** The n low bytes of a number, in either order. */
  function Digits(v: nat, n: nat, big: bool): (bs: seq<byte>)
    ensures |bs| == n
  {
    seq(n, k requires 0 <= k < n => Digit(v, if big then n - 1 - k else k))
  }

  lemma DigitAbove(v: nat, k: nat)
    ensures Digit(v, k + 1) == Digit(v / 256, k)
  {
    var p, q := Pow256(k), v / 256;
    assert v == 256 * q + v % 256 && q == p * (q / p) + q % p;
    assert v == (256 * p) * (q / p) + (256 * (q % p) + v % 256) by {
      assert 256 * (p * (q / p)) == (256 * p) * (q / p);
    }
    DivModUnique(v, 256 * p, q / p, 256 * (q % p) + v % 256);
  }

  /** The low m bytes of a number are those of its remainder. */
  lemma {:induction false} LowDigit(v: nat, m: nat, k: nat)
    requires k < m
    ensures Digit(v % Pow256(m), k) == Digit(v, k)
    decreases m
  {
    var p := Pow256(m - 1);
    ModSplit(v, p);
    DivModUnique(v % (256 * p), 256, (v / 256) % p, v % 256);
    if k > 0 {
      LowDigit(v / 256, m - 1, k - 1);
      DigitAbove(v % (256 * p), k - 1);
      DigitAbove(v, k - 1);
    }
  }

  lemma {:induction false} LeDigit(v: nat, n: nat, k: nat)
    requires k < n
    ensures LeBytes(v, n)[k] == Digit(v, k)
    decreases n
  {
    if k > 0 {
      LeDigit(v / 256, n - 1, k - 1);
      DigitAbove(v, k - 1);
    }
  }

  lemma {:induction false} BeDigit(v: nat, n: nat, k: nat)
    requires k < n
    ensures BeBytes(v, n)[n - 1 - k] == Digit(v, k)
    decreases n
  {
    if k > 0 {
      BeDigit(v / 256, n - 1, k - 1);
      DigitAbove(v, k - 1);
    }
  }

  lemma {:induction false} FromLeDigit(bs: seq<byte>, k: nat)
    requires k < |bs|
    ensures Digit(FromLe(bs), k) == bs[k]
    decreases |bs|
  {
    if k > 0 {
      FromLeDigit(bs[1..], k - 1);
      DigitAbove(FromLe(bs), k - 1);
      assert FromLe(bs) / 256 == FromLe(bs[1..]);
    }
  }

  lemma {:induction false} FromBeDigit(bs: seq<byte>, k: nat)
    requires k < |bs|
    ensures Digit(FromBe(bs), k) == bs[|bs| - 1 - k]
    decreases |bs|
  {
    if k > 0 {
      var init := bs[..|bs| - 1];
      FromBeDigit(init, k - 1);
      DigitAbove(FromBe(bs), k - 1);
      assert FromBe(bs) / 256 == FromBe(init);
    }
  }

  lemma LeDigits(v: nat, n: nat)
    ensures LeBytes(v, n) == Digits(v, n, false)
  {
    forall k | 0 <= k < n ensures LeBytes(v, n)[k] == Digits(v, n, false)[k] {
      LeDigit(v, n, k);
    }
  }

  lemma BeDigits(v: nat, n: nat)
    ensures BeBytes(v, n) == Digits(v, n, true)
  {
    forall k | 0 <= k < n ensures BeBytes(v, n)[k] == Digits(v, n, true)[k] {
      BeDigit(v, n, n - 1 - k);
    }
  }

  lemma FromLeDigits(bs: seq<byte>)
    ensures Digits(FromLe(bs), |bs|, false) == bs
  {
    forall k | 0 <= k < |bs| ensures Digits(FromLe(bs), |bs|, false)[k] == bs[k] {
      FromLeDigit(bs, k);
    }
  }

  lemma FromBeDigits(bs: seq<byte>)
    ensures Digits(FromBe(bs), |bs|, true) == bs
  {
    var v := FromBe(bs);
    forall k | 0 <= k < |bs| ensures Digit(v, k) == bs[|bs| - 1 - k] {
      FromBeDigit(bs, k);
    }
    DigitsDown(v, bs);
  }

  lemma DigitsDown(v: nat, bs: seq<byte>)
    requires forall k {:trigger Digit(v, k)} :: 0 <= k < |bs| ==> Digit(v, k) == bs[|bs| - 1 - k]
    ensures Digits(v, |bs|, true) == bs
  {
    forall k | 0 <= k < |bs| ensures Digits(v, |bs|, true)[k] == bs[k] {
      assert Digit(v, |bs| - 1 - k) == bs[k];
    }
  }

  /** With the flag the most significant byte goes first, without it the least
      significant one. */
  lemma OrderWrites(big: bool, v: nat, n: nat)
    ensures OrderOf(big).put(v, n) == Digits(v, n, big)
  {
    LeDigits(v, n);
    BeDigits(v, n);
  }

  /** Reading gives the number whose bytes these are. */
  lemma OrderReads(big: bool, bs: seq<byte>)
    ensures Digits(OrderOf(big).get(bs), |bs|, big) == bs && OrderOf(big).get(bs) < Pow256(|bs|)
  {
    FromLeDigits(bs);
    FromBeDigits(bs);
  }

  /** Both orders write zero as zero bytes. */
  lemma ZeroBytes(big: bool)
    ensures OrderOf(big).put(0, 4) == [0, 0, 0, 0] && OrderOf(big).get([0, 0]) == 0
  {
    if big {
      BeZero();
    } else {
      LeZero();
    }
  }

  lemma LeZero()
    ensures LeBytes(0, 4) == [0, 0, 0, 0] && FromLe([0, 0]) == 0
  {
    assert LeBytes(0, 1) == [0] && LeBytes(0, 2) == [0, 0] && LeBytes(0, 3) == [0, 0, 0];
    assert [0, 0][1..] == [0] && [0][1..] == [];
  }

  lemma BeZero()
    ensures BeBytes(0, 4) == [0, 0, 0, 0] && FromBe([0, 0]) == 0
  {
    assert BeBytes(0, 1) == [0] && BeBytes(0, 2) == [0, 0] && BeBytes(0, 3) == [0, 0, 0];
    assert [0, 0][..1] == [0] && [0][..0] == [];
  }

  lemma {:induction false} LeBound(bs: seq<byte>)
    ensures FromLe(bs) < Pow256(|bs|)
  {
    if bs != [] {
      LeBound(bs[1..]);
    }
  }

  lemma {:induction false} BeBound(bs: seq<byte>)
    ensures FromBe(bs) < Pow256(|bs|)
  {
    if bs != [] {
      BeBound(bs[..|bs| - 1]);
    }
  }

  /** Taking a concatenation apart again. */
  lemma Apart<T>(a: seq<T>, b: seq<T>)
    ensures (a + b)[..|a|] == a && (a + b)[|a|..] == b
  {
  }
}
