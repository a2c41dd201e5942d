/** Object identifiers and their lexicographic order (crates/netsnmp/src/oid.rs). */
module Oids {

  type u32 = x: int | 0 <= x < 0x1_0000_0000

  /** An ordered sequence of 32-bit sub-identifiers. */
  type Oid = seq<u32>

  /** The derived order of `Vec<u32>`: the first differing arc decides, and a
      proper prefix comes before its extensions. */
  predicate Less(a: Oid, b: Oid) {
    if b == [] then false
    else if a == [] then true
    else if a[0] != b[0] then a[0] < b[0]
    else Less(a[1..], b[1..])
  }

  predicate AtMost(a: Oid, b: Oid) {
    a == b || Less(a, b)
  }

  /** o lies in the subtree rooted at p, p itself included. */
  predicate IsPrefix(p: Oid, o: Oid) {
    |p| <= |o| && o[..|p|] == p
  }

  function Child(o: Oid, arc: u32): Oid {
    o + [arc]
  }

  /** The textbook definition of "comes first": agree up to k, then either a
      ends there or its next arc is smaller. */
  ghost predicate DiffersAt(a: Oid, b: Oid, k: nat) {
    k <= |a| && k < |b| && a[..k] == b[..k] && (k == |a| || a[k] < b[k])
  }

  lemma LessIsFirstDifference(a: Oid, b: Oid)
    ensures Less(a, b) <==> exists k: nat :: DiffersAt(a, b, k)
  {
    if Less(a, b) {
      var k := FirstDifference(a, b);
    }
    forall k: nat | DiffersAt(a, b, k) ensures Less(a, b) {
      DifferenceIsLess(a, b, k);
    }
  }

  lemma {:induction false} FirstDifference(a: Oid, b: Oid) returns (k: nat)
    requires Less(a, b)
    ensures DiffersAt(a, b, k)
  {
    if a == [] || a[0] != b[0] {
      k := 0;
    } else {
      var k' := FirstDifference(a[1..], b[1..]);
      k := k' + 1;
      assert a[..k] == [a[0]] + a[1..][..k'];
      assert b[..k] == [b[0]] + b[1..][..k'];
    }
  }

  lemma {:induction false} DifferenceIsLess(a: Oid, b: Oid, k: nat)
    requires DiffersAt(a, b, k)
    ensures Less(a, b)
  {
    if k > 0 {
      assert a[..k][0] == b[..k][0];
      assert a[1..][..k - 1] == a[..k][1..];
      assert b[1..][..k - 1] == b[..k][1..];
      DifferenceIsLess(a[1..], b[1..], k - 1);
    }
  }

  lemma {:induction false} LessIrreflexive(a: Oid)
    ensures !Less(a, a)
  {
    if a != [] {
      LessIrreflexive(a[1..]);
    }
  }

  lemma {:induction false} LessTransitive(a: Oid, b: Oid, c: Oid)
    requires Less(a, b) && Less(b, c)
    ensures Less(a, c)
  {
    if a != [] && a[0] == b[0] && b[0] == c[0] {
      LessTransitive(a[1..], b[1..], c[1..]);
    }
  }

  lemma {:induction false} LessTotal(a: Oid, b: Oid)
    ensures Less(a, b) || a == b || Less(b, a)
  {
    if a != [] && b != [] && a[0] == b[0] {
      LessTotal(a[1..], b[1..]);
      if a[1..] == b[1..] {
        assert a == [a[0]] + a[1..];
        assert b == [b[0]] + b[1..];
      }
    }
  }

  lemma LessAsymmetric(a: Oid, b: Oid)
    requires Less(a, b)
    ensures !Less(b, a) && a != b
  {
    LessIrreflexive(a);
    if Less(b, a) {
      LessTransitive(a, b, a);
    }
  }

  lemma AtMostTransitive(a: Oid, b: Oid, c: Oid)
    requires AtMost(a, b) && AtMost(b, c)
    ensures AtMost(a, c)
    ensures Less(a, b) || Less(b, c) ==> Less(a, c)
  {
    if Less(a, b) && Less(b, c) {
      LessTransitive(a, b, c);
    }
  }

  /** A subtree root comes no later than anything in its subtree. */
  lemma PrefixAtMost(p: Oid, o: Oid)
    requires IsPrefix(p, o)
    ensures AtMost(p, o)
  {
    if p != o {
      assert DiffersAt(p, o, |p|);
      DifferenceIsLess(p, o, |p|);
    }
  }

  lemma PrefixStep(p: Oid, o: Oid)
    requires p != [] && o != []
    ensures IsPrefix(p, o) <==> p[0] == o[0] && IsPrefix(p[1..], o[1..])
  {
    if |p| <= |o| {
      assert o[..|p|] == [o[0]] + o[1..][..|p| - 1];
      assert p == [p[0]] + p[1..];
      assert o[..|p|] == p ==> o[1..][..|p| - 1] == o[..|p|][1..];
    }
  }

  /** Subtrees are intervals of the order. */
  lemma {:induction false} SubtreeIsInterval(p: Oid, a: Oid, b: Oid, c: Oid)
    requires IsPrefix(p, a) && IsPrefix(p, c)
    requires AtMost(a, b) && AtMost(b, c)
    ensures IsPrefix(p, b)
  {
    if p == [] {
    } else {
      assert b != [];
      PrefixStep(p, a);
      PrefixStep(p, b);
      PrefixStep(p, c);
      SubtreeIsInterval(p[1..], a[1..], b[1..], c[1..]);
    }
  }

  /** Two disjoint subtrees lie in the order of their roots, entirely. */
  lemma {:induction false} DisjointSubtreesInOrder(r: Oid, s: Oid, x: Oid, y: Oid)
    requires Less(r, s) && !IsPrefix(r, s)
    requires IsPrefix(r, x) && IsPrefix(s, y)
    ensures Less(x, y)
  {
    assert r != [];
    PrefixStep(r, s);
    PrefixStep(r, x);
    PrefixStep(s, y);
    if r[0] == s[0] {
      DisjointSubtreesInOrder(r[1..], s[1..], x[1..], y[1..]);
    }
  }
}
