/** Decoding outcomes and list codecs, for any kind of item. */
module Codecs {
  import opened Values
  import opened Outcomes

  /** Decoding starts with x: everything before `rest` is x's encoding. */
  ghost predicate Gives<T, E>(r: Outcome<(T, seq<byte>), E>, x: T, rest: seq<byte>) {
    r == Ok((x, rest))
  }

  /** Decoding does not give x, whatever follows it. */
  ghost predicate Misses<T, E>(r: Outcome<(T, seq<byte>), E>, x: T) {
    r.Err? || r.value.0 != x
  }

  /** The encodings of the items, one after the other. */
  function ListBytes<T>(xs: seq<T>, enc: T -> seq<byte>): seq<byte> {
    if xs == [] then [] else enc(xs[0]) + ListBytes(xs[1..], enc)
  }

  /** Every item takes some bytes. */
  ghost predicate Progresses<T, E>(dec: seq<byte> -> Outcome<(T, seq<byte>), E>) {
    forall bs :: dec(bs).Ok? ==> |dec(bs).value.1| < |bs|
  }

  /** Items until the bytes run out. */
  ghost function DecodeList<T, E>(bs: seq<byte>, dec: seq<byte> -> Outcome<(T, seq<byte>), E>): Outcome<seq<T>, E>
    requires Progresses(dec)
    decreases |bs|
  {
    if bs == [] then Ok([])
    else
      match dec(bs)
      case Err(e) => Err(e)
      case Ok((x, rest)) =>
        match DecodeList(rest, dec)
        case Err(e) => Err(e)
        case Ok(xs) => Ok([x] + xs)
  }

  /** A list fails as one of its items does. */
  lemma {:induction false} ListErrors<T, E>(bs: seq<byte>, dec: seq<byte> -> Outcome<(T, seq<byte>), E>, e: E)
    requires Progresses(dec) && forall b :: dec(b) != Err(e)
    ensures DecodeList(bs, dec) != Err(e)
    decreases |bs|
  {
    if bs != [] && dec(bs).Ok? {
      ListErrors(dec(bs).value.1, dec, e);
    }
  }

  /** A list comes back exactly when every item does. */
  lemma {:induction false} ListRoundTripIff<T, E>(xs: seq<T>, enc: T -> seq<byte>, dec: seq<byte> -> Outcome<(T, seq<byte>), E>, faithful: T -> bool)
    requires Progresses(dec)
    requires forall i :: 0 <= i < |xs| ==> enc(xs[i]) != []
    requires forall i, rest :: 0 <= i < |xs| ==>
               if faithful(xs[i]) then Gives(dec(enc(xs[i]) + rest), xs[i], rest)
               else Misses(dec(enc(xs[i]) + rest), xs[i])
    ensures DecodeList(ListBytes(xs, enc), dec) == Ok(xs) <==> forall i :: 0 <= i < |xs| ==> faithful(xs[i])
    decreases |xs|
  {
    if xs != [] {
      var x, rest := xs[0], ListBytes(xs[1..], enc);
      ListRoundTripIff(xs[1..], enc, dec, faithful);
      assert xs == [x] + xs[1..];
      assert (forall i :: 0 <= i < |xs| ==> faithful(xs[i]))
        <==> faithful(x) && forall i :: 0 <= i < |xs[1..]| ==> faithful(xs[1..][i]);
      assert if faithful(x) then Gives(dec(enc(x) + rest), x, rest) else Misses(dec(enc(x) + rest), x);
      var r := DecodeList(ListBytes(xs, enc), dec);
      if r == Ok(xs) {
        assert r.value[0] == x && r.value[1..] == xs[1..];
      }
    }
  }

  /** The encoder's loop over a list, on its shared buffer. */
  function AppendList<T>(out: seq<byte>, xs: seq<T>, append: (seq<byte>, T) -> seq<byte>): seq<byte>
    decreases |xs|
  {
    if xs == [] then out else AppendList(append(out, xs[0]), xs[1..], append)
  }

  method EncodeList<T>(start: seq<byte>, xs: seq<T>, append: (seq<byte>, T) -> seq<byte>) returns (out: seq<byte>)
    ensures out == AppendList(start, xs, append)
  {
    out := start;
    assert xs[0..] == xs;
    for i := 0 to |xs|
      invariant AppendList(out, xs[i..], append) == AppendList(start, xs, append)
    {
      assert xs[i..][1..] == xs[i + 1..];
      out := append(out, xs[i]);
    }
  }

  lemma AlignedSum(a: nat, b: nat)
    requires a % 4 == 0 && b % 4 == 0
    ensures (a + b) % 4 == 0
  {
  }

  lemma WordsAligned(k: nat)
    ensures (4 + 4 * k) % 4 == 0
  {
  }

  /** Every item only adds its own whole words to an aligned buffer. */
  ghost predicate AddsOwnWords<T>(xs: seq<T>, append: (seq<byte>, T) -> seq<byte>, enc: T -> seq<byte>) {
    && (forall i, o {:trigger append(o, xs[i])} :: 0 <= i < |xs| && |o| % 4 == 0 ==> append(o, xs[i]) == o + enc(xs[i]))
    && (forall i {:trigger enc(xs[i])} :: 0 <= i < |xs| ==> |enc(xs[i])| % 4 == 0)
  }

  lemma TailAddsOwnWords<T>(xs: seq<T>, append: (seq<byte>, T) -> seq<byte>, enc: T -> seq<byte>)
    requires xs != [] && AddsOwnWords(xs, append, enc)
    ensures AddsOwnWords(xs[1..], append, enc)
  {
    var tail := xs[1..];
    forall i, o | 0 <= i < |tail| && |o| % 4 == 0 ensures append(o, tail[i]) == o + enc(tail[i]) {
      assert tail[i] == xs[i + 1];
    }
    forall i | 0 <= i < |tail| ensures |enc(tail[i])| % 4 == 0 {
      assert tail[i] == xs[i + 1];
    }
  }

  /** If every item only adds its own whole words to an aligned buffer, so does
      the list. */
  lemma {:induction false} ListIsLocal<T>(out: seq<byte>, xs: seq<T>, append: (seq<byte>, T) -> seq<byte>, enc: T -> seq<byte>)
    requires |out| % 4 == 0 && AddsOwnWords(xs, append, enc)
    ensures AppendList(out, xs, append) == out + ListBytes(xs, enc)
    ensures |AppendList(out, xs, append)| % 4 == 0
    decreases |xs|
  {
    if xs == [] {
      assert out + [] == out;
    } else {
      var next, tail := append(out, xs[0]), xs[1..];
      assert next == out + enc(xs[0]);
      AlignedSum(|out|, |enc(xs[0])|);
      TailAddsOwnWords(xs, append, enc);
      ListIsLocal(next, tail, append, enc);
      assert out + enc(xs[0]) + ListBytes(tail, enc) == out + (enc(xs[0]) + ListBytes(tail, enc));
    }
  }

  /** The decoder's loop over a list: items until the bytes run out. */
  method RunDecodeList<T, E>(bs: seq<byte>, dec: seq<byte> -> Outcome<(T, seq<byte>), E>) returns (r: Outcome<seq<T>, E>)
    requires Progresses(dec)
    ensures r == DecodeList(bs, dec)
  {
    var rest, out: seq<T> := bs, [];
    assert DecodeList(bs, dec).Ok? ==> [] + DecodeList(bs, dec).value == DecodeList(bs, dec).value;
    while rest != []
      invariant DecodeList(bs, dec)
             == match DecodeList(rest, dec) case Err(e) => Err(e) case Ok(xs) => Ok(out + xs)
      decreases |rest|
    {
      var d := dec(rest);
      if d.Err? {
        return Err(d.error);
      }
      ghost var tail := DecodeList(d.value.1, dec);
      assert tail.Ok? ==> out + ([d.value.0] + tail.value) == out + [d.value.0] + tail.value;
      out, rest := out + [d.value.0], d.value.1;
    }
    assert out + [] == out;
    r := Ok(out);
  }
}
