/** Triggers of the event MIB (crates/netsnmp-agent/src/disman/event.rs): what
    one evaluation does, and what firings mean over whole sample sequences. */
module Triggers {
  import opened Values

  datatype Comparison = EqualTo | UnequalTo | LessThan | LessOrEqual | GreaterThan | GreaterOrEqual

  datatype Test = Existence | Boolean(code: byte) | Threshold | DeltaThreshold

  datatype Reason = Existed | Held | Rising | Falling | DeltaRising | DeltaFalling

  datatype Trigger = Trigger(
    test: Test, comparison: Comparison, reference: i64, rising: i64, falling: i64,
    enabled: bool, lastSample: Option<i64>, existenceFired: bool)

  type Sample = Option<i64>

  function FromCode(code: byte): Option<Comparison> {
    match code
    case 1 => Some(EqualTo)
    case 2 => Some(UnequalTo)
    case 3 => Some(LessThan)
    case 4 => Some(LessOrEqual)
    case 5 => Some(GreaterThan)
    case 6 => Some(GreaterOrEqual)
    case _ => None
  }

  predicate Compare(c: Comparison, sample: i64, reference: i64) {
    match c
    case EqualTo => sample == reference
    case UnequalTo => sample != reference
    case LessThan => sample < reference
    case LessOrEqual => sample <= reference
    case GreaterThan => sample > reference
    case GreaterOrEqual => sample >= reference
  }

  /** An unknown code falls back to the row's own comparison. */
  function EffectiveComparison(t: Trigger): Comparison
    requires t.test.Boolean?
  {
    match FromCode(t.test.code)
    case Some(c) => c
    case None => t.comparison
  }

  /** The difference of two samples, wrapping at 64 bits. */
  function Delta(s: i64, p: i64): i64 {
    (s - p + 0x8000_0000_0000_0000) % 0x1_0000_0000_0000_0000 - 0x8000_0000_0000_0000
  }

  /** The row as one evaluation leaves it, and why it fires. */
  function Evaluate(t: Trigger, sample: Sample): (Trigger, Option<Reason>) {
    match t.test
    case Existence =>
      if sample.Some? && !t.existenceFired then (t.(existenceFired := true, lastSample := sample), Some(Existed))
      else (t, None)
    case Boolean(_) =>
      if sample.None? then (t, None)
      else (t.(lastSample := sample),
            if Compare(EffectiveComparison(t), sample.value, t.reference) then Some(Held) else None)
    case Threshold =>
      if sample.None? then (t, None)
      else (t.(lastSample := sample), if t.lastSample.None? then None else Crossing(t, t.lastSample.value, sample.value))
    case DeltaThreshold =>
      if sample.None? then (t, None)
      else (t.(lastSample := sample), if t.lastSample.None? then None else Jump(t, Delta(sample.value, t.lastSample.value)))
  }

  function Crossing(t: Trigger, p: i64, s: i64): Option<Reason> {
    if s >= t.rising && p < t.rising then Some(Rising)
    else if s <= t.falling && p > t.falling then Some(Falling)
    else None
  }

  function Jump(t: Trigger, delta: i64): Option<Reason> {
    if delta >= t.rising then Some(DeltaRising)
    else if delta <= t.falling then Some(DeltaFalling)
    else None
  }

  // ----- Runs of one trigger -----

  /** The row after these samples, missing ones included. */
  function After(t: Trigger, samples: seq<Sample>): Trigger {
    if samples == [] then t
    else Evaluate(After(t, samples[..|samples| - 1]), samples[|samples| - 1]).0
  }

  /** What the evaluation of sample i answers. */
  function Firing(t: Trigger, samples: seq<Sample>, i: nat): Option<Reason>
    requires i < |samples|
  {
    Evaluate(After(t, samples[..i]), samples[i]).1
  }

  /** The most recent sample that was there, or what the row remembered. */
  function LastPresent(before: Sample, samples: seq<Sample>): Sample {
    if samples == [] then before
    else if samples[|samples| - 1].Some? then samples[|samples| - 1]
    else LastPresent(before, samples[..|samples| - 1])
  }

  /** Sample k is the last present one. */
  predicate IsLastPresent(samples: seq<Sample>, k: nat) {
    k < |samples| && samples[k].Some? && forall j :: k < j < |samples| ==> samples[j].None?
  }

  lemma {:induction false} LastPresentIs(before: Sample, samples: seq<Sample>, k: nat)
    requires IsLastPresent(samples, k)
    ensures LastPresent(before, samples) == samples[k]
  {
    if k < |samples| - 1 {
      LastPresentIs(before, samples[..|samples| - 1], k);
    }
  }

  /** Where it came from. */
  lemma {:induction false} LastPresentFrom(before: Sample, samples: seq<Sample>)
    ensures LastPresent(before, samples) == before || exists k: nat :: IsLastPresent(samples, k) && samples[k] == LastPresent(before, samples)
  {
    if samples != [] {
      var n := |samples| - 1;
      if samples[n].Some? {
        assert IsLastPresent(samples, n);
      } else {
        LastPresentFrom(before, samples[..n]);
        if LastPresent(before, samples) != before {
          var k: nat :| IsLastPresent(samples[..n], k) && samples[..n][k] == LastPresent(before, samples[..n]);
          assert IsLastPresent(samples, k);
        }
      }
    }
  }

  ghost predicate AnyPresent(samples: seq<Sample>) {
    exists k :: 0 <= k < |samples| && samples[k].Some?
  }

  /** What the row remembers: only these two fields ever change. */
  lemma {:induction false} StateAfter(t: Trigger, samples: seq<Sample>)
    ensures var r := After(t, samples);
      if t.test.Existence? then
        && r == t.(existenceFired := r.existenceFired, lastSample := r.lastSample)
        && (r.existenceFired <==> t.existenceFired || AnyPresent(samples))
      else r == t.(lastSample := LastPresent(t.lastSample, samples))
  {
    if samples != [] {
      var n := |samples| - 1;
      StateAfter(t, samples[..n]);
      if AnyPresent(samples[..n]) {
        var k :| 0 <= k < n && samples[..n][k].Some?;
        assert samples[k].Some?;
      }
      if AnyPresent(samples) && samples[n].None? {
        var k :| 0 <= k < |samples| && samples[k].Some?;
        assert samples[..n][k].Some?;
      }
    }
  }

  /** Threshold firings are exactly the crossings between a sample and the last
      one that was there, whatever was missing in between. */
  lemma ThresholdFiresOnCrossings(t: Trigger, samples: seq<Sample>, i: nat)
    requires t.test.Threshold? && i < |samples|
    ensures var p, s, f := LastPresent(t.lastSample, samples[..i]), samples[i], Firing(t, samples, i);
      && (f == Some(Rising) <==> p.Some? && s.Some? && p.value < t.rising <= s.value)
      && (f == Some(Falling) <==> p.Some? && s.Some? && s.value <= t.falling < p.value)
      && (f.Some? ==> f == Some(Rising) || f == Some(Falling))
  {
    StateAfter(t, samples[..i]);
  }

  /** Upward and downward crossings never coincide, whatever the thresholds. */
  lemma CrossingsExclude(t: Trigger, p: i64, s: i64)
    ensures !(p < t.rising <= s && s <= t.falling < p)
    ensures Crossing(t, p, s) == Some(Rising) <==> p < t.rising <= s
    ensures Crossing(t, p, s) == Some(Falling) <==> s <= t.falling < p
  {
  }

  /** Between two rising firings some sample lies below the rising threshold. */
  lemma RisingsAreSeparated(t: Trigger, samples: seq<Sample>, i: nat, j: nat)
    requires t.test.Threshold? && i < j < |samples|
    requires Firing(t, samples, i) == Some(Rising) && Firing(t, samples, j) == Some(Rising)
    ensures exists k :: i < k < j && samples[k].Some? && samples[k].value < t.rising
  {
    ThresholdFiresOnCrossings(t, samples, i);
    ThresholdFiresOnCrossings(t, samples, j);
    var k := LastBefore(t.lastSample, samples, i, j);
    assert k != i;
  }

  lemma FallingsAreSeparated(t: Trigger, samples: seq<Sample>, i: nat, j: nat)
    requires t.test.Threshold? && i < j < |samples|
    requires Firing(t, samples, i) == Some(Falling) && Firing(t, samples, j) == Some(Falling)
    ensures exists k :: i < k < j && samples[k].Some? && samples[k].value > t.falling
  {
    ThresholdFiresOnCrossings(t, samples, i);
    ThresholdFiresOnCrossings(t, samples, j);
    var k := LastBefore(t.lastSample, samples, i, j);
    assert k != i;
  }

  /** With sample i present, the last present one before j is at i or later. */
  lemma {:induction false} LastBefore(before: Sample, samples: seq<Sample>, i: nat, j: nat) returns (k: nat)
    requires i < j <= |samples| && samples[i].Some?
    ensures i <= k < j && samples[k].Some? && LastPresent(before, samples[..j]) == samples[k]
    decreases j
  {
    if samples[j - 1].Some? {
      k := j - 1;
    } else {
      k := LastBefore(before, samples, i, j - 1);
      assert samples[..j][..j - 1] == samples[..j - 1];
    }
  }

  predicate Above(t: Trigger, samples: seq<Sample>, m: int) {
    0 <= m < |samples| && samples[m].Some? && samples[m].value > t.falling
  }

  predicate NotAbove(t: Trigger, samples: seq<Sample>, k: int) {
    0 <= k < |samples| && samples[k].Some? && samples[k].value <= t.falling
  }

  /** After a rising firing at i a falling one follows before j exactly when some
      sample from i on is above the falling threshold and a later one is not,
      whatever the two thresholds are: the row keeps no memory of which of the
      two fired last. */
  lemma FallingFollowsIff(t: Trigger, samples: seq<Sample>, i: nat, j: nat)
    requires t.test.Threshold? && i < j <= |samples|
    requires Firing(t, samples, i) == Some(Rising)
    ensures (exists k :: i < k < j && Firing(t, samples, k) == Some(Falling))
       <==> (exists m, k :: i <= m < k < j && Above(t, samples, m) && NotAbove(t, samples, k))
  {
    ThresholdFiresOnCrossings(t, samples, i);
    if k :| i < k < j && Firing(t, samples, k) == Some(Falling) {
      ThresholdFiresOnCrossings(t, samples, k);
      var m := LastBefore(t.lastSample, samples, i, k);
      assert Above(t, samples, m) && NotAbove(t, samples, k);
    }
    if m, k :| i <= m < k < j && Above(t, samples, m) && NotAbove(t, samples, k) {
      var f := FirstFall(t, samples, m, k);
    }
  }

  lemma {:induction false} FirstFall(t: Trigger, samples: seq<Sample>, i: nat, k: nat) returns (f: nat)
    requires t.test.Threshold? && i < k < |samples| && samples[i].Some? && samples[i].value > t.falling
    requires samples[k].Some? && samples[k].value <= t.falling
    ensures i < f <= k && Firing(t, samples, f) == Some(Falling)
    decreases k
  {
    var p := LastBefore(t.lastSample, samples, i, k);
    if samples[p].value <= t.falling {
      f := FirstFall(t, samples, i, p);
    } else {
      f := k;
      ThresholdFiresOnCrossings(t, samples, k);
    }
  }

  const MinSample: i64 := -0x8000_0000_0000_0000

  /** Any two rising firings have a falling one between them. */
  ghost predicate FallsBetween(t: Trigger) {
    forall samples: seq<Sample>, i: nat, j: nat ::
      i < j < |samples| && Firing(t, samples, i) == Some(Rising) && Firing(t, samples, j) == Some(Rising) ==>
        exists k :: i < k < j && Firing(t, samples, k) == Some(Falling)
  }

  /** Two rising firings need no falling one between them, except with adjacent
      thresholds. */
  lemma RisesTwiceWithoutFalling(t: Trigger) returns (samples: seq<Sample>)
    requires t.test.Threshold? && t.rising > MinSample && t.falling != t.rising - 1
    ensures |samples| == 4 && Firing(t, samples, 1) == Some(Rising) && Firing(t, samples, 3) == Some(Rising)
    ensures Firing(t, samples, 2) == None
  {
    var low, high := Some(t.rising - 1), Some(t.rising);
    samples := [low, high, low, high];
    forall k | 1 <= k < 4
      ensures Firing(t, samples, k) == if k == 2 then None else Some(Rising)
    {
      ThresholdFiresOnCrossings(t, samples, k);
      assert IsLastPresent(samples[..k], k - 1);
      LastPresentIs(t.lastSample, samples[..k], k - 1);
    }
  }

  /** The row has hysteresis exactly when its thresholds are adjacent, or when no
      sample can be below the rising one, so that it never rises. */
  lemma FallsBetweenIff(t: Trigger)
    requires t.test.Threshold?
    ensures FallsBetween(t) <==> t.rising == MinSample || t.falling == t.rising - 1
  {
    if t.rising == MinSample || t.falling == t.rising - 1 {
      forall samples: seq<Sample>, i: nat, j: nat | i < j < |samples| && Firing(t, samples, i) == Some(Rising) && Firing(t, samples, j) == Some(Rising)
        ensures exists k :: i < k < j && Firing(t, samples, k) == Some(Falling)
      {
        ThresholdFiresOnCrossings(t, samples, i);
        RisingsAreSeparated(t, samples, i, j);
        var k :| i < k < j && samples[k].Some? && samples[k].value < t.rising;
        assert Above(t, samples, i) && NotAbove(t, samples, k);
        FallingFollowsIff(t, samples, i, j);
      }
    } else {
      var samples := RisesTwiceWithoutFalling(t);
      assert !exists k :: 1 < k < 3 && Firing(t, samples, k) == Some(Falling);
    }
  }

  /** An existence trigger fires on the first sample that is there, and never
      again. */
  lemma ExistenceFiresOnce(t: Trigger, samples: seq<Sample>, i: nat)
    requires t.test.Existence? && i < |samples|
    ensures Firing(t, samples, i)
         == if !t.existenceFired && samples[i].Some? && forall k :: 0 <= k < i ==> samples[k].None? then Some(Existed) else None
  {
    StateAfter(t, samples[..i]);
    if forall k :: 0 <= k < i ==> samples[k].None? {
      assert !AnyPresent(samples[..i]);
    } else {
      var k :| 0 <= k < i && samples[k].Some?;
      assert samples[..i][k].Some?;
    }
  }

  /** The comparison numbered `code` holds: 1 is equal, 2 unequal, 3 less, 4 less
      or equal, 5 greater, 6 greater or equal. */
  predicate Holds(code: byte, sample: i64, reference: i64) {
    || (code == 1 && sample == reference) || (code == 2 && sample != reference)
    || (code == 3 && sample < reference) || (code == 4 && sample <= reference)
    || (code == 5 && sample > reference) || (code == 6 && sample >= reference)
  }

  /** The number of the row's own comparison. */
  function CodeOf(c: Comparison): byte {
    match c
    case EqualTo => 1
    case UnequalTo => 2
    case LessThan => 3
    case LessOrEqual => 4
    case GreaterThan => 5
    case GreaterOrEqual => 6
  }

  /** A boolean trigger has no memory: it fires when the comparison of its test
      holds, or its row's own when the test has an unknown code. */
  lemma BooleanFiresWhenItHolds(t: Trigger, samples: seq<Sample>, i: nat)
    requires t.test.Boolean? && i < |samples|
    ensures var code := if 1 <= t.test.code <= 6 then t.test.code else CodeOf(t.comparison);
      Firing(t, samples, i)
        == if samples[i].Some? && Holds(code, samples[i].value, t.reference) then Some(Held) else None
  {
    StateAfter(t, samples[..i]);
  }

  /** The difference as 64-bit arithmetic without overflow check gives it. */
  function Wrapped(d: int): int {
    if d >= 0x8000_0000_0000_0000 then d - 0x1_0000_0000_0000_0000
    else if d < -0x8000_0000_0000_0000 then d + 0x1_0000_0000_0000_0000
    else d
  }

  /** A delta trigger compares the difference to the last present sample. */
  lemma DeltaFiresOnJumps(t: Trigger, samples: seq<Sample>, i: nat)
    requires t.test.DeltaThreshold? && i < |samples|
    ensures var p, s, f := LastPresent(t.lastSample, samples[..i]), samples[i], Firing(t, samples, i);
      if p.None? || s.None? then f == None
      else
        var d := Wrapped(s.value - p.value);
        && (f == Some(DeltaRising) <==> d >= t.rising)
        && (f == Some(DeltaFalling) <==> d <= t.falling && d < t.rising)
        && f in {None, Some(DeltaRising), Some(DeltaFalling)}
  {
    StateAfter(t, samples[..i]);
  }

  // ----- The engine -----

  /** A disabled row is skipped. */
  function Poll(t: Trigger, sample: Sample): (Trigger, Option<Reason>) {
    if t.enabled then Evaluate(t, sample) else (t, None)
  }

  class Engine {
    var triggers: map<string, Trigger>

    constructor ()
      ensures triggers == map[]
    {
      triggers := map[];
    }

    /** Overwrites a row with the same key. */
    method AddTrigger(key: string, t: Trigger)
      modifies this
      ensures triggers == old(triggers)[key := t]
    {
      triggers := triggers[key := t];
    }

    method RemoveTrigger(key: string) returns (removed: Option<Trigger>)
      modifies this
      ensures triggers == old(triggers) - {key}
      ensures removed == if key in old(triggers) then Some(old(triggers)[key]) else None
    {
      removed := if key in triggers then Some(triggers[key]) else None;
      triggers := triggers - {key};
    }

    /** One poll cycle over a snapshot of the rows, in no particular order.
        `sample` is what the read of each row's OID answers when its turn comes. */
    method PollOnce(sample: string -> Sample) returns (fired: map<string, Reason>)
      modifies this
      ensures triggers == Polled(old(triggers), sample)
      ensures forall k :: k in fired <==> k in old(triggers) && old(triggers)[k].enabled && Evaluate(old(triggers)[k], sample(k)).1.Some?
      ensures forall k :: k in fired ==> Some(fired[k]) == Evaluate(old(triggers)[k], sample(k)).1
    {
      var snapshot := triggers;
      var todo := snapshot.Keys;
      fired := map[];
      while todo != {}
        invariant todo <= snapshot.Keys == triggers.Keys
        invariant forall k :: k in snapshot ==> triggers[k] == if k in todo then snapshot[k] else Poll(snapshot[k], sample(k)).0
        invariant forall k :: k in fired <==> k in snapshot && k !in todo && Poll(snapshot[k], sample(k)).1.Some?
        invariant forall k :: k in fired ==> Some(fired[k]) == Poll(snapshot[k], sample(k)).1
        decreases todo
      {
        var k :| k in todo;
        todo := todo - {k};
        var t := snapshot[k];
        if t.enabled {
          var (row, reason) := Evaluate(t, sample(k));
          triggers := triggers[k := row];
          if reason.Some? {
            fired := fired[k := reason.value];
          }
        }
      }
      assert triggers == Polled(snapshot, sample);
    }
  }

  function Polled(triggers: map<string, Trigger>, sample: string -> Sample): map<string, Trigger> {
    map k | k in triggers :: Poll(triggers[k], sample(k)).0
  }

  function PolledMany(triggers: map<string, Trigger>, polls: seq<string -> Sample>): map<string, Trigger> {
    if polls == [] then triggers else Polled(PolledMany(triggers, polls[..|polls| - 1]), polls[|polls| - 1])
  }

  /** The samples one row sees. */
  function SamplesOf(key: string, polls: seq<string -> Sample>): (s: seq<Sample>)
    ensures |s| == |polls|
  {
    seq(|polls|, i requires 0 <= i < |polls| => polls[i](key))
  }

  /** Over any number of poll cycles each enabled row goes through exactly its own
      run, whatever the other rows do, and a disabled one stays as it is. */
  lemma {:induction false} RowsAreIndependent(triggers: map<string, Trigger>, polls: seq<string -> Sample>, key: string)
    requires key in triggers
    ensures key in PolledMany(triggers, polls)
    ensures PolledMany(triggers, polls)[key]
         == if triggers[key].enabled then After(triggers[key], SamplesOf(key, polls)) else triggers[key]
  {
    if polls != [] {
      var n := |polls| - 1;
      RowsAreIndependent(triggers, polls[..n], key);
      assert SamplesOf(key, polls)[..n] == SamplesOf(key, polls[..n]);
      StateAfter(triggers[key], SamplesOf(key, polls[..n]));
    }
  }
}
