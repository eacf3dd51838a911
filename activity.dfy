/**
 * The activity clock of `record_activity`: each pulse credits the gap since
 * the previous one, in whole seconds, unless that gap reached the idle
 * cutoff; the time of the pulse always becomes the new reference.
 */
module Activity {
  import opened Results

  /** A gap of this many seconds or more is a break, not work. */
  const IdleCutoff: nat := 300

  /** `Instant::elapsed` in whole seconds; a monotonic clock never reports a negative gap. */
  function Elapsed(last: int, now: int): nat {
    if now >= last then now - last else 0
  }

  /** What a pulse at `now` adds to active time, given the previous reference. */
  function Credit(last: Option<int>, now: int): (c: nat)
    ensures c < IdleCutoff
    ensures c > 0 ==> last.Some? && c == now - last.value
  {
    match last
    case None => 0
    case Some(t) => if Elapsed(t, now) < IdleCutoff then Elapsed(t, now) else 0
  }

  /** The cutoff is exclusive: a gap of 299 s counts in full, a gap of 300 s not at all. */
  lemma CutoffIsExclusive(t: int)
    ensures Credit(Some(t), t + IdleCutoff - 1) == IdleCutoff - 1
    ensures Credit(Some(t), t + IdleCutoff) == 0
  {
  }

  /** A pulse credits its whole gap exactly when the gap is below the cutoff. */
  lemma CreditIff(t: int, now: int)
    requires now >= t
    ensures Credit(Some(t), now) == now - t <==> now - t < IdleCutoff
  {
  }

  /** Active seconds after pulses at the given instants, the reference starting at `start`. */
  function ActiveAfter(start: int, pulses: seq<int>): nat {
    if pulses == [] then 0
    else
      var prev := if |pulses| == 1 then start else pulses[|pulses| - 2];
      ActiveAfter(start, pulses[..|pulses| - 1]) + Credit(Some(prev), pulses[|pulses| - 1])
  }

  predicate Ordered(start: int, pulses: seq<int>) {
    (forall i :: 0 <= i < |pulses| ==> start <= pulses[i]) &&
    (forall i, j :: 0 <= i < j < |pulses| ==> pulses[i] <= pulses[j])
  }

  /**
   * Active time never exceeds the wall-clock time the pulses span, so the
   * idle time derived from it is not negative when the session ends after
   * the last pulse.
   */
  lemma {:induction false} ActiveWithinWallTime(start: int, pulses: seq<int>)
    requires Ordered(start, pulses)
    ensures ActiveAfter(start, pulses) <= (if pulses == [] then 0 else pulses[|pulses| - 1] - start)
  {
    if pulses != [] {
      var before := pulses[..|pulses| - 1];
      assert Ordered(start, before);
      ActiveWithinWallTime(start, before);
    }
  }

  /** Each pulse adds less than the cutoff. */
  lemma {:induction false} ActiveBoundedByPulses(start: int, pulses: seq<int>)
    ensures ActiveAfter(start, pulses) <= (IdleCutoff - 1) * |pulses|
  {
    if pulses != [] {
      ActiveBoundedByPulses(start, pulses[..|pulses| - 1]);
    }
  }

  /** Pulses at 0 s, 10 s and 400 s after a start at 0 s: only the 10 s gap is active. */
  lemma LongBreakNotCounted()
    ensures ActiveAfter(0, [0, 10, 400]) == 10
  {
    assert [0, 10, 400][..2] == [0, 10];
    assert [0, 10][..1] == [0];
    assert [0][..0] == [];
  }
}
