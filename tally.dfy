/** The quorum oracle `is_success`: does some proposal occur at least three times? */
module QuorumOracle {
  import opened BftTypes

  /** The agreement threshold, 3 of 4 validators (n = 3f + 1 with f = 1). */
  const QUORUM: nat := 3

  /** What `is_success` ends with: a verdict, or the panic of a u8 counter that
      is incremented past 255 (overflow checks are on in test builds). */
  datatype Verdict = Counted(success: bool) | CounterOverflow

  /** How many times `t` occurs in `v`, counted from the front as the loop does. */
  function Occurrences(v: seq<Target>, t: Target): (n: nat)
    ensures n <= |v|
    ensures n == 0 <==> t !in v
  {
    if v == [] then 0
    else
      var init := v[..|v| - 1];
      assert v == init + [v[|v| - 1]];
      Occurrences(init, t) + (if v[|v| - 1] == t then 1 else 0)
  }

  /** The reference meaning of `is_success`: it panics when some proposal occurs
      more than 255 times, and otherwise succeeds exactly when some proposal
      occurs at least QUORUM times. */
  function Tally(v: seq<Target>): (r: Verdict)
    ensures |v| < QUORUM ==> r == Counted(false)
  {
    if exists t :: t in v && Occurrences(v, t) > U8_MAX as nat then CounterOverflow
    else Counted(exists t :: t in v && Occurrences(v, t) >= QUORUM)
  }

  /** `is_success`: fill a map of u8 counters, then scan its entries in any order. */
  method IsSuccess(result: seq<Target>) returns (verdict: Verdict)
    ensures verdict == Tally(result)
  {
    var counters: map<Target, u8> := map[];
    for i := 0 to |result|
      invariant forall t :: t in counters <==> t in result[..i]
      invariant forall t :: t in counters ==> counters[t] as nat == Occurrences(result[..i], t)
    {
      var t := result[i];
      OccurrencesOfNext(result, i);
      var count: u8 := if t in counters then counters[t] else 0;
      if count == U8_MAX {
        OccurrencesOfPrefix(result, i + 1, t);
        return CounterOverflow;
      }
      ghost var before := counters;
      counters := counters[t := count + 1];
      forall u | u in counters
        ensures counters[u] as nat == Occurrences(result[..i + 1], u)
      {
        if u != t {
          assert counters[u] == before[u];
        }
      }
    }
    assert result[..|result|] == result;
    var remaining := counters.Keys;
    while remaining != {}
      invariant remaining <= counters.Keys
      invariant forall t :: t in counters && t !in remaining ==> counters[t] as nat < QUORUM
      decreases remaining
    {
      var t :| t in remaining;
      if counters[t] as nat >= QUORUM {
        return Counted(true);
      }
      remaining := remaining - {t};
    }
    return Counted(false);
  }

  /** Counting one element further along the sequence. */
  lemma OccurrencesOfNext(v: seq<Target>, i: nat)
    requires i < |v|
    ensures forall t :: Occurrences(v[..i + 1], t) == Occurrences(v[..i], t) + (if v[i] == t then 1 else 0)
  {
    assert v[..i + 1][..i] == v[..i];
  }

  /** A prefix never holds more copies of `t` than the whole sequence. */
  lemma {:induction false} OccurrencesOfPrefix(v: seq<Target>, k: nat, t: Target)
    requires k <= |v|
    ensures Occurrences(v[..k], t) <= Occurrences(v, t)
    decreases |v|
  {
    if k < |v| {
      var init := v[..|v| - 1];
      assert v[..k] == init[..k];
      OccurrencesOfPrefix(init, k, t);
    } else {
      assert v[..k] == v;
    }
  }

  /** The counted occurrences are the multiplicity of `t` in the multiset of `v`. */
  lemma {:induction false} OccurrencesIsMultiplicity(v: seq<Target>, t: Target)
    ensures Occurrences(v, t) == multiset(v)[t]
  {
    if v != [] {
      var init := v[..|v| - 1];
      assert v == init + [v[|v| - 1]];
      OccurrencesIsMultiplicity(init, t);
    }
  }

  /** The verdict stated on multiplicities alone: overflow exactly when some
      multiplicity exceeds 255, success exactly when none does and some
      multiplicity reaches QUORUM. */
  lemma TallyByMultiplicity(v: seq<Target>)
    ensures Tally(v) == CounterOverflow <==> exists t :: multiset(v)[t] > U8_MAX as nat
    ensures Tally(v) == Counted(true) <==>
      (forall t :: multiset(v)[t] <= U8_MAX as nat) && exists t :: multiset(v)[t] >= QUORUM
  {
    forall t
      ensures Occurrences(v, t) == multiset(v)[t]
      ensures t in v <==> multiset(v)[t] > 0
    {
      OccurrencesIsMultiplicity(v, t);
    }
  }

  /** `is_success` depends only on the multiset of its input. */
  lemma TallyPermutationInvariant(a: seq<Target>, b: seq<Target>)
    requires multiset(a) == multiset(b)
    ensures Tally(a) == Tally(b)
  {
    TallyByMultiplicity(a);
    TallyByMultiplicity(b);
  }
}
