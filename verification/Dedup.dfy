/** Suppressing repeats with a bounded memory: what gets through after any history. */
module Dedup {
  import opened Lru
  import opened Counting

  /** Whether v, coming after history, is taken for new by a memory of the cap latest values. */
  predicate Passes(history: seq<nat>, v: nat, cap: nat) {
    v !in Take(Recency(history), cap)
  }

  /** What gets through, in order. */
  function Passed(history: seq<nat>, cap: nat): seq<nat>
    decreases |history|
  {
    if history == [] then []
    else
      var n := |history| - 1;
      Passed(history[..n], cap) + if Passes(history[..n], history[n], cap) then [history[n]] else []
  }

  /** v passes exactly when it is new or at least cap distinct others came since it came last. */
  lemma PassesIff(history: seq<nat>, v: nat, cap: nat)
    ensures Passes(history, v, cap) <==> v !in history || OthersSince(history, v) >= cap
  {
    KeptIff(history, v, cap);
  }

  /** The k-th of history is a repeat of v after cap or more distinct others. */
  ghost predicate LateRepeat(history: seq<nat>, k: nat, v: nat, cap: nat) {
    && k < |history|
    && history[k] == v
    && v in history[..k]
    && OthersSince(history[..k], v) >= cap
  }

  /** A late repeat of the front is one of the whole, and the other way round but for the last. */
  lemma LateRepeatSnoc(front: seq<nat>, last: nat, k: nat, v: nat, cap: nat)
    requires k <= |front|
    ensures LateRepeat(front + [last], k, v, cap)
       <==> if k < |front| then LateRepeat(front, k, v, cap)
            else last == v && v in front && OthersSince(front, v) >= cap
  {
    assert (front + [last])[..k] == front[..k];
    assert front[..|front|] == front;
  }

  lemma NewPasses(history: seq<nat>, v: nat, cap: nat)
    requires v !in history
    ensures Passes(history, v, cap)
  {
    KeptIff(history, v, cap);
  }

  lemma PassedSnoc(front: seq<nat>, last: nat, cap: nat)
    ensures Passed(front + [last], cap) == Passed(front, cap) + if Passes(front, last, cap) then [last] else []
  {
    assert (front + [last])[..|front|] == front;
  }

  lemma CountPassedSnoc(front: seq<nat>, last: nat, v: nat, cap: nat)
    ensures Count(Passed(front + [last], cap), v)
         == Count(Passed(front, cap), v) + if last == v && Passes(front, v, cap) then 1 else 0
  {
    PassedSnoc(front, last, cap);
    CountSnoc(Passed(front, cap), last, v);
    assert Passed(front, cap) + [] == Passed(front, cap);
  }

  /** What came at all gets through at least once. */
  lemma {:induction false} PassedAtLeastOnce(history: seq<nat>, v: nat, cap: nat)
    ensures Count(Passed(history, cap), v) > 0 <==> v in history
    decreases |history|
  {
    if history != [] {
      var front, last := history[..|history| - 1], history[|history| - 1];
      assert history == front + [last];
      PassedAtLeastOnce(front, v, cap);
      CountPassedSnoc(front, last, v, cap);
      if v !in front {
        NewPasses(front, v, cap);
      }
    }
  }

  /** A value gets through more than once exactly when it is repeated after cap or more distinct others. */
  lemma {:induction false} OnceIff(history: seq<nat>, v: nat, cap: nat)
    ensures Count(Passed(history, cap), v) <= 1 <==> forall k: nat :: !LateRepeat(history, k, v, cap)
    decreases |history|
  {
    if history != [] {
      var front, last := history[..|history| - 1], history[|history| - 1];
      assert history == front + [last];
      OnceIff(front, v, cap);
      PassesIff(front, v, cap);
      PassedAtLeastOnce(front, v, cap);
      CountPassedSnoc(front, last, v, cap);
      forall k: nat | k <= |front|
        ensures LateRepeat(history, k, v, cap)
           <==> if k < |front| then LateRepeat(front, k, v, cap)
                else last == v && v in front && OthersSince(front, v) >= cap
      {
        LateRepeatSnoc(front, last, k, v, cap);
      }
      if forall k: nat :: !LateRepeat(history, k, v, cap) {
        forall k: nat
          ensures !LateRepeat(front, k, v, cap)
        {
          assert !LateRepeat(history, k, v, cap);
        }
        assert !LateRepeat(history, |front|, v, cap);
      }
    }
  }

  /** With fewer than cap other values about, a value never gets through twice. */
  lemma FewValuesPassOnce(history: seq<nat>, v: nat, cap: nat)
    requires |Values(history) - {v}| < cap
    ensures Count(Passed(history, cap), v) <= 1
  {
    forall k: nat
      ensures !LateRepeat(history, k, v, cap)
    {
      if k < |history| && v in history[..k] {
        var since := Since(history[..k], v);
        assert forall x :: x in since ==> x in history;
        SubsetSize(Values(since), Values(history) - {v});
      }
    }
    OnceIff(history, v, cap);
  }

  lemma {:induction false} SubsetSize(a: set<nat>, b: set<nat>)
    requires a <= b
    ensures |a| <= |b|
    decreases |a|
  {
    if a != {} {
      var x :| x in a;
      SubsetSize(a - {x}, b - {x});
    }
  }

  // ----- The cache step by step -----

  function Touched(kept: seq<nat>, v: nat, cap: nat): seq<nat> {
    if v in kept then ToFront(kept, v) else Take(ToFront(kept, v), cap)
  }

  /** Asking whether v is there and putting it if it is not keeps the cap latest values of the history. */
  lemma TouchedIsRecency(history: seq<nat>, v: nat, cap: nat)
    ensures Take(Recency(history + [v]), cap) == Touched(Take(Recency(history), cap), v, cap)
  {
    assert (history + [v])[..|history|] == history;
    RecencyDistinct(history);
    TakeToFront(Recency(history), v, cap);
    var kept := Take(Recency(history), cap);
    TakeDistinct(Recency(history), cap);
    if v in kept {
      var i :| 0 <= i < |kept| && kept[i] == v;
      WithoutAt(kept, i);
    }
  }

  /** What a cache holds that is asked for each value of history, and given it if it is not there. */
  function Memory(history: seq<nat>, cap: nat): seq<nat>
    decreases |history|
  {
    if history == [] then []
    else Touched(Memory(history[..|history| - 1], cap), history[|history| - 1], cap)
  }

  lemma {:induction false} MemoryIsRecency(history: seq<nat>, cap: nat)
    ensures Memory(history, cap) == Take(Recency(history), cap)
    decreases |history|
  {
    if history != [] {
      var front, last := history[..|history| - 1], history[|history| - 1];
      assert history == front + [last];
      MemoryIsRecency(front, cap);
      TouchedIsRecency(front, last, cap);
    }
  }

  /** Of two caches that see the same values, the smaller holds the front of what the larger holds. */
  lemma SmallerIsPrefix(history: seq<nat>, m: nat, n: nat)
    requires m <= n
    ensures Memory(history, m) <= Memory(history, n)
  {
    MemoryIsRecency(history, m);
    MemoryIsRecency(history, n);
  }
}
