// The staged works (ALTMiner.c): a list ordered by staging time, with a counter of rollable works that
// two of its operations forget to lower.
module Staged {
  import opened Wrappers
  import opened Rolling
  import opened Sequences

  function Count(s: seq<Work>): (n: nat)
    ensures n <= |s|
  {
    if s == [] then 0 else Count(s[..|s| - 1]) + if s[|s| - 1].Rollable() then 1 else 0
  }

  lemma {:induction false} CountConcat(a: seq<Work>, b: seq<Work>)
    ensures Count(a + b) == Count(a) + Count(b)
    decreases |b|
  {
    if b == [] {
      assert a + b == a;
    } else {
      CountConcat(a, b[..|b| - 1]);
      assert (a + b)[..|a + b| - 1] == a + b[..|b| - 1];
    }
  }

  lemma {:induction false} CountAll(s: seq<Work>)
    ensures Count(s) == |s| <==> forall i :: 0 <= i < |s| ==> s[i].Rollable()
    ensures Count(s) == 0 <==> forall i :: 0 <= i < |s| ==> !s[i].Rollable()
  {
    if s != [] {
      CountAll(s[..|s| - 1]);
    }
  }

  lemma CountRemove(s: seq<Work>, i: nat)
    requires i < |s|
    ensures Count(s) == Count(s[..i] + s[i + 1..]) + if s[i].Rollable() then 1 else 0
  {
    hide Count;
    SplitAt(s, i);
    CountOne(s[i]);
    CountSplit(s[..i], s[i], s[i + 1..]);
  }

  lemma CountSplit(a: seq<Work>, w: Work, b: seq<Work>)
    ensures Count(a + [w] + b) == Count(a + b) + Count([w])
  {
    hide Count;
    CountConcat(a, b);
    CountConcat(a + [w], b);
    CountConcat(a, [w]);
  }

  lemma CountOne(w: Work)
    ensures Count([w]) == if w.Rollable() then 1 else 0
    ensures Count([]) == 0
  {
    assert [w][..0] == [];
  }

  // ---------- the order ----------

  ghost predicate Ordered(s: seq<Work>) {
    forall i, j :: 0 <= i < j < |s| ==> s[i].stagedSec <= s[j].stagedSec
  }

  function Insert(s: seq<Work>, w: Work): (t: seq<Work>)
    ensures |t| == |s| + 1
  {
    if s == [] || s[|s| - 1].stagedSec <= w.stagedSec then s + [w]
    else Insert(s[..|s| - 1], w) + [s[|s| - 1]]
  }

  // HASH_SORT with tv_sort.
  function StableSort(s: seq<Work>): (t: seq<Work>)
    ensures |t| == |s|
  {
    if s == [] then [] else Insert(StableSort(s[..|s| - 1]), s[|s| - 1])
  }

  // The works staged in one second, in their order.
  function OfSecond(s: seq<Work>, sec: int): seq<Work> {
    if s == [] then []
    else OfSecond(s[..|s| - 1], sec) + if s[|s| - 1].stagedSec == sec then [s[|s| - 1]] else []
  }

  lemma {:induction false} OfSecondConcat(a: seq<Work>, b: seq<Work>, sec: int)
    ensures OfSecond(a + b, sec) == OfSecond(a, sec) + OfSecond(b, sec)
    decreases |b|
  {
    if b == [] {
      assert a + b == a;
    } else {
      OfSecondConcat(a, b[..|b| - 1], sec);
      assert (a + b)[..|a + b| - 1] == a + b[..|b| - 1];
    }
  }

  // Where a work is inserted into an ordered list: after all that are not staged later.
  lemma {:induction false} InsertSplits(s: seq<Work>, w: Work) returns (i: nat)
    requires Ordered(s)
    ensures i <= |s| && Insert(s, w) == s[..i] + [w] + s[i..]
    ensures forall k :: 0 <= k < i ==> s[k].stagedSec <= w.stagedSec
    ensures forall k :: i <= k < |s| ==> s[k].stagedSec > w.stagedSec
  {
    if s == [] || s[|s| - 1].stagedSec <= w.stagedSec {
      i := |s|;
    } else {
      var n := |s| - 1;
      i := InsertSplits(s[..n], w);
      assert s[..n][..i] == s[..i] && s[..n][i..] + [s[n]] == s[i..];
    }
  }

  lemma InsertOrdered(s: seq<Work>, w: Work)
    requires Ordered(s)
    ensures Ordered(Insert(s, w))
  {
    var i := InsertSplits(s, w);
  }

  lemma InsertOfSecond(s: seq<Work>, w: Work, sec: int)
    requires Ordered(s)
    ensures OfSecond(Insert(s, w), sec) == OfSecond(s + [w], sec)
  {
    hide OfSecond;
    hide Insert;
    var i := InsertSplits(s, w);
    assert s == s[..i] + s[i..];
    OfSecondConcat(s[..i], s[i..], sec);
    OfSecondConcat(s[..i] + [w], s[i..], sec);
    OfSecondConcat(s[..i], [w], sec);
    OfSecondConcat(s, [w], sec);
    if sec == w.stagedSec {
      NoneOfSecond(s[i..], sec);
    } else {
      NoneOfSecond([w], sec);
    }
  }

  lemma {:induction false} NoneOfSecond(s: seq<Work>, sec: int)
    requires forall i :: 0 <= i < |s| ==> s[i].stagedSec != sec
    ensures OfSecond(s, sec) == []
  {
    if s != [] {
      NoneOfSecond(s[..|s| - 1], sec);
    }
  }

  // The sort orders the works and keeps the order of those staged in one second.
  lemma {:induction false} StableSortMeans(s: seq<Work>)
    ensures Ordered(StableSort(s))
    ensures forall sec :: OfSecond(StableSort(s), sec) == OfSecond(s, sec)
  {
    hide Ordered;
    hide Insert;
    hide OfSecond;
    if s == [] {
      NothingOrdered();
    } else {
      var n := |s| - 1;
      StableSortMeans(s[..n]);
      InsertOrdered(StableSort(s[..n]), s[n]);
      forall sec
        ensures OfSecond(StableSort(s), sec) == OfSecond(s, sec)
      {
        SortStep(s, sec);
      }
    }
  }

  lemma NothingOrdered()
    ensures Ordered([])
  {
  }

  lemma SortStep(s: seq<Work>, sec: int)
    requires s != [] && Ordered(StableSort(s[..|s| - 1]))
    requires OfSecond(StableSort(s[..|s| - 1]), sec) == OfSecond(s[..|s| - 1], sec)
    ensures OfSecond(StableSort(s), sec) == OfSecond(s, sec)
  {
    var n := |s| - 1;
    var t := StableSort(s[..n]);
    assert StableSort(s) == Insert(t, s[n]);
    hide StableSort;
    hide OfSecond;
    hide Insert;
    InsertOfSecond(t, s[n], sec);
    OfSecondConcat(t, [s[n]], sec);
    OfSecondConcat(s[..n], [s[n]], sec);
    assert s[..n] + [s[n]] == s;
  }

  lemma InsertLast(s: seq<Work>, w: Work)
    requires s != [] ==> s[|s| - 1].stagedSec <= w.stagedSec
    ensures Insert(s, w) == s + [w]
  {
  }

  lemma {:induction false} OrderedIsSorted(s: seq<Work>)
    requires Ordered(s)
    ensures StableSort(s) == s
  {
    if s != [] {
      var n := |s| - 1;
      OrderedIsSorted(s[..n]);
      InsertLast(s[..n], s[n]);
      hide Insert;
      assert s[..n] + [s[n]] == s;
    }
  }

  // Sorting an ordered list with one more work at its end is an insertion.
  lemma PushSorts(s: seq<Work>, w: Work)
    requires Ordered(s)
    ensures StableSort(s + [w]) == Insert(s, w)
  {
    OrderedIsSorted(s);
    assert (s + [w])[..|s + [w]| - 1] == s;
  }

  // ---------- removal ----------

  function In(gone: set<Work>): Work -> bool {
    w => w in gone
  }

  // The works that are not in a set.
  function Without(s: seq<Work>, gone: set<Work>): seq<Work> {
    Kept(s, In(gone))
  }

  lemma {:induction false} WithoutOrdered(s: seq<Work>, gone: set<Work>)
    requires Ordered(s)
    ensures Ordered(Without(s, gone))
  {
    if s != [] {
      var n := |s| - 1;
      var t := Without(s[..n], gone);
      WithoutOrdered(s[..n], gone);
      KeptMembers(s[..n], In(gone));
      KeptStep(s, In(gone));
      forall i | 0 <= i < |t|
        ensures t[i].stagedSec <= s[n].stagedSec
      {
        assert t[i] in s[..n];
      }
    }
  }

  lemma {:induction false} WithoutCount(s: seq<Work>, gone: set<Work>)
    ensures Count(Without(s, gone)) <= Count(s)
  {
    if s != [] {
      var n := |s| - 1;
      WithoutCount(s[..n], gone);
      KeptStep(s, In(gone));
      assert Count(s) == Count(s[..n]) + if s[n].Rollable() then 1 else 0;
      if s[n] in gone {
        assert Without(s, gone) == Without(s[..n], gone);
      } else {
        CountExtend(Without(s[..n], gone), s[n]);
        assert Without(s, gone) == Without(s[..n], gone) + [s[n]];
      }
    }
  }

  lemma CountExtend(s: seq<Work>, w: Work)
    ensures Count(s + [w]) == Count(s) + if w.Rollable() then 1 else 0
  {
    assert (s + [w])[..|s|] == s;
  }

  lemma RemoveOrdered(s: seq<Work>, i: nat)
    requires Ordered(s) && i < |s|
    ensures Ordered(s[..i] + s[i + 1..])
  {
  }

  // ---------- hash_pop ----------

  // The first work that is not rollable.
  function FirstPlain(s: seq<Work>): (i: nat)
    ensures i <= |s|
    ensures i < |s| ==> !s[i].Rollable()
    ensures forall k :: 0 <= k < i ==> s[k].Rollable()
  {
    if s == [] then 0
    else
      var i := FirstPlain(s[..|s| - 1]);
      if i < |s| - 1 || !s[|s| - 1].Rollable() then i else |s|
  }

  // Which work hash_pop takes: the oldest clone if the counter leaves room for one, else the oldest work.
  function Popped(s: seq<Work>, counter: int): (i: nat) {
    if |s| > counter then FirstPlain(s) else 0
  }

  // A counter that is not too small guarantees that a work is found.
  lemma PopFindsWork(s: seq<Work>, counter: int)
    requires s != [] && counter >= Count(s)
    ensures Popped(s, counter) < |s|
    ensures s[Popped(s, counter)].Rollable() ==> |s| <= counter
  {
    CountAll(s);
  }

  // If there are no more works than the counter the oldest is taken, else the oldest that is a clone or cannot be
  // rolled; only that one leaves the list.
  ghost predicate Takes(s: seq<Work>, counter: int, work: Work, rest: seq<Work>) {
    if |s| <= counter then s != [] && work == s[0] && rest == s[1..]
    else
      && (work.clone || work.rolltime == 0)
      && exists i ::
           && 0 <= i < |s| && work == s[i] && rest == s[..i] + s[i + 1..]
           && forall k :: 0 <= k < i ==> !s[k].clone && s[k].rolltime > 0
  }

  lemma {:induction false} PoppedTakes(s: seq<Work>, counter: int)
    requires s != [] && counter >= Count(s)
    ensures var i := Popped(s, counter);
            i < |s| && Takes(s, counter, s[i], s[..i] + s[i + 1..])
  {
    PopFindsWork(s, counter);
    hide Count;
    if |s| <= counter {
      assert s[..0] + s[1..] == s[1..];
    } else {
      TakesPlain(s, counter, FirstPlain(s));
    }
    hide Takes;
  }

  lemma {:induction false} TakesPlain(s: seq<Work>, counter: int, i: nat)
    requires |s| > counter && i < |s| && !s[i].Rollable() && forall k :: 0 <= k < i ==> s[k].Rollable()
    ensures Takes(s, counter, s[i], s[..i] + s[i + 1..])
  {
  }

  // With a counter that is too small there is a list on which no work is found.
  lemma SmallCounterFindsNone(w: Work)
    requires w.Rollable()
    ensures Popped([w], Count([w]) - 1) == |[w]|
  {
    assert Count([]) == 0 && [w][..0] == [];
    assert Count([w]) == 1;
  }

  // Masters are meant to be kept while there are clones. Exactly what the drift of the counter breaks:
  // a rollable work is taken when there are no more other works than the drift, and the oldest work is one. Then
  // that is taken; otherwise the oldest work that is not rollable.
  lemma PopTakesMasterIff(s: seq<Work>, drift: nat)
    requires s != []
    ensures var i := Popped(s, Count(s) + drift);
            && i < |s|
            && (s[i].Rollable() <==> |s| - Count(s) <= drift && s[0].Rollable())
            && (s[i].Rollable() ==> i == 0)
            && (!s[i].Rollable() ==> forall k :: 0 <= k < i ==> s[k].Rollable())
  {
    CountAll(s);
  }

  // With a drift of one the master m is taken although a clone is staged behind it.
  lemma DriftTakesMaster(m: Work, c: Work)
    requires m.Rollable() && c.clone
    ensures Popped([m, c], Count([m, c]) + 1) == 0
    ensures Popped([m, c], Count([m, c])) == 1
  {
    CountPair(m, c);
    assert [m, c][..1] == [m] && [m][..0] == [];
  }

  lemma CountPair(m: Work, c: Work)
    requires m.Rollable() && c.clone
    ensures Count([m, c]) == 1
  {
    CountOne(m);
    assert [m, c][..1] == [m];
  }

  // ---------- the list ----------

  // The works that are not clones are in order with the clones they gave.
  ghost predicate AllFamilies(s: seq<Work>)
    reads s, set i, k | 0 <= i < |s| && 0 <= k < |s[i].given| :: s[i].given[k]
  {
    forall i :: 0 <= i < |s| && !s[i].clone ==> s[i].Family()
  }

  lemma InsertFamilies(s: seq<Work>, w: Work)
    requires Ordered(s) && AllFamilies(s) && (w.clone || w.Family())
    ensures AllFamilies(Insert(s, w))
  {
    hide Insert;
    var i := InsertSplits(s, w);
  }

  lemma SubsetFamilies(s: seq<Work>, t: seq<Work>)
    requires AllFamilies(s) && forall i :: 0 <= i < |t| ==> t[i] in s
    ensures AllFamilies(t)
  {
  }

  class Staging {
    var staged: seq<Work>
    var stagedRollable: int
    var frozen: bool

    // The rollable works that left the list, or never entered it, without being counted.
    ghost var drift: nat

    ghost predicate Valid()
      reads this
    {
      Ordered(staged) && stagedRollable == Count(staged) + drift
    }

    constructor ()
      ensures Valid() && staged == [] && !frozen && drift == 0
    {
      staged, stagedRollable, frozen, drift := [], 0, false, 0;
    }

    ghost predicate Families()
      reads this, staged, set i, k | 0 <= i < |staged| && 0 <= k < |staged[i].given| :: staged[i].given[k]
    {
      AllFamilies(staged)
    }

    // hash_push; the counter is raised even when the queue is frozen and the work is refused.
    method Push(work: Work) returns (ok: bool)
      requires Valid()
      modifies `staged, `stagedRollable, `drift
      ensures Valid() && ok == !frozen
      ensures ok ==> drift == old(drift) && staged == Insert(old(staged), work)
      ensures !ok ==> staged == old(staged) && drift == old(drift) + if work.Rollable() then 1 else 0
      ensures old(Families()) && (work.clone || work.Family()) ==> Families()
    {
      hide AllFamilies;
      hide Insert;
      hide StableSort;
      hide Count;
      hide Ordered;
      if Families() && (work.clone || work.Family()) {
        InsertFamilies(staged, work);
      }
      ok := true;
      if work.Rollable() {
        stagedRollable := stagedRollable + 1;
      }
      if !frozen {
        PushSorts(staged, work);
        InsertOrdered(staged, work);
        InsertCount(staged, work);
        staged := staged + [work];
        staged := StableSort(staged);
      } else {
        ok := false;
        drift := drift + if work.Rollable() then 1 else 0;
      }
    }

    static lemma InsertCount(s: seq<Work>, w: Work)
      requires Ordered(s)
      ensures Count(Insert(s, w)) == Count(s) + if w.Rollable() then 1 else 0
    {
      var i := InsertSplits(s, w);
      var t := Insert(s, w);
      CountRemove(t, i);
      assert t[..i] + t[i + 1..] == s;
    }

    // Delete the works of a set while iterating over the list; the counter is left alone.
    method Delete(gone: set<Work>) returns (cleared: nat)
      requires Valid()
      modifies `staged, `drift
      ensures Valid() && drift >= old(drift)
      ensures staged == Without(old(staged), gone) && cleared == |old(staged)| - |staged|
      ensures drift == old(drift) + Count(old(staged)) - Count(staged)
      ensures old(Families()) ==> Families()
    {
      hide Ordered;
      hide Kept;
      hide Sweeping;
      hide AllFamilies;
      hide Count;
      ghost var all := staged;
      KeptMembers(all, In(gone));
      if Families() {
        SubsetFamilies(all, Without(all, gone));
      }
      SweepStarts(all, In(gone));
      var i := 0;
      cleared := 0;
      while i < |staged|
        invariant Sweeping(all, In(gone), i + cleared, i, staged) && cleared + |staged| == |all|
        invariant drift == old(drift)
        decreases |staged| - i
      {
        SweepStep(all, In(gone), i + cleared, i, staged);
        if staged[i] in gone {
          staged := staged[..i] + staged[i + 1..];
          cleared := cleared + 1;
        } else {
          i := i + 1;
        }
      }
      SweepEnds(all, In(gone), i + cleared, i, staged);
      WithoutOrdered(all, gone);
      WithoutCount(all, gone);
      drift := drift + (Count(all) - Count(staged));
    }

    // discard_stale
    method DiscardStale(stale: set<Work>) returns (discarded: nat)
      requires Valid()
      modifies `staged, `drift
      ensures Valid() && stagedRollable == old(stagedRollable)
      ensures staged == Without(old(staged), stale) && discarded == |old(staged)| - |staged|
      ensures old(Families()) ==> Families()
    {
      hide AllFamilies;
      discarded := Delete(stale);
    }

    // clear_pool_work
    method ClearPoolWork(pool: int)
      requires Valid()
      modifies `staged, `drift
      ensures Valid() && stagedRollable == old(stagedRollable)
      ensures staged == Without(old(staged), set w | w in old(staged) && w.pool == pool)
      ensures old(Families()) ==> Families()
    {
      hide AllFamilies;
      var cleared := Delete(set w | w in staged && w.pool == pool);
    }

    // hash_pop, from the moment when the list is not empty.
    method Pop() returns (work: Work)
      requires Valid() && staged != []
      modifies `staged, `stagedRollable
      ensures Valid() && drift == old(drift)
      ensures var i := Popped(old(staged), old(stagedRollable));
              i < |old(staged)| && work == old(staged)[i] && staged == old(staged)[..i] + old(staged)[i + 1..]
      ensures Takes(old(staged), old(stagedRollable), work, staged)
      ensures stagedRollable == old(stagedRollable) - if !work.clone && work.rolltime > 0 then 1 else 0
      ensures old(Families()) ==> Families()
    {
      hide AllFamilies;
      hide Count;
      hide Ordered;
      hide Takes;
      PoppedTakes(staged, stagedRollable);
      var hc := |staged|;
      var i := 0;
      PopFindsWork(staged, stagedRollable);
      if hc > stagedRollable {
        while i < |staged| && staged[i].Rollable()
          invariant i <= FirstPlain(staged)
        {
          i := i + 1;
        }
      }
      work := staged[i];
      CountRemove(staged, i);
      RemoveOrdered(staged, i);
      if Families() {
        SubsetFamilies(staged, staged[..i] + staged[i + 1..]);
      }
      staged := staged[..i] + staged[i + 1..];
      if work.Rollable() {
        stagedRollable := stagedRollable - 1;
      }
    }

    // clone_available: the oldest work that may be rolled gives a clone. `may` stands for should_roll
    // and the test for stale work.
    method CloneAvailable(may: set<Work>) returns (clone: Option<Work>)
      requires Valid() && Families()
      modifies staged
      ensures Valid() && Families() && staged == old(staged)
      ensures clone.None? <==> forall w :: w in staged ==>
                w.stratum || !w.hasPool || w.rolltime == 0 || w.clone || old(w.rolls) >= 7000 || w !in may
      ensures clone.None? ==> forall w :: w in staged ==> unchanged(w)
      ensures clone.Some? ==>
                exists i ::
                  && 0 <= i < |staged| && fresh(clone.value) && clone.value.clone
                  && !staged[i].stratum && staged[i].hasPool && staged[i].rolltime > 0 && !staged[i].clone
                  && old(staged[i].rolls) < 7000 && staged[i] in may
                  && (forall k :: 0 <= k < i ==> !(old(staged[k].CanRoll()) && staged[k] in may))
                  && staged[i].given == old(staged[i].given) + [clone.value]
                  && staged[i].rolls == old(staged[i].rolls) + 2 && clone.value.rolls == staged[i].rolls - 1
                  && (forall w :: w in staged && w != staged[i] ==> unchanged(w))
    {
      clone := None;
      CountAll(staged);
      if stagedRollable == 0 {
        assert forall w :: w in staged ==> !w.Rollable();
        return;
      }
      var i := 0;
      while i < |staged|
        invariant i <= |staged|
        invariant forall k :: 0 <= k < i ==> !(staged[k].CanRoll() && staged[k] in may)
      {
        if staged[i].CanRoll() && staged[i] in may {
          var copy := RollAt(i);
          clone := Some(copy);
          return;
        }
        i := i + 1;
      }
    }

    // Rolling one staged work leaves the families of the others as they are.
    method RollAt(i: nat) returns (copy: Work)
      requires i < |staged| && staged[i].CanRoll() && Families()
      modifies staged[i]
      ensures Families() && fresh(copy) && copy.clone
      ensures staged[i].given == old(staged[i].given) + [copy]
      ensures staged[i].rolls == old(staged[i].rolls) + 2 && copy.rolls == staged[i].rolls - 1
    {
      var work := staged[i];
      assert work in staged;
      work.FamilyReady();
      copy := work.RollCloneRoll();
      forall j | 0 <= j < |staged| && !staged[j].clone
        ensures staged[j].Family()
      {
        var w := staged[j];
        if w != work {
          assert old(w.Family());
          assert forall k :: 0 <= k < |w.given| ==> w.given[k] != work;
        }
      }
    }
  }
}
