// The timing history of the Icarus driver (driver-icarus.c): samples are summed into the newest of
// eleven slots; a full slot is shifted down and the line is estimated again from the last ten.
module Icarus {
  import opened Wrappers
  import opened LeastSquares

  const INFO_HISTORY := 10
  const MIN_DATA_COUNT := 5
  const MAX_MIN_DATA_COUNT := 100
  // Sixty seconds, in microseconds.
  const HISTORY_TIME := 60_000_000

  const ICARUS_WAIT_TIMEOUT := 100
  const ICARUS_READ_REDUCE := ICARUS_WAIT_TIMEOUT * 3 / 2
  const NONCES: real := 4294967296.0

  // The conversion of a real number to an int drops the fraction.
  function Truncated(x: real): (r: int)
    ensures x >= 0.0 ==> r as real <= x < r as real + 1.0
    ensures x < 0.0 ==> r as real - 1.0 < x <= r as real
  {
    if x >= 0.0 then x.Floor else -((-x).Floor)
  }

  // The time of all nonces on a line, and how long to wait for a reply before it has passed; a limit of
  // zero is none.
  function FullNonce(line: Line): real {
    line.w + line.h * NONCES
  }

  function ReadTime(line: Line, limit: int): (r: int)
    ensures limit > 0 ==> r <= limit
    ensures FullNonce(line) >= 0.0 ==> (r + 150) as real <= FullNonce(line) * 1000.0
    ensures FullNonce(line) >= 0.0 && (limit <= 0 || r < limit) ==> FullNonce(line) * 1000.0 < (r + 151) as real
    ensures FullNonce(line) < 0.0 ==> (r + 149) as real < FullNonce(line) * 1000.0 <= (r + 150) as real
  {
    var r := Truncated(FullNonce(line) * 1000.0) - ICARUS_READ_REDUCE;
    if limit > 0 && r > limit then limit else r
  }

  // One slot. A smallest count of zero means that there is no sample yet.
  datatype History = History(finish: int, sums: Moments, least: nat, most: nat)

  const NONE := History(0, Moments(0, 0.0, 0.0, 0.0, 0.0), 0, 0)

  datatype Line = Line(h: real, w: real)

  function Lower(least: nat, x: nat): nat {
    if least > x || least == 0 then x else least
  }

  function Higher(most: nat, x: nat): nat {
    if most < x then x else most
  }

  ghost predicate Positive(s: seq<Sample>) {
    forall i :: 0 <= i < |s| ==> s[i].x > 0
  }

  // The smallest and the greatest hash count of a set; both are zero for an empty set.
  ghost predicate Bounds(s: seq<Sample>, least: nat, most: nat) {
    && (forall i :: 0 <= i < |s| ==> least <= s[i].x <= most)
    && if s == [] then least == most == 0
       else (exists i :: 0 <= i < |s| && s[i].x == least) && (exists i :: 0 <= i < |s| && s[i].x == most)
  }

  lemma BoundsMerge(a: seq<Sample>, b: seq<Sample>, l: nat, m: nat, p: nat, q: nat)
    requires Positive(a) && Positive(b) && Bounds(a, l, m) && Bounds(b, p, q) && b != []
    ensures Bounds(a + b, Lower(l, p), Higher(m, q))
  {
    var s := a + b;
    assert forall i :: 0 <= i < |a| ==> s[i] == a[i];
    assert forall i :: 0 <= i < |b| ==> s[|a| + i] == b[i];
    var i :| 0 <= i < |b| && b[i].x == p;
    var j :| 0 <= j < |b| && b[j].x == q;
    assert s[|a| + i].x == p && s[|a| + j].x == q;
    if a != [] {
      var i :| 0 <= i < |a| && a[i].x == l;
      var j :| 0 <= j < |a| && a[j].x == m;
      assert s[i].x == l && s[j].x == m;
    }
  }

  lemma BoundsOfOne(y: Sample)
    ensures Bounds([y], y.x, y.x)
  {
    assert [y][0].x == y.x;
  }

  // What a slot holds for the samples it has seen.
  ghost predicate Summary(h: History, s: seq<Sample>) {
    h.sums == Sums(s) && Bounds(s, h.least, h.most)
  }

  // All samples of some sets.
  ghost function Joined(sets: seq<seq<Sample>>): seq<Sample> {
    if sets == [] then [] else Joined(sets[..|sets| - 1]) + sets[|sets| - 1]
  }

  ghost function Kept(done: seq<seq<Sample>>): seq<seq<Sample>> {
    if |done| <= INFO_HISTORY then done else done[..INFO_HISTORY]
  }

  // The samples of the last ten completed sets; `done` has the newest set first.
  ghost function Recent(done: seq<seq<Sample>>): seq<Sample> {
    Joined(Kept(done))
  }

  // The set that belongs in a slot.
  ghost function InSlot(current: seq<Sample>, done: seq<seq<Sample>>, i: nat): seq<Sample> {
    if i == 0 then current else if i - 1 < |done| then done[i - 1] else []
  }

  // Least squares: no line has a smaller squared error and no other line has the same.
  ghost predicate BestLine(s: seq<Sample>, best: Line) {
    forall h: real, w: real ::
      && Error(s, best.h, best.w) <= Error(s, h, w)
      && (Error(s, best.h, best.w) == Error(s, h, w) ==> h == best.h && w == best.w)
  }

  lemma EstimateIsBest(s: seq<Sample>)
    requires Differ(s)
    ensures Spread(Sums(s)) > 0.0 && |s| > 0
    ensures BestLine(s, Line(Slope(Sums(s)), Offset(Sums(s))))
  {
    SpreadPositiveIff(s);
    forall h: real, w: real
      ensures var m := Sums(s);
              && Error(s, Slope(m), Offset(m)) <= Error(s, h, w)
              && (Error(s, Slope(m), Offset(m)) == Error(s, h, w) ==> h == Slope(m) && w == Offset(m))
    {
      EstimateIsLeastSquares(s, h, w);
    }
  }

  // Samples on one line have that line as their best line, and no other.
  lemma BestLineOfLine(s: seq<Sample>, best: Line, h: real, w: real)
    requires BestLine(s, best)
    requires forall i :: 0 <= i < |s| ==> s[i].t == h * s[i].x as real + w
    ensures best == Line(h, w)
  {
    NoErrorOnLine(s, h, w);
    assert Error(s, best.h, best.w) <= Error(s, h, w);
  }

  // The number of samples a set needs after k completed sets: 5, 10, 20, 40, 80, and then 160 for good.
  function Needed(k: nat): (n: nat)
    ensures MIN_DATA_COUNT <= n <= 160
  {
    if k == 0 then 5 else if k == 1 then 10 else if k == 2 then 20 else if k == 3 then 40
    else if k == 4 then 80 else 160
  }

  // Every slot summarises its set.
  ghost predicate Slots(hs: seq<History>, current: seq<Sample>, done: seq<seq<Sample>>) {
    && |hs| == INFO_HISTORY + 1
    && (forall i :: 0 <= i <= INFO_HISTORY ==> Summary(hs[i], InSlot(current, done, i)))
  }

  // Every completed set was as large as needed when it was completed.
  ghost predicate Sets(current: seq<Sample>, done: seq<seq<Sample>>) {
    && Positive(current)
    && (forall i :: 0 <= i < |done| ==> Positive(done[i]) && |done[i]| >= Needed(|done| - 1 - i))
  }

  function AddTo(h: History, y: Sample): History {
    History(h.finish, Combine(h.sums, Single(y)), Lower(h.least, y.x), Higher(h.most, y.x))
  }

  function MergeInto(a: History, b: History): History {
    History(a.finish, Combine(a.sums, b.sums), Lower(a.least, b.least), Higher(a.most, b.most))
  }

  lemma NoneIsEmpty(finish: int)
    ensures Summary(NONE, []) && Sums([]) == NONE.sums
  {
  }

  lemma AddToSummary(h: History, s: seq<Sample>, y: Sample)
    requires Summary(h, s) && Positive(s) && y.x > 0
    ensures Summary(AddTo(h, y), s + [y]) && Positive(s + [y])
  {
    hide Combine;
    hide Single;
    BoundsOfOne(y);
    BoundsMerge(s, [y], h.least, h.most, y.x, y.x);
    assert (s + [y])[..|s + [y]| - 1] == s;
    SumsStep(s + [y]);
  }

  lemma AccumulateSlots(hs: seq<History>, now: seq<History>, current: seq<Sample>, done: seq<seq<Sample>>, f: int,
                        y: Sample)
    requires Slots(hs, current, done) && Sets(current, done) && y.x > 0
    requires now == hs[0 := AddTo(hs[0].(finish := f), y)]
    ensures Slots(now, current + [y], done) && Sets(current + [y], done)
  {
    hide AddTo;
    assert Summary(hs[0], InSlot(current, done, 0));
    assert Summary(hs[0].(finish := f), current) by { hide Bounds; hide Sums; }
    AddToSummary(hs[0].(finish := f), current, y);
    hide Summary;
    forall i | 0 <= i <= INFO_HISTORY
      ensures Summary(now[i], InSlot(current + [y], done, i))
    {
      assert Summary(hs[i], InSlot(current, done, i));
    }
  }

  lemma ShiftSlots(hs: seq<History>, now: seq<History>, current: seq<Sample>, done: seq<seq<Sample>>)
    requires Slots(hs, current, done) && Sets(current, done) && |current| >= Needed(|done|)
    requires now == [NONE] + hs[..INFO_HISTORY]
    ensures Slots(now, [], [current] + done) && Sets([], [current] + done)
  {
    NoneIsEmpty(0);
    hide Summary;
    forall i | 0 <= i <= INFO_HISTORY
      ensures Summary(now[i], InSlot([], [current] + done, i))
    {
      if i > 0 {
        assert Summary(hs[i - 1], InSlot(current, done, i - 1));
      }
    }
  }

  lemma MergeStep(a: History, b: History, done: seq<seq<Sample>>, k: nat)
    requires k < |done| && Summary(b, done[k]) && Positive(done[k]) && done[k] != []
    requires Positive(Joined(done[..k])) && Summary(a, Joined(done[..k]))
    ensures Positive(Joined(done[..k + 1])) && Summary(MergeInto(a, b), Joined(done[..k + 1]))
  {
    hide Combine;
    hide Sums;
    hide Bounds;
    assert done[..k + 1][..k] == done[..k];
    SumsConcat(Joined(done[..k]), done[k]);
    BoundsMerge(Joined(done[..k]), done[k], a.least, a.most, b.least, b.most);
  }

  // One turn of the merging loop: exactly the slots of completed sets hold five samples or more.
  lemma MergeTurn(hs: seq<History>, done: seq<seq<Sample>>, i: nat, n: nat, a: History)
    requires |hs| == INFO_HISTORY + 1 && 1 <= i <= INFO_HISTORY && Sets([], done)
    requires Summary(hs[i], InSlot([], done, i))
    requires n == if i - 1 <= |done| then i - 1 else |done|
    requires Positive(Joined(done[..n])) && Summary(a, Joined(done[..n]))
    ensures hs[i].sums.n >= MIN_DATA_COUNT <==> i <= |done|
    ensures i <= |done| ==> Positive(Joined(done[..n + 1])) && Summary(MergeInto(a, hs[i]), Joined(done[..n + 1]))
  {
    hide Joined;
    hide MergeInto;
    hide Bounds;
    hide Needed;
    NeededAtLeast(|done| - i);
    if i <= |done| {
      MergeStep(a, hs[i], done, n);
    }
  }

  lemma NeededAtLeast(k: int)
    ensures k >= 0 ==> Needed(k) >= MIN_DATA_COUNT
  {
  }

  lemma JoinedNotEmpty(sets: seq<seq<Sample>>)
    requires sets != [] && forall i :: 0 <= i < |sets| ==> sets[i] != []
    ensures Joined(sets) != []
  {
  }

  lemma RecentNotEmpty(done: seq<seq<Sample>>)
    requires Sets([], done) && done != []
    ensures Recent(done) != []
  {
    forall i | 0 <= i < |done|
      ensures done[i] != []
    {
      NeededAtLeast(|done| - 1 - i);
    }
    JoinedNotEmpty(Kept(done));
  }

  ghost predicate Range(s: seq<Sample>, r: int) {
    exists least: nat, most: nat :: Bounds(s, least, most) && r == most - least
  }

  // ---------- which results become samples ----------

  const END_CONDITION: bv32 := 0x0000ffff

  // The hashes done until the nonce was found, by all chips together.
  function HashCount(nonce: bv32, mask: bv32, fpgaCount: nat): int {
    ((nonce & mask) as int + 1) * fpgaCount
  }

  predicate Inside(n: bv32, mask: bv32) {
    n > END_CONDITION && n < mask & !END_CONDITION
  }

  // Results near the ends of the range of nonces are not taken. Those that fail the check of the nonce are
  // meant not to be, but the test compares the wrong way.
  predicate Taken(nonce: bv32, mask: bv32, errorsBefore: nat, errorsAfter: nat) {
    errorsBefore <= errorsAfter && Inside(nonce & mask, mask)
  }

  // Submitting a bad nonce adds an error, and that never keeps a result out.
  lemma ErrorsAreTaken(nonce: bv32, mask: bv32, errors: nat)
    ensures Taken(nonce, mask, errors, errors + 1) <==> Taken(nonce, mask, errors, errors)
    ensures Taken(0x0001_0000, 0x7fffffff, errors, errors + 1)
  {
  }

  // Of the blocks of 65536 nonces neither the first nor the last.
  predicate Inner(n: bv32, mask: bv32) {
    n >> 16 > 0 && n >> 16 < mask >> 16
  }

  // These are exactly the results that are taken; a smaller number of errors afterwards, which a reset of the
  // statistics may cause, keeps a result out.
  lemma TakenBetween(nonce: bv32, mask: bv32, before: nat, after: nat)
    ensures Taken(nonce, mask, before, after) <==> before <= after && Inner(nonce & mask, mask)
  {
    hide Inside;
    hide Inner;
    InsideIsInner(nonce & mask, mask);
  }

  lemma InsideIsInner(n: bv32, mask: bv32)
    ensures Inside(n, mask) <==> Inner(n, mask)
  {
    Blocks(n, mask);
  }

  lemma Blocks(n: bv32, mask: bv32)
    ensures n > 0xFFFF && n < mask & 0xFFFF0000 <==> n >> 16 > 0 && n >> 16 < mask >> 16
  {
  }

  class IcarusInfo {
    const shortMode: bool
    const nonceMask: bv32
    const fpgaCount: nat
    const history: array<History>
    var minDataCount: nat
    var doTiming: bool
    var count: nat
    var values: nat
    var range: int
    const readTimeLimit: int
    var estimate: Option<Line>
    var fullNonce: real
    var readTime: int

    // The samples of the set being filled, when its first one started, and the completed sets.
    ghost var current: seq<Sample>
    ghost var begun: int
    ghost var done: seq<seq<Sample>>

    ghost predicate Valid()
      reads this, history
    {
      && fpgaCount > 0
      && Slots(history[..], current, done)
      && Sets(current, done)
      && minDataCount == Needed(|done|)
      && (current != [] ==> history[0].finish == begun + HISTORY_TIME)
      && (doTiming <==> !(shortMode && |done| >= 6))
    }

    constructor (short: bool, nonceMask: bv32, fpgaCount: nat, readTimeLimit: int)
      requires fpgaCount > 0
      ensures Valid() && fresh(history)
      ensures current == [] && done == [] && shortMode == short && estimate == None
      ensures this.readTimeLimit == readTimeLimit && this.nonceMask == nonceMask && this.fpgaCount == fpgaCount
    {
      shortMode, this.nonceMask, this.fpgaCount := short, nonceMask, fpgaCount;
      history := new History[INFO_HISTORY + 1](_ => NONE);
      minDataCount, doTiming, count, values, range := MIN_DATA_COUNT, true, 0, 0, 0;
      this.readTimeLimit := readTimeLimit;
      estimate, fullNonce, readTime := None, 0.0, 0;
      current, begun, done := [], 0, [];
      NoneIsEmpty(0);
    }

    // Sum one sample into the newest slot.
    method Accumulate(start: int, y: Sample)
      requires Slots(history[..], current, done) && Sets(current, done) && y.x > 0
      requires current != [] ==> history[0].finish == begun + HISTORY_TIME
      modifies history, `current, `begun
      ensures current == old(current) + [y] && begun == if old(current) == [] then start else old(begun)
      ensures Slots(history[..], current, done) && Sets(current, done)
      ensures history[0].finish == begun + HISTORY_TIME
    {
      hide Slots;
      hide Sets;
      FirstSlot(history[..], current, done);
      ghost var was := history[..];
      if history[0].sums.n == 0 {
        history[0] := history[0].(finish := start + HISTORY_TIME);
        begun := start;
      }
      ghost var f := history[0].finish;
      history[0] := history[0].(sums := Combine(history[0].sums, Single(y)));
      history[0] := history[0].(most := Higher(history[0].most, y.x));
      history[0] := history[0].(least := Lower(history[0].least, y.x));
      assert history[..] == was[0 := AddTo(was[0].(finish := f), y)];
      AccumulateSlots(was, history[..], current, done, f, y);
      current := current + [y];
    }

    static lemma FirstSlot(hs: seq<History>, current: seq<Sample>, done: seq<seq<Sample>>)
      requires Slots(hs, current, done)
      ensures |hs| == INFO_HISTORY + 1 && Summary(hs[0], current) && hs[0].sums.n == |current|
    {
      assert Summary(hs[0], InSlot(current, done, 0));
    }

    // Copy every slot one place down and clear the newest.
    method MoveSlots()
      requires history.Length == INFO_HISTORY + 1
      modifies history
      ensures history[..] == [NONE] + old(history[..])[..INFO_HISTORY]
    {
      ghost var was := history[..];
      var i := INFO_HISTORY;
      while i > 0
        invariant 0 <= i <= INFO_HISTORY
        invariant forall k :: 0 <= k <= i ==> history[k] == was[k]
        invariant forall k :: i < k <= INFO_HISTORY ==> history[k] == was[k - 1]
      {
        history[i] := history[i - 1];
        i := i - 1;
      }
      history[0] := NONE;
    }

    // The current set becomes the newest completed one; the slot of the eleventh is lost.
    method Shift()
      requires Slots(history[..], current, done) && Sets(current, done) && |current| >= Needed(|done|)
      modifies history, `current, `done
      ensures current == [] && done == [old(current)] + old(done)
      ensures Slots(history[..], current, done) && Sets(current, done)
      ensures history.Length == INFO_HISTORY + 1 && history[0] == NONE
    {
      FirstSlot(history[..], current, done);
      hide Slots;
      hide Sets;
      hide Needed;
      hide Summary;
      ghost var was := history[..];
      MoveSlots();
      ShiftSlots(was, history[..], current, done);
      done := [current] + done;
      current := [];
    }

    // Add up the slots of completed sets into the newest one, and count them.
    method Merge() returns (sets: nat)
      requires Slots(history[..], [], done) && Sets([], done) && history[0] == NONE
      modifies history
      ensures sets == |Kept(done)|
      ensures history.Length == INFO_HISTORY + 1 && Summary(history[0], Recent(done))
      ensures history[..] == old(history[..])[0 := history[0]]
    {
      hide Summary;
      hide Sets;
      hide Joined;
      hide Positive;
      NoneIsEmpty(0);
      NothingJoined();
      sets := 0;
      assert done[..0] == [];
      var i := 1;
      while i <= INFO_HISTORY
        invariant 1 <= i <= INFO_HISTORY + 1
        invariant sets == if i - 1 <= |done| then i - 1 else |done|
        invariant forall k :: 0 < k <= INFO_HISTORY ==> history[k] == old(history[..])[k]
        invariant Positive(Joined(done[..sets])) && Summary(history[0], Joined(done[..sets]))
      {
        assert history[i] == old(history[..])[i];
        assert Summary(old(history[..])[i], InSlot([], done, i));
        MergeTurn(history[..], done, i, sets, history[0]);
        if history[i].sums.n >= MIN_DATA_COUNT {
          ghost var merged := MergeInto(history[0], history[i]);
          sets := sets + 1;
          history[0] := history[0].(sums := Combine(history[0].sums, history[i].sums));
          history[0] := history[0].(most := Higher(history[0].most, history[i].most));
          history[0] := history[0].(least := Lower(history[0].least, history[i].least));
          assert history[0] == merged;
        }
        i := i + 1;
      }
      assert done[..sets] == Kept(done);
    }

    static lemma NothingJoined()
      ensures Joined([]) == [] && Positive(Joined([]))
    {
    }

    // The estimate from the merged sums, and the spread of the hash counts.
    method Estimate(ghost s: seq<Sample>)
      requires history.Length == INFO_HISTORY + 1 && Summary(history[0], s) && s != []
      modifies `values, `range, `estimate, `fullNonce, `readTime
      ensures Fits(s)
    {
      SpreadPositiveIff(s);
      var m := history[0].sums;
      values := m.n;
      range := history[0].most - history[0].least;
      if Differ(s) {
        EstimateIsBest(s);
      }
      hide Sums;
      hide Bounds;
      hide BestLine;
      hide Differ;
      hide Slope;
      hide Offset;
      hide Spread;
      if Spread(m) == 0.0 {
        estimate := None;
      } else {
        estimate := Some(Line(Slope(m), Offset(m)));
        fullNonce := Offset(m) + Slope(m) * NONCES;
        readTime := Truncated(fullNonce * 1000.0) - ICARUS_READ_REDUCE;
        if readTimeLimit > 0 && readTime > readTimeLimit {
          readTime := readTimeLimit;
        }
      }
    }

    // What an estimate says about its samples.
    ghost predicate Fits(s: seq<Sample>)
      reads `values, `range, `estimate, `fullNonce, `readTime
    {
      && values == |s|
      && Range(s, range)
      && (estimate.Some? <==> Differ(s))
      && (estimate.Some? ==>
            && BestLine(s, estimate.value)
            && fullNonce == estimate.value.w + estimate.value.h * 4294967296.0
            && readTime == ReadTime(estimate.value, readTimeLimit))
    }

    // One timed result. If it is taken as a sample and completes a set, the line is estimated from the last ten
    // sets. The two numbers of hardware errors are those before and after the nonce is submitted.
    method AddSample(start: int, nonce: bv32, time: real, errorsBefore: nat, errorsAfter: nat)
      requires Valid()
      modifies this, history
      ensures Valid()
      ensures !old(doTiming) || !Taken(nonce, nonceMask, errorsBefore, errorsAfter) ==>
                current == old(current) && done == old(done) && estimate == old(estimate)
      ensures old(doTiming) && Taken(nonce, nonceMask, errorsBefore, errorsAfter) ==>
                var y := Sample(((nonce & nonceMask) as int + 1) * fpgaCount, time);
                var all := old(current) + [y];
                var since := if old(current) == [] then start else old(begun);
                if |all| >= Needed(|old(done)|) && start > since + 60_000_000
                then current == [] && done == [all] + old(done) && Fits(Recent(done)) && count == |Kept(done)|
                else current == all && begun == since && done == old(done) && estimate == old(estimate)
    {
      hide Slots;
      hide Sets;
      hide Summary;
      hide Recent;
      hide Fits;
      hide Needed;
      NeededSteps(|done|);
      var wasHwError := errorsBefore > errorsAfter;
      if doTiming && !wasHwError && nonce & nonceMask > END_CONDITION
         && nonce & nonceMask < nonceMask & !END_CONDITION {
        var y := Sample(HashCount(nonce, nonceMask, fpgaCount), time);
        Accumulate(start, y);
        FirstSlot(history[..], current, done);
        if history[0].sums.n >= minDataCount && start > history[0].finish {
          CompleteSet();
        }
      }
    }

    static lemma NeededSteps(k: nat)
      ensures k < 5 <==> Needed(k) < MAX_MIN_DATA_COUNT
      ensures Needed(k + 1) == if Needed(k) < MAX_MIN_DATA_COUNT then 2 * Needed(k) else Needed(k)
    {
    }

    // A set is complete: shift, merge, estimate, and raise the number of samples the next one needs.
    method CompleteSet()
      requires Slots(history[..], current, done) && Sets(current, done) && |current| >= Needed(|done|)
      requires minDataCount == Needed(|done|) && doTiming && !(shortMode && |done| >= 6)
      requires fpgaCount > 0
      modifies this, history
      ensures Valid()
      ensures current == [] && done == [old(current)] + old(done)
      ensures Fits(Recent(done)) && count == |Kept(done)|
    {
      hide Slots;
      hide Sets;
      hide Summary;
      hide Recent;
      hide Fits;
      hide Kept;
      hide Needed;
      NeededSteps(|done|);
      Shift();
      ghost var hs := history[..];
      count := Merge();
      RecentNotEmpty(done);
      Estimate(Recent(done));
      history[0] := NONE;
      assert history[..] == hs;
      if minDataCount < MAX_MIN_DATA_COUNT {
        minDataCount := 2 * minDataCount;
      } else if shortMode {
        doTiming := false;
      }
    }
  }
}
