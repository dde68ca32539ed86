// The sequence-numbered work ring the HashFast driver shares with its device.
module HashFast {
  import opened Wrappers
  import opened Ring
  import Sequences

  datatype Work = Work(id: nat)

  // HF_SEQUENCE_DISTANCE(tx, rx) for sequence numbers modulo n.
  function Distance(tx: int, rx: int, n: nat): int {
    if tx >= rx then tx - rx else n + tx - rx
  }

  // ---------- the ring as a queue, over whole runs ----------

  // `jobs` is the number of sends hfa_scanwork still intends to make.  The device names sequence numbers
  // modulo n; `tail` is the number of the last work it finished.  `lost` is the first work that is sent
  // after a shut-down, if any.
  datatype State = State(n: nat, inflight: nat, tail: int, outstanding: seq<Work>, jobs: int, shutdown: bool,
                         lost: seq<Work>, sent: seq<Work>, freed: seq<Work>)

  datatype Step = CountJobs | CountLate(free: int) | Send(work: Work) | Status(deviceTail: nat)

  function Initial(n: nat, inflight: nat): State {
    State(n, inflight, 0, [], 0, false, [], [], [])
  }

  function CountJobsStep(s: State): State {
    if s.shutdown then s else s.(jobs := s.inflight - |s.outstanding|)
  }

  // A scan that was about to count when the driver was shut down still counts, with the tail that the device
  // reported: the free places may be any number and are cut to the target. No further scan starts.
  function CountLateStep(s: State, free: int): State {
    if s.shutdown && s.lost == [] then s.(jobs := if free > s.inflight then s.inflight else free) else s
  }

  // A scan that is under way makes its sends even if the driver is shut down meanwhile.
  function SendStep(s: State, w: Work): State {
    if s.jobs <= 0 then s
    else if s.shutdown && s.lost == [] then s.(lost := [w], jobs := s.jobs - 1, sent := s.sent + [w])
    else s.(outstanding := s.outstanding + [w], jobs := s.jobs - 1, sent := s.sent + [w])
  }

  // The device may only report a number between the tail and the head of the outstanding window.
  predicate InWindow(s: State, deviceTail: nat) {
    deviceTail < s.n && Distance(deviceTail, s.tail, s.n) <= |s.outstanding|
  }

  // An in-window report frees the works up to it; any other report frees everything and shuts down.
  function StatusStep(s: State, deviceTail: nat): State {
    if s.shutdown then s
    else if InWindow(s, deviceTail) then
      var d := Distance(deviceTail, s.tail, s.n);
      if 0 <= d <= |s.outstanding| then
        s.(tail := deviceTail, outstanding := s.outstanding[d..], freed := s.freed + s.outstanding[..d])
      else s
    else s.(tail := 0, outstanding := [], freed := s.freed + s.outstanding, shutdown := true)
  }

  function NextState(s: State, step: Step): State {
    match step
    case CountJobs => CountJobsStep(s)
    case CountLate(free) => CountLateStep(s, free)
    case Send(w) => SendStep(s, w)
    case Status(t) => StatusStep(s, t)
  }

  function Run(s: State, steps: seq<Step>): State {
    if steps == [] then s else NextState(Run(s, steps[..|steps| - 1]), steps[|steps| - 1])
  }

  // Works are freed once each, in the order they were sent, and the window stays within the target even
  // when status reports interleave with the send loop.
  ghost predicate Fifo(s: State) {
    && s.sent == s.freed + s.lost + s.outstanding
    && |s.lost| + |s.outstanding| <= s.inflight && (s.shutdown && s.lost == [] ==> s.outstanding == [])
    && (s.jobs > 0 ==> s.jobs + |s.lost| + |s.outstanding| <= s.inflight)
    && 0 <= s.tail < s.n && |s.lost| <= 1 && (!s.shutdown ==> s.lost == [])
  }

  lemma {:induction false} RunIsFifo(n: nat, inflight: nat, steps: seq<Step>)
    requires 0 < n
    ensures var s := Run(Initial(n, inflight), steps);
            Fifo(s) && s.n == n && s.inflight == inflight && s.freed <= s.sent
  {
    hide Fifo;
    hide NextState;
    if steps == [] {
      InitialFifo(n, inflight);
    } else {
      RunIsFifo(n, inflight, steps[..|steps| - 1]);
      NextFifo(Run(Initial(n, inflight), steps[..|steps| - 1]), steps[|steps| - 1]);
    }
    FreedFirst(Run(Initial(n, inflight), steps));
  }

  lemma InitialFifo(n: nat, inflight: nat)
    requires 0 < n
    ensures Fifo(Initial(n, inflight))
  {
  }

  lemma FreedFirst(s: State)
    requires Fifo(s)
    ensures s.freed <= s.sent
  {
  }

  lemma NextFifo(s: State, step: Step)
    requires Fifo(s)
    ensures var t := NextState(s, step);
            Fifo(t) && t.n == s.n && t.inflight == s.inflight
  {
    match step
    case CountJobs =>
    case CountLate(free) =>
    case Send(w) => SendFifo(s, w);
    case Status(t) => StatusFifo(s, t);
  }

  lemma SendFifo(s: State, w: Work)
    requires Fifo(s)
    ensures Fifo(SendStep(s, w))
  {
    if s.shutdown && s.lost == [] {
      assert s.outstanding == [] ==> s.freed + [w] + [] == s.freed + [] + [] + [w];
    } else {
      assert s.freed + s.lost + (s.outstanding + [w]) == (s.freed + s.lost + s.outstanding) + [w];
    }
  }

  lemma StatusFifo(s: State, deviceTail: nat)
    requires Fifo(s)
    ensures Fifo(StatusStep(s, deviceTail))
  {
    if !s.shutdown {
      assert s.sent == s.freed + s.outstanding;
      if InWindow(s, deviceTail) {
        var d := Distance(deviceTail, s.tail, s.n);
        FreedSplit(s.freed, s.outstanding, d);
      }
    }
  }

  lemma FreedSplit(freed: seq<Work>, q: seq<Work>, d: int)
    ensures 0 <= d <= |q| ==> freed + q[..d] + [] + q[d..] == freed + q
  {
    if 0 <= d <= |q| {
      assert q == q[..d] + q[d..];
    }
  }

  // Not every work is freed: the device reports a tail outside the window during a scan, which then sends w.
  lemma SentAfterShutdownIsLost(w: Work)
    ensures var s := Run(Initial(8, 4), [CountJobs, Status(5), Send(w)]);
            s.lost == [w] && s.sent == [w] && s.freed == []
  {
    RunStep(Initial(8, 4), [], CountJobs);
    RunStep(Initial(8, 4), [CountJobs], Status(5));
    RunStep(Initial(8, 4), [CountJobs, Status(5)], Send(w));
    assert [] + [CountJobs] == [CountJobs];
    assert [CountJobs] + [Status(5)] == [CountJobs, Status(5)];
    assert [CountJobs, Status(5)] + [Send(w)] == [CountJobs, Status(5), Send(w)];
  }

  lemma RunStep(s: State, steps: seq<Step>, step: Step)
    ensures Run(s, steps + [step]) == NextState(Run(s, steps), step)
    ensures Run(s, []) == s
  {
    assert (steps + [step])[..|steps|] == steps;
  }

  // Going round the sequence numbers, a report d places ahead of the tail frees the oldest d works, if there are
  // that many outstanding.
  lemma StatusFrees(s: State, d: nat)
    requires Fifo(s) && !s.shutdown && d <= |s.outstanding| && d < s.n
    ensures var t := StatusStep(s, Sequences.Onward(s.tail, d, s.n));
            && !t.shutdown && t.tail == Sequences.Onward(s.tail, d, s.n) && t.jobs == s.jobs
            && t.freed == s.freed + s.outstanding[..d] && t.outstanding == s.outstanding[d..]
  {
  }

  // Every other report frees all works and shuts the driver down.
  lemma StatusShutsDown(s: State, deviceTail: nat)
    requires Fifo(s) && !s.shutdown
    requires forall d :: 0 <= d <= |s.outstanding| && d < s.n ==> deviceTail != Sequences.Onward(s.tail, d, s.n)
    ensures var t := StatusStep(s, deviceTail);
            t.shutdown && t.freed == s.freed + s.outstanding && t.outstanding == []
  {
    var d := Distance(deviceTail, s.tail, s.n);
    assert 0 <= d < s.n && deviceTail < s.n ==> deviceTail == Sequences.Onward(s.tail, d, s.n);
  }

  function Sends(works: seq<Work>): (steps: seq<Step>)
    ensures |steps| == |works|
  {
    seq(|works|, i requires 0 <= i < |works| => Send(works[i]))
  }

  // A scan counts and then fills the window exactly to the target.
  lemma ScanFills(s: State, works: seq<Work>)
    requires Fifo(s) && !s.shutdown && |works| == s.inflight - |s.outstanding|
    ensures var t := Run(CountJobsStep(s), Sends(works));
            t.jobs == 0 && t.outstanding == s.outstanding + works && |t.outstanding| == t.inflight
  {
    SendAllOf(CountJobsStep(s), works);
  }

  lemma {:induction false} SendAllOf(s: State, works: seq<Work>)
    requires !s.shutdown && s.jobs >= |works|
    ensures Run(s, Sends(works))
         == s.(outstanding := s.outstanding + works, jobs := s.jobs - |works|, sent := s.sent + works)
    decreases |works|
  {
    var steps := Sends(works);
    if works == [] {
      assert s.outstanding + works == s.outstanding && s.sent + works == s.sent;
    } else {
      var n := |works| - 1;
      SendAllOf(s, works[..n]);
      assert steps[..n] == Sends(works[..n]);
      assert works == works[..n] + [works[n]];
      assert s.outstanding + works == s.outstanding + works[..n] + [works[n]];
      assert s.sent + works == s.sent + works[..n] + [works[n]];
    }
  }

  // ---------- the target must stay below the modulus ----------

  // The slots and the head after sending `works` into an empty ring.
  function SendAll(n: nat, works: seq<Work>): (r: (seq<Option<Work>>, int))
    requires 0 < n
    ensures |r.0| == n && 0 <= r.1 < n
    decreases |works|
  {
    if works == [] then (seq(n, _ => None), 0)
    else
      var (a, head) := SendAll(n, works[..|works| - 1]);
      var sequence := Increment(head, n);
      (a[sequence := Some(works[|works| - 1])], sequence)
  }

  lemma {:induction false} FitsBelowModulus(n: nat, works: seq<Work>)
    requires 0 < n && |works| < n
    ensures var (a, head) := SendAll(n, works);
            Holds(a, 0, Increment(head, n), works)
    decreases |works|
  {
    if works != [] {
      var w := works[..|works| - 1];
      FitsBelowModulus(n, w);
      var (a, head) := SendAll(n, w);
      Push(a, 0, Increment(head, n), w, works[|works| - 1]);
      assert works == w + [works[|works| - 1]];
    }
  }

  lemma {:induction false} OverrunFillsTailSlot(n: nat, works: seq<Work>)
    requires 0 < n
    ensures |works| < n ==> SendAll(n, works).1 == |works|
    ensures |works| >= n ==> SendAll(n, works).0[0].Some?
    decreases |works|
  {
    if works != [] {
      OverrunFillsTailSlot(n, works[..|works| - 1]);
    }
  }

  // Filling an idle ring up to the in-flight target leaves works[] non-null exactly between tail and head
  // if and only if the target is below the sequence modulus.
  lemma TargetMustFit(n: nat, inflight: nat, works: seq<Work>)
    requires 0 < n && |works| == inflight
    ensures var (a, head) := SendAll(n, works);
            (exists q :: Holds(a, 0, Increment(head, n), q)) <==> inflight < n
  {
    if inflight < n {
      FitsBelowModulus(n, works);
    } else {
      OverrunFillsTailSlot(n, works);
      var (a, head) := SendAll(n, works);
      assert !Occupied(0, 0, Increment(head, n), n);
    }
  }

  // ---------- the driver's structure ----------

  class HashfastInfo {
    const numSequence: nat
    const inflightTarget: nat
    const works: array<Option<Work>>
    var hashSequenceHead: int
    var hashSequenceTail: int
    var deviceSequenceTail: int
    var jobs: int
    var shutdown: bool

    ghost var lost: seq<Work>
    ghost var outstanding: seq<Work>
    ghost var sent: seq<Work>
    ghost var freed: seq<Work>

    // Until a report outside the window shuts the driver down, works[] is non-null exactly on the cyclic
    // interval (hashSequenceTail, hashSequenceHead]. The report itself clears it and leaves the tail one
    // ahead of the head, so that the first work sent after it lands on the tail, outside the interval.
    ghost predicate Valid()
      reads this, works
    {
      && 0 < numSequence && inflightTarget < numSequence && works.Length == numSequence
      && 0 <= hashSequenceHead < numSequence && 0 <= hashSequenceTail < numSequence
      && sent == freed + lost + outstanding
      && (jobs > 0 ==> jobs + |lost| + |outstanding| <= inflightTarget)
      && |lost| + |outstanding| <= inflightTarget && |lost| <= 1
      && if shutdown && lost == []
         then outstanding == [] && AllNull() && hashSequenceTail == Increment(hashSequenceHead, numSequence)
         else if shutdown then works[hashSequenceTail] == Some(lost[0]) && Slots(hashSequenceTail)
         else lost == [] && deviceSequenceTail == hashSequenceTail && Slots(-1)
    }

    ghost predicate AllNull()
      reads works
    {
      forall i :: 0 <= i < works.Length ==> works[i] == None
    }

    // The slots, except the one of a lost work, hold the outstanding works.
    ghost predicate Slots(skip: int)
      reads this, works
    {
      Holds(Masked(works[..], skip), hashSequenceTail, Increment(hashSequenceHead, numSequence), outstanding)
    }

    ghost function Abstract(): State
      reads this
    {
      State(numSequence, inflightTarget, if shutdown then 0 else hashSequenceTail, outstanding, jobs, shutdown,
            lost, sent, freed)
    }

    constructor (numSequence: nat, inflightTarget: nat)
      requires 0 < numSequence && inflightTarget < numSequence
      ensures Valid() && fresh(works) && Abstract() == Initial(numSequence, inflightTarget)
    {
      this.numSequence := numSequence;
      this.inflightTarget := inflightTarget;
      works := new Option<Work>[numSequence](_ => None);
      hashSequenceHead, hashSequenceTail, deviceSequenceTail := 0, 0, 0;
      jobs, shutdown := 0, false;
      lost, outstanding, sent, freed := [], [], [], [];
    }

    // hfa_jobs; a scan counts before it sends anything.
    method CountJobs()
      requires Valid() && (shutdown ==> lost == [])
      modifies this`jobs
      ensures var free := inflightTarget - Distance(hashSequenceHead, deviceSequenceTail, numSequence);
              Valid() && Abstract() == NextState(old(Abstract()), if shutdown then CountLate(free) else Step.CountJobs)
    {
      var free := inflightTarget - Distance(hashSequenceHead, deviceSequenceTail, numSequence);
      jobs := if free > inflightTarget then inflightTarget else free;
    }

    // One round of the send loop of hfa_scanwork, when the frame is sent.
    method Send(work: Work)
      requires Valid() && jobs > 0
      modifies this`jobs, this`hashSequenceHead, this`lost, this`outstanding, this`sent, works
      ensures Valid() && Abstract() == SendStep(old(Abstract()), work)
    {
      hide Holds;
      hide Masked;
      jobs := jobs - 1;
      ghost var skip := if shutdown then hashSequenceTail else -1;
      ghost var first := shutdown && lost == [];
      ghost var write := Increment(hashSequenceHead, numSequence);
      if first {
        PlaceLost(works[..], hashSequenceTail, work);
      } else {
        PlaceNext(works[..], skip, hashSequenceTail, write, outstanding, work);
      }
      Store(work);
      sent := sent + [work];
      if first {
        lost := [work];
      } else {
        outstanding := outstanding + [work];
      }
      SentSplits(freed, old(lost), old(outstanding), work);
    }

    // The next slot becomes the head and gets the work.
    method Store(work: Work)
      requires works.Length == numSequence && 0 <= hashSequenceHead < numSequence
      modifies this`hashSequenceHead, works
      ensures hashSequenceHead == Increment(old(hashSequenceHead), numSequence)
      ensures works[..] == old(works[..])[hashSequenceHead := Some(work)]
    {
      var sequence := hashSequenceHead + 1;
      if sequence >= numSequence {
        sequence := 0;
      }
      hashSequenceHead := sequence;
      works[hashSequenceHead] := Some(work);
    }

    static lemma SentSplits(freed: seq<Work>, lost: seq<Work>, outstanding: seq<Work>, work: Work)
      ensures freed + lost + (outstanding + [work]) == (freed + lost + outstanding) + [work]
      ensures lost == [] && outstanding == [] ==>
                freed + [work] + outstanding == (freed + lost + outstanding) + [work]
    {
    }

    // Advance the host's tail by one and free the work there; false when the slot is null.
    method FreeNext(ghost skip: int) returns (ok: bool)
      requires 0 < numSequence == works.Length && 0 <= hashSequenceHead < numSequence
      requires 0 <= hashSequenceTail < numSequence && skip != Increment(hashSequenceHead, numSequence)
      requires Slots(skip) || (outstanding == [] && AllNull())
      modifies this`hashSequenceTail, this`outstanding, this`freed, works
      ensures hashSequenceTail == Increment(old(hashSequenceTail), numSequence)
      ensures ok == (old(outstanding) != [])
      ensures ok ==> outstanding == old(outstanding)[1..] && freed == old(freed) + [old(outstanding)[0]] && Slots(skip)
      ensures !ok ==> outstanding == old(outstanding) && freed == old(freed) && works[..] == old(works[..])
      ensures !ok && old(Slots(skip)) ==> hashSequenceTail == Increment(hashSequenceHead, numSequence)
      ensures !ok && skip == -1 ==> AllNull()
    {
      TakeNext(works[..], skip, hashSequenceTail, Increment(hashSequenceHead, numSequence), outstanding);
      hide Holds;
      hide Masked;
      hashSequenceTail := hashSequenceTail + 1;
      if hashSequenceTail >= numSequence {
        hashSequenceTail := 0;
      }
      assert hashSequenceTail == Increment(old(hashSequenceTail), numSequence);
      var work := works[hashSequenceTail];
      if work.None? {
        return false;
      }
      freed, outstanding := freed + [work.value], outstanding[1..];
      works[hashSequenceTail] := None;
      assert works[..] == old(works[..])[hashSequenceTail := None];
      ok := true;
    }

    // hfa_parse_gwq_status: the reported tail is arbitrary.
    method ParseStatus(sequenceTail: nat)
      requires Valid() && !shutdown
      modifies this`hashSequenceTail, this`deviceSequenceTail, this`shutdown, this`outstanding, this`freed, works
      ensures Valid() && Abstract() == StatusStep(old(Abstract()), sequenceTail)
      ensures shutdown <==> !old(InWindow(Abstract(), sequenceTail))
    {
      hide Holds;
      hide Masked;
      deviceSequenceTail := sequenceTail;
      ghost var d := Distance(sequenceTail, hashSequenceTail, numSequence);
      ghost var k := 0;
      while deviceSequenceTail != hashSequenceTail
        invariant 0 <= hashSequenceTail < numSequence
        invariant 0 <= k <= |old(outstanding)| && |outstanding| == |old(outstanding)| - k
        invariant outstanding == old(outstanding)[k..] && freed == old(freed) + old(outstanding)[..k]
        invariant hashSequenceTail == Sequences.Onward(old(hashSequenceTail), k, numSequence)
        invariant Slots(-1) && (sequenceTail < numSequence ==> k <= d)
        invariant !shutdown && deviceSequenceTail == sequenceTail
        decreases |outstanding|
      {
        var ok := FreeNext(-1);
        if !ok {
          assert old(outstanding)[..k] == old(outstanding);
          shutdown := true;
          break;
        }
        FreedOne(old(freed), old(outstanding), k);
        k := k + 1;
      }
      assert !shutdown ==> k == d;
      FreedSplit(old(freed), old(outstanding), k);
    }

    static lemma FreedOne(freed: seq<Work>, q: seq<Work>, k: nat)
      requires k < |q|
      ensures q[k..][0] == q[k] && q[k..][1..] == q[k + 1..]
      ensures freed + q[..k] + [q[k]] == freed + q[..k + 1]
    {
    }

    // hfa_free_all_work: the guard compares two numbers the loop never changes.  The loop stops because it
    // runs into a null slot, which the ring always has. It starts behind the slot of the tail, so every work is
    // freed if and only if that slot is null, that is, none was sent after a shut-down.
    method FreeAllWork()
      requires Valid()
      modifies this`hashSequenceTail, this`outstanding, this`freed, works
      ensures freed == sent <==> old(works[hashSequenceTail]) == None
      ensures lost == [] <==> old(works[hashSequenceTail]) == None
      ensures freed == if shutdown && deviceSequenceTail == hashSequenceHead then old(freed)
                       else old(freed) + old(outstanding)
      ensures forall i :: 0 <= i < numSequence && works[i] != None ==> lost != []
    {
      hide Holds;
      hide Masked;
      ghost var skip := if shutdown && lost != [] then hashSequenceTail else -1;
      ghost var all := outstanding;
      ghost var k := 0;
      TailSlot(works[..], skip, hashSequenceTail, Increment(hashSequenceHead, numSequence), outstanding);
      GapAfterHead(works[..], skip, hashSequenceTail, Increment(hashSequenceHead, numSequence), outstanding);
      assert all[0..] == all && all[..0] == [];
      while deviceSequenceTail != hashSequenceHead
        invariant 0 <= hashSequenceTail < numSequence && (Slots(skip) || (outstanding == [] && AllNull()))
        invariant k <= |all| && outstanding == all[k..] && freed == old(freed) + all[..k]
        invariant deviceSequenceTail == hashSequenceHead ==> k == 0 && works[..] == old(works[..])
        invariant !shutdown && deviceSequenceTail == hashSequenceHead ==> all == [] && AllNull()
        decreases |outstanding|
      {
        var ok := FreeNext(skip);
        if !ok {
          assert all[..k] == all;
          break;
        }
        assert all[..k + 1] == all[..k] + [all[k]];
        k := k + 1;
      }
    }
  }

  // The slots with one left out.
  function Masked(a: seq<Option<Work>>, skip: int): (r: seq<Option<Work>>)
    ensures |r| == |a|
  {
    if 0 <= skip < |a| then a[skip := None] else a
  }

  // The first work sent after a shut-down takes the slot of the tail.
  lemma PlaceLost(a: seq<Option<Work>>, tail: int, w: Work)
    requires 0 <= tail < |a| && forall i :: 0 <= i < |a| ==> a[i] == None
    ensures Holds(Masked(a[tail := Some(w)], tail), tail, Increment(tail, |a|), [])
  {
  }

  lemma PlaceNext(a: seq<Option<Work>>, skip: int, read: int, write: int, q: seq<Work>, w: Work)
    requires Holds(Masked(a, skip), read, write, q) && |q| + 1 < |a| && (skip == -1 || skip == read)
    ensures 0 <= write < |a| && write != skip
    ensures Holds(Masked(a[write := Some(w)], skip), read, Increment(write, |a|), q + [w])
  {
    Push(Masked(a, skip), read, write, q, w);
    assert Masked(a[write := Some(w)], skip) == Masked(a, skip)[write := Some(w)];
  }

  // The slot behind the head is not the skipped one; without works and without a skipped slot all are null.
  lemma GapAfterHead(a: seq<Option<Work>>, skip: int, read: int, write: int, q: seq<Work>)
    requires skip == -1 || (skip == read && |q| + 1 < |a|)
    ensures Holds(Masked(a, skip), read, write, q) ==> skip != write
    ensures Holds(Masked(a, skip), read, write, q) && write == Increment(read, |a|) ==> q == []
    ensures Holds(Masked(a, skip), read, write, q) && q == [] && skip == -1 ==>
              forall i :: 0 <= i < |a| ==> a[i] == None
  {
    if Holds(Masked(a, skip), read, write, q) && q == [] && skip == -1 {
      assert forall i :: 0 <= i < |a| ==> !Occupied(i, read, write, |a|);
    }
  }

  // The slot of the tail is not one of the occupied ones.
  lemma TailSlot(a: seq<Option<Work>>, skip: int, read: int, write: int, q: seq<Work>)
    requires 0 <= read < |a|
    ensures Holds(Masked(a, skip), read, write, q) && skip == -1 ==> a[read] == None
  {
    if Holds(Masked(a, skip), read, write, q) && skip == -1 {
      assert !Occupied(read, read, write, |a|);
    }
  }

  lemma TakeNext(a: seq<Option<Work>>, skip: int, read: int, write: int, q: seq<Work>)
    requires 0 <= read < |a| && 0 <= write < |a| && skip != write
    requires Holds(Masked(a, skip), read, write, q) || (q == [] && forall i :: 0 <= i < |a| ==> a[i] == None)
    ensures var r := Increment(read, |a|);
            && 0 <= r < |a|
            && (q == [] ==> a[r] == None)
            && (q == [] && Holds(Masked(a, skip), read, write, q) ==> r == write)
            && (q == [] && skip == -1 ==> forall i :: 0 <= i < |a| ==> a[i] == None)
            && (q != [] ==> a[r] == Some(q[0]) && Holds(Masked(a[r := None], skip), r, write, q[1..]))
  {
    if q == [] {
      GapAfterHead(a, -1, read, write, q);
    } else {
      var r := Increment(read, |a|);
      Pop(Masked(a, skip), read, write, q);
      hide Holds;
      assert r != skip && Masked(a, skip)[r] == a[r];
      assert Masked(a[r := None], skip) == Masked(a, skip)[r := None];
    }
  }
}
