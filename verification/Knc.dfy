// The two FIFO buffers of the KnC driver, updated in place as the driver does.
module Knc {
  import opened Wrappers
  import opened Ring
  import opened KncSpec
  import Sequences

  // struct active_work: an element of either buffer; work is a nullable pointer.
  datatype Slot = Slot(work: Option<Work>, workId: bv32, begin: int)

  const KNC_QUEUED_BUFFER_SIZE: nat := MAX_REQUESTS_IN_BATCH + 1
  const KNC_ACTIVE_BUFFER_SIZE: nat := MAX_ACTIVE_WORKS + 1

  // What a slot of either buffer holds, if its work is not null.
  function TagIn(s: Slot): Option<Tagged> {
    if s.work.None? then None else Some(Tagged(s.work.value, s.workId))
  }

  function EntryIn(s: Slot): Option<Entry> {
    if s.work.None? then None else Some(Entry(s.work.value, s.workId, s.begin))
  }

  function Tags(a: seq<Slot>): (r: seq<Option<Tagged>>)
    ensures |r| == |a| && forall i :: 0 <= i < |a| ==> r[i] == TagIn(a[i])
  {
    seq(|a|, i requires 0 <= i < |a| => TagIn(a[i]))
  }

  function Entries(a: seq<Slot>): (r: seq<Option<Entry>>)
    ensures |r| == |a| && forall i :: 0 <= i < |a| ==> r[i] == EntryIn(a[i])
  {
    seq(|a|, i requires 0 <= i < |a| => EntryIn(a[i]))
  }

  ghost predicate HoldsQueued(a: seq<Slot>, read: int, write: int, q: seq<Tagged>) {
    Holds(Tags(a), read, write, q)
  }

  ghost predicate HoldsActive(a: seq<Slot>, read: int, write: int, q: seq<Entry>) {
    Holds(Entries(a), read, write, q)
  }

  lemma PushQueued(a: seq<Slot>, read: int, write: int, q: seq<Tagged>, x: Slot)
    requires HoldsQueued(a, read, write, q) && read != write && x.work.Some?
    ensures HoldsQueued(a[write := x], read, Increment(write, |a|), q + [Tagged(x.work.value, x.workId)])
  {
    hide Holds;
    Bounded(Tags(a), read, write, q);
    Push(Tags(a), read, write, q, Tagged(x.work.value, x.workId));
    assert Tags(a[write := x]) == Tags(a)[write := TagIn(x)];
  }

  lemma Bounded<T>(a: seq<Option<T>>, read: int, write: int, q: seq<T>)
    requires Holds(a, read, write, q)
    ensures Bounds(read, write, |a|) && |q| == Len(read, write, |a|)
  {
  }

  lemma PushActive(a: seq<Slot>, read: int, write: int, q: seq<Entry>, e: Entry)
    requires HoldsActive(a, read, write, q) && read != write
    ensures HoldsActive(a[write := Slot(Some(e.work), e.workId, e.begin)], read, Increment(write, |a|), q + [e])
  {
    hide Holds;
    Bounded(Entries(a), read, write, q);
    Push(Entries(a), read, write, q, e);
    assert Entries(a[write := Slot(Some(e.work), e.workId, e.begin)]) == Entries(a)[write := Some(e)];
  }

  // Consuming the oldest element clears its slot.
  lemma PopQueued(a: seq<Slot>, read: int, write: int, q: seq<Tagged>)
    requires HoldsQueued(a, read, write, q) && |q| > 0
    ensures var r := Increment(read, |a|);
            && a[r].work == Some(q[0].work) && a[r].workId == q[0].workId
            && HoldsQueued(a[r := a[r].(work := None)], r, write, q[1..])
  {
    hide Holds;
    Bounded(Tags(a), read, write, q);
    Pop(Tags(a), read, write, q);
    var r := Increment(read, |a|);
    assert Tags(a[r := a[r].(work := None)]) == Tags(a)[r := None];
  }

  lemma PopActive(a: seq<Slot>, read: int, write: int, q: seq<Entry>)
    requires HoldsActive(a, read, write, q) && |q| > 0
    ensures var r := Increment(read, |a|);
            && a[r] == Slot(Some(q[0].work), q[0].workId, q[0].begin)
            && HoldsActive(a[r := a[r].(work := None)], r, write, q[1..])
  {
    hide Holds;
    Bounded(Entries(a), read, write, q);
    Pop(Entries(a), read, write, q);
    var r := Increment(read, |a|);
    assert Entries(a[r := a[r].(work := None)]) == Entries(a)[r := None];
  }

  // Completing slot i: the read index advances, the slot under it moves into i and is cleared.
  lemma RemoveActive(a: seq<Slot>, read: int, write: int, q: seq<Entry>, p: nat)
    requires HoldsActive(a, read, write, q) && p < |q|
    ensures var i, r := Index(read, p, |a|), Increment(read, |a|);
            var b := a[i := a[r]];
            HoldsActive(b[r := b[r].(work := None)], r, write, RemoveAt(q, p))
  {
    hide Holds;
    Bounded(Entries(a), read, write, q);
    PopActive(a, read, write, q);
    Overwrite(Entries(a), read, write, q, p, q[0]);
    var i := Index(read, p, |a|);
    var b := a[i := a[Increment(read, |a|)]];
    assert Entries(b) == Entries(a)[i := Some(q[0])];
    hide Entries;
    PopActive(b, read, write, q[p := q[0]]);
    assert q[p := q[0]][1..] == RemoveAt(q, p);
  }

  // How the index of a walk moves, also when the head is removed under way.
  lemma ActiveIndices(a: seq<Slot>, read: int, write: int, q: seq<Entry>, p: nat)
    requires HoldsActive(a, read, write, q) && p <= |q|
    ensures Index(read, 0, |a|) == Increment(read, |a|)
    ensures Index(read, p, |a|) == write <==> p == |q|
    ensures p < |q| ==> Increment(Index(read, p, |a|), |a|) == Index(read, p + 1, |a|)
    ensures p < |q| ==> Increment(Index(read, p, |a|), |a|) == Index(Increment(read, |a|), p, |a|)
  {
  }

  // Where the k-th element is, and what its slot holds.
  lemma ActiveAt(a: seq<Slot>, read: int, write: int, q: seq<Entry>, k: nat)
    requires HoldsActive(a, read, write, q) && k < |q|
    ensures 0 <= Index(read, k, |a|) < |a|
    ensures a[Index(read, k, |a|)] == Slot(Some(q[k].work), q[k].workId, q[k].begin)
  {
  }

  lemma QueueSizes(a: seq<Slot>, read: int, write: int, q: seq<Tagged>)
    requires HoldsQueued(a, read, write, q)
    ensures 0 <= write < |a| && |q| < |a| && (|q| + 1 == |a| <==> read == write)
  {
  }

  lemma QueuedPush(q: seq<Tagged>, t: Tagged)
    ensures QueuedWorks(q + [t]) == QueuedWorks(q) + [t.work]
  {
  }

  lemma HeldPush(q: seq<Tagged>, p: seq<Tagged>, work: Work, active: seq<Entry>, completed: seq<Work>)
    requires QueuedWorks(p) == QueuedWorks(q) + [work]
    ensures Held(Rings(p, active, completed)) == Held(Rings(q, active, completed)) + multiset{work}
  {
  }

  lemma TableInsert(table: set<Work>, work: Work)
    requires work !in table
    ensures multiset(table + {work}) == multiset(table) + multiset{work}
  {
  }

  lemma TableRemove(table: set<Work>, work: Work, held: multiset<Work>)
    requires held + multiset{work} == multiset(table)
    ensures work in table && held == multiset(table - {work})
  {
    assert multiset(table)[work] > 0;
    assert held == (held + multiset{work}) - multiset{work};
  }

  // Stamping the k-th queued slot with a work id.
  lemma StampQueued(a: seq<Slot>, read: int, write: int, q: seq<Tagged>, k: nat, id: bv32)
    requires HoldsQueued(a, read, write, q) && k < |q|
    ensures var i := Index(read, k, |a|);
            && a[i].work == Some(q[k].work)
            && HoldsQueued(a[i := a[i].(workId := id)], read, write, q[k := q[k].(workId := id)])
  {
  }

  lemma QueuedIndices(a: seq<Slot>, read: int, write: int, q: seq<Tagged>)
    requires HoldsQueued(a, read, write, q)
    ensures Index(read, 0, |a|) == Increment(read, |a|)
    ensures forall k: nat :: k <= |q| ==> (Index(read, k, |a|) == write <==> k == |q|)
    ensures forall k: nat :: k < |q| ==> Increment(Index(read, k, |a|), |a|) == Index(read, k + 1, |a|)
  {
  }

  // The first |requests| works carry their ids; `next` is the id counter for the rest.
  ghost predicate Stamping(works: seq<Work>, first: bv32, salt: bv32, requests: seq<Tagged>, next: bv32) {
    && |requests| <= |works|
    && Tag(works, first, salt) == requests + Tag(works[|requests|..], next, salt)
    && Advance(first, |works|) == Advance(next, |works| - |requests|)
  }

  lemma StampStart(works: seq<Work>, first: bv32, salt: bv32)
    ensures Stamping(works, first, salt, [], first)
  {
    assert works[0..] == works;
  }

  lemma StampStep(works: seq<Work>, first: bv32, salt: bv32, requests: seq<Tagged>, next: bv32)
    requires Stamping(works, first, salt, requests, next) && |requests| < |works|
    ensures var t := Tagged(works[|requests|], WorkId(next, salt));
            Stamping(works, first, salt, requests + [t], Plus(next, 1))
  {
    hide Tag;
    hide Advance;
    hide WorkId;
    hide Plus;
    var rest, t := works[|requests|..], Tagged(works[|requests|], WorkId(next, salt));
    assert rest[1..] == works[|requests| + 1..];
    TagStep(rest, next, salt);
    AdvanceStep(next, |works| - |requests|);
    Sequences.Regroup(requests, [t], Tag(rest[1..], Plus(next, 1), salt));
  }

  lemma TagStep(works: seq<Work>, next: bv32, salt: bv32)
    requires works != []
    ensures Tag(works, next, salt) == [Tagged(works[0], WorkId(next, salt))] + Tag(works[1..], Plus(next, 1), salt)
  {
  }

  lemma AdvanceStep(next: bv32, n: nat)
    requires n > 0
    ensures Advance(next, n) == Advance(Plus(next, 1), n - 1)
  {
  }

  lemma StampEnd(works: seq<Work>, first: bv32, salt: bv32, requests: seq<Tagged>, next: bv32)
    requires Stamping(works, first, salt, requests, next) && |requests| == |works|
    ensures requests == Tag(works, first, salt) && next == Advance(first, |works|)
  {
    assert Tag(works[|requests|..], next, salt) == [];
  }

  lemma StampWorks(q: seq<Tagged>, k: nat, id: bv32, active: seq<Entry>, completed: seq<Work>)
    requires k < |q|
    ensures QueuedWorks(q[k := q[k].(workId := id)]) == QueuedWorks(q)
    ensures Held(Rings(q[k := q[k].(workId := id)], active, completed)) == Held(Rings(q, active, completed))
  {
  }

  lemma HeldIgnoresLog(q: seq<Tagged>, active: seq<Entry>, before: seq<Work>, after: seq<Work>)
    ensures Held(Rings(q, active, after)) == Held(Rings(q, active, before))
  {
  }

  lemma EmptyQueued(a: seq<Slot>, read: int, write: int, q: seq<Tagged>)
    requires HoldsQueued(a, read, write, q)
    ensures q == [] <==> Increment(read, |a|) == write
  {
  }

  lemma FullActive(a: seq<Slot>, read: int, write: int, q: seq<Entry>)
    requires HoldsActive(a, read, write, q)
    ensures |q| + 1 >= |a| <==> read == write
  {
  }

  lemma AcceptStep(r: Rings, n: nat, now: int)
    ensures Accept(r, n, now) ==
            if n == 0 || r.queued == [] || |r.active| >= MAX_ACTIVE_WORKS then r
            else Accept(r.(queued := r.queued[1..],
                           active := r.active + [Entry(r.queued[0].work, r.queued[0].workId, now)]), n - 1, now)
  {
  }

  lemma QueuedHead(q: seq<Tagged>)
    requires q != []
    ensures QueuedWorks(q) == [q[0].work] + QueuedWorks(q[1..])
  {
  }

  lemma ActiveHead(q: seq<Entry>)
    requires q != []
    ensures ActiveWorks(q) == [q[0].work] + ActiveWorks(q[1..]) && RemoveAt(q, 0) == q[1..]
  {
  }

  lemma TakeQueued(q: seq<Tagged>, active: seq<Entry>, completed: seq<Work>)
    requires |q| > 0
    ensures Held(Rings(q[1..], active, completed)) + multiset{q[0].work} == Held(Rings(q, active, completed))
  {
    assert QueuedWorks(q) == [q[0].work] + QueuedWorks(q[1..]);
  }

  // struct knc_state together with the two fields of struct cgpu_info the driver works on:
  // unqueued_work and the table queued_work.
  class KncState {
    const queuedFifo: array<Slot>
    const activeFifo: array<Slot>
    const salt: bv32
    var nextWorkId: bv32
    var readQ: int
    var writeQ: int
    var readA: int
    var writeA: int
    var unqueuedWork: Option<Work>
    var queuedWork: set<Work>

    // What the two buffers hold, and the logs of get_queued and work_completed.
    ghost var queued: seq<Tagged>
    ghost var active: seq<Entry>
    ghost var fetched: seq<Work>
    ghost var completed: seq<Work>

    // The table queued_work holds the works of both buffers, none of them twice.
    ghost predicate Valid()
      reads this, queuedFifo, activeFifo
    {
      && queuedFifo.Length == KNC_QUEUED_BUFFER_SIZE
      && activeFifo.Length == KNC_ACTIVE_BUFFER_SIZE
      && queuedFifo != activeFifo
      && HoldsQueued(queuedFifo[..], readQ, writeQ, queued)
      && HoldsActive(activeFifo[..], readA, writeA, active)
      && Held(Buffers()) == multiset(queuedWork)
      && (unqueuedWork.Some? ==> unqueuedWork.value !in queuedWork)
    }

    ghost function Buffers(): Rings
      reads this
    {
      Rings(queued, active, completed)
    }

    ghost function Abstract(): State
      reads this
    {
      State(unqueuedWork, QueuedWorks(queued), active, nextWorkId, salt, fetched, completed)
    }

    constructor (salt: bv32)
      ensures Valid() && fresh(queuedFifo) && fresh(activeFifo)
      ensures Abstract() == Initial(salt)
    {
      queuedFifo := new Slot[KNC_QUEUED_BUFFER_SIZE](_ => Slot(None, 0, 0));
      activeFifo := new Slot[KNC_ACTIVE_BUFFER_SIZE](_ => Slot(None, 0, 0));
      this.salt := salt;
      nextWorkId := 0;
      readQ, writeQ, readA, writeA := 0, 1, 0, 1;
      unqueuedWork, queuedWork := None, {};
      queued, active, fetched, completed := [], [], [], [];
    }

    // fill_queue: a new work waits in unqueued_work unless one is waiting already.
    method Offer(work: Work)
      requires Valid() && work !in queuedWork
      modifies this`unqueuedWork
      ensures Valid() && Abstract() == OfferStep(old(Abstract()), work)
    {
      if unqueuedWork.None? {
        unqueuedWork := Some(work);
      }
    }

    method GetQueued() returns (work: Option<Work>)
      requires Valid()
      modifies this`unqueuedWork, this`queuedWork, this`fetched
      ensures work == old(unqueuedWork) && unqueuedWork == None
      ensures work.Some? ==> queuedWork == old(queuedWork) + {work.value} && fetched == old(fetched) + [work.value]
      ensures work.None? ==> queuedWork == old(queuedWork) && fetched == old(fetched)
    {
      work := None;
      if unqueuedWork.Some? {
        work := unqueuedWork;
        queuedWork := queuedWork + {work.value};
        fetched := fetched + [work.value];
        unqueuedWork := None;
      }
    }

    // work_completed: the work must be in the table.
    method WorkCompleted(work: Work)
      requires work in queuedWork
      modifies this`queuedWork, this`completed
      ensures queuedWork == old(queuedWork) - {work}
      ensures completed == old(completed) + [work]
    {
      queuedWork := queuedWork - {work};
      completed := completed + [work];
    }

    method QueueFull() returns (full: bool)
      requires Valid()
      modifies this`unqueuedWork, this`queuedWork, this`fetched, this`writeQ, this`queued, queuedFifo
      ensures Valid() && Abstract() == QueueFullStep(old(Abstract()))
      ensures full <==> |queued| == 85
      ensures if |old(queued)| < 85 && old(unqueuedWork).Some?
              then QueuedWorks(queued) == old(QueuedWorks(queued)) + [old(unqueuedWork).value] && unqueuedWork == None
              else queued == old(queued) && unqueuedWork == old(unqueuedWork)
    {
      hide HoldsQueued;
      hide HoldsActive;
      hide Held;
      QueueSizes(queuedFifo[..], readQ, writeQ, queued);
      if readQ == writeQ {
        return true;
      }
      var work := GetQueued();
      if work.None? {
        return false;
      }
      TableInsert(old(queuedWork), work.value);
      Enqueue(work.value);
      HeldPush(old(queued), queued, work.value, active, completed);
      QueueSizes(queuedFifo[..], readQ, writeQ, queued);
      full := readQ == writeQ;
    }

    // Fill the next slot with a work that is already in the table.
    method Enqueue(work: Work)
      requires queuedFifo.Length == KNC_QUEUED_BUFFER_SIZE && readQ != writeQ
      requires HoldsQueued(queuedFifo[..], readQ, writeQ, queued)
      modifies this`writeQ, this`queued, queuedFifo
      ensures HoldsQueued(queuedFifo[..], readQ, writeQ, queued)
      ensures QueuedWorks(queued) == QueuedWorks(old(queued)) + [work]
    {
      QueueSizes(queuedFifo[..], readQ, writeQ, queued);
      hide HoldsQueued;
      ghost var slot := queuedFifo[writeQ].(work := Some(work));
      PushQueued(queuedFifo[..], readQ, writeQ, queued, slot);
      QueuedPush(queued, Tagged(work, slot.workId));
      queuedFifo[writeQ] := queuedFifo[writeQ].(work := Some(work));
      writeQ := Increment(writeQ, KNC_QUEUED_BUFFER_SIZE);
      queued := queued + [Tagged(work, slot.workId)];
      assert queuedFifo[..] == old(queuedFifo[..])[old(writeQ) := slot];
    }

    // Remove the entry in slot i from the active ring and give its work back.
    method CompleteActive(i: int, ghost p: nat)
      requires Valid() && p < |active| && i == Index(readA, p, KNC_ACTIVE_BUFFER_SIZE)
      modifies this`readA, this`queuedWork, this`completed, this`active, activeFifo
      ensures Valid() && Buffers() == Complete(old(Buffers()), p)
      ensures readA == Increment(old(readA), KNC_ACTIVE_BUFFER_SIZE)
    {
      ghost var a := activeFifo[..];
      CompleteAccount(Buffers(), p);
      RemoveActive(a, readA, writeA, active, p);
      var work := activeFifo[i].work;
      TableRemove(queuedWork, active[p].work, Held(Complete(Buffers(), p)));

      readA := Increment(readA, KNC_ACTIVE_BUFFER_SIZE);
      WorkCompleted(work.value);
      if i != readA {
        activeFifo[i] := activeFifo[readA];
      }
      activeFifo[readA] := activeFifo[readA].(work := None);
      active := RemoveAt(active, p);
      ghost var b := a[i := a[readA]];
      assert activeFifo[..] == b[readA := b[readA].(work := None)];
    }

    // The walk over the active ring that looks for a work id and completes stale entries on the way.
    method FindActive(id: bv32, now: int) returns (i: int, ghost p: nat)
      requires Valid()
      modifies this`readA, this`queuedWork, this`completed, this`active, activeFifo
      ensures Valid()
      ensures (Buffers(), p) == Scan(old(Buffers()), 0, id, now)
      ensures p <= |active| && i == Index(readA, p, KNC_ACTIVE_BUFFER_SIZE)
      ensures i == writeA <==> p == |active|
    {
      hide Held;
      hide HoldsQueued;
      hide HoldsActive;
      hide Scan;
      hide Increment;
      hide Index;
      ActiveIndices(activeFifo[..], readA, writeA, active, 0);
      i := Increment(readA, KNC_ACTIVE_BUFFER_SIZE);
      p := 0;
      while i != writeA
        invariant Valid()
        invariant p <= |active| && i == Index(readA, p, KNC_ACTIVE_BUFFER_SIZE)
        invariant Scan(Buffers(), p, id, now) == Scan(old(Buffers()), 0, id, now)
        decreases |active| - p
      {
        ActiveIndices(activeFifo[..], readA, writeA, active, p);
        ActiveAt(activeFifo[..], readA, writeA, active, p);
        ScanStep(Buffers(), p, id, now);
        if activeFifo[i].workId == id {
          break;
        }
        var us := now - activeFifo[i].begin;
        if us < 0 || us >= WORK_STALE_US {
          CompleteActive(i, p);
        } else {
          p := p + 1;
        }
        i := Increment(i, KNC_ACTIVE_BUFFER_SIZE);
      }
      ActiveIndices(activeFifo[..], readA, writeA, active, p);
      ScanStep(Buffers(), p, id, now);
    }

    // One response; the nonce it reports is submitted unless the driver only flushes.
    method HandleResponse(resp: Response, now: int, submit: bool) returns (success: bool)
      requires Valid()
      modifies this`readA, this`queuedWork, this`completed, this`active, activeFifo
      ensures Valid() && Buffers() == Respond(old(Buffers()), resp, now)
      ensures success <==> submit && Succeeds(old(Buffers()), resp)
      ensures success <==> submit && resp.kind == NonceFound && resp.good
                           && exists e :: e in old(active) && e.workId == resp.workId
    {
      hide Held;
      hide HoldsQueued;
      hide HoldsActive;
      hide Scan;
      success := false;
      if resp.kind != NonceFound && resp.kind != WorkDone {
        return;
      }
      ScanRemovesOnlyStale(Buffers(), 0, resp.workId, now);
      ghost var p;
      var i;
      i, p := FindActive(resp.workId, now);
      if i == writeA {
        return;
      }
      if resp.kind == NonceFound {
        success := submit && resp.good;
        return;
      }
      CompleteActive(i, p);
    }

    // Move works the device accepted from the queued to the active ring.
    method AcceptWorks(n: nat, now: int)
      requires Valid()
      modifies this`readQ, this`writeA, this`queued, this`active, queuedFifo, activeFifo
      ensures Valid() && Buffers() == Accept(old(Buffers()), n, now)
    {
      hide Held;
      hide HoldsQueued;
      hide HoldsActive;
      hide Accept;
      var i := 0;
      while i < n
        invariant i <= n && Valid() && completed == old(completed)
        invariant Accept(Buffers(), n - i, now) == Accept(old(Buffers()), n, now)
      {
        ghost var r := Buffers();
        EmptyQueued(queuedFifo[..], readQ, writeQ, queued);
        FullActive(activeFifo[..], readA, writeA, active);
        AcceptStep(r, n - i, now);
        var next := Increment(readQ, KNC_QUEUED_BUFFER_SIZE);
        if next == writeQ || readA == writeA {
          AcceptStep(r, 0, now);
          return;
        }
        AcceptOne(next, now);
        i := i + 1;
      }
      AcceptStep(Buffers(), 0, now);
    }

    method AcceptOne(next: int, now: int)
      requires Valid() && next == Increment(readQ, KNC_QUEUED_BUFFER_SIZE)
      requires next != writeQ && readA != writeA
      modifies this`readQ, this`writeA, this`queued, this`active, queuedFifo, activeFifo
      ensures Valid() && queued == old(queued)[1..]
      ensures active == old(active) + [Entry(old(queued)[0].work, old(queued)[0].workId, now)]
    {
      hide Held;
      ghost var q, a, e := queuedFifo[..], activeFifo[..], Entry(queued[0].work, queued[0].workId, now);
      AcceptAccount(Buffers(), 1, now);
      assert Buffers().(queued := queued[1..], active := active + [e]) == Accept(Buffers(), 1, now);
      PopQueued(q, readQ, writeQ, queued);
      PushActive(a, readA, writeA, active, e);
      ghost var w := writeA;

      activeFifo[writeA] := queuedFifo[next].(begin := now);
      queuedFifo[next] := queuedFifo[next].(work := None);
      readQ := next;
      writeA := Increment(writeA, KNC_ACTIVE_BUFFER_SIZE);

      queued, active := queued[1..], active + [e];
      assert queuedFifo[..] == q[next := q[next].(work := None)];
      assert activeFifo[..] == a[w := Slot(Some(e.work), e.workId, e.begin)];
    }

    method ProcessResponse(reply: Reply, moved: int, now: int, submit: bool) returns (result: int)
      requires Valid()
      modifies this`readQ, this`writeA, this`readA, this`queuedWork, this`completed, this`queued, this`active,
               queuedFifo, activeFifo
      ensures Valid() && Buffers() == Process(old(Buffers()), reply, moved, now)
      ensures result == NONCE_RANGE * if submit
                                      then Successes(Accept(old(Buffers()), reply.accepted, moved),
                                                     reply.responses, now)
                                      else 0
    {
      hide Held;
      hide HoldsQueued;
      hide HoldsActive;
      hide Respond;
      hide Succeeds;
      hide Accept;
      AcceptWorks(reply.accepted, moved);
      ghost var r := Buffers();
      var responses := reply.responses;
      var i, successful := 0, 0;
      while i < |responses|
        invariant i <= |responses| && Valid()
        invariant Buffers() == RespondAll(r, responses[..i], now)
        invariant successful == if submit then Successes(r, responses[..i], now) else 0
      {
        assert responses[..i + 1][..i] == responses[..i];
        var success := HandleResponse(responses[i], now, submit);
        if success {
          successful := successful + 1;
        }
        i := i + 1;
      }
      assert responses[..i] == responses;
      result := NONCE_RANGE * successful;
    }

    // One transfer: every queued work is stamped with a fresh id and sent; the reply, or the lack of one,
    // is the device's.  Sent works stay queued until a reply accepts them.
    method Scanwork(reply: Option<Reply>, moved: int, now: int) returns (requests: seq<Request>, result: int)
      requires Valid()
      modifies this`nextWorkId, this`readQ, this`writeA, this`readA, this`queuedWork, this`completed, this`queued,
               this`active, queuedFifo, activeFifo
      ensures Valid() && Abstract() == ScanworkStep(old(Abstract()), reply, moved, now)
      ensures var tagged := Tag(old(QueuedWorks(queued)), old(nextWorkId), salt);
              && requests == PreparedAll(tagged)
              && result == if reply.None? then -1
                           else NONCE_RANGE * Successes(Accept(Rings(tagged, old(active), old(completed)),
                                                               reply.value.accepted, moved),
                                                        reply.value.responses, now)
    {
      hide Held;
      hide HoldsQueued;
      hide HoldsActive;
      hide Accept;
      hide RespondAll;
      hide Successes;
      requests := PrepareRequests();
      if reply.None? {
        return requests, -1;
      }
      result := ProcessResponse(reply.value, moved, now, true);
    }

    method PrepareRequests() returns (requests: seq<Request>)
      requires Valid()
      modifies this`nextWorkId, this`queued, queuedFifo
      ensures Valid()
      ensures queued == Tag(old(QueuedWorks(queued)), old(nextWorkId), salt) && requests == PreparedAll(queued)
      ensures nextWorkId == Advance(old(nextWorkId), |old(queued)|)
      ensures forall j, k :: 0 <= j < k < |requests| ==> requests[j].workId != requests[k].workId
      ensures forall k :: 0 <= k < |requests| ==>
                requests[k].workId == WorkId(Plus(old(nextWorkId), Word(k)), salt)
    {
      hide Held;
      hide HoldsQueued;
      hide HoldsActive;
      hide Tag;
      hide Advance;
      hide Stamping;
      hide WorkId;
      hide Plus;
      hide Word;
      ghost var works, first := QueuedWorks(queued), nextWorkId;
      requests := [];
      var next := Increment(readQ, KNC_QUEUED_BUFFER_SIZE);
      QueuedIndices(queuedFifo[..], readQ, writeQ, queued);
      StampStart(works, first, salt);
      while next != writeQ
        invariant Valid() && |requests| <= |queued| == |works|
        invariant next == Index(readQ, |requests|, KNC_QUEUED_BUFFER_SIZE)
        invariant QueuedWorks(queued) == works && requests == PreparedAll(queued[..|requests|])
        invariant Stamping(works, first, salt, queued[..|requests|], nextWorkId)
        decreases |works| - |requests|
      {
        ghost var done := queued[..|requests|];
        StampStep(works, first, salt, done, nextWorkId);
        assert works[|requests|] == queued[|requests|].work;
        var t := StampOne(next, |requests|);
        assert queued[..|requests| + 1] == done + [t];
        PreparedExtend(done, t);
        var request := PrepareOne(t);
        requests := requests + [request];
        next := Increment(next, KNC_QUEUED_BUFFER_SIZE);
      }
      assert queued[..|requests|] == queued;
      StampEnd(works, first, salt, queued, nextWorkId);
      QueueSizes(queuedFifo[..], readQ, writeQ, queued);
      BatchIds(works, first, salt);
    }

    static lemma BatchIds(works: seq<Work>, first: bv32, salt: bv32)
      requires |works| <= MAX_REQUESTS_IN_BATCH
      ensures var q := Tag(works, first, salt);
              && |q| == |works|
              && (forall j, k :: 0 <= j < k < |q| ==> q[j].workId != q[k].workId)
              && (forall k :: 0 <= k < |q| ==> q[k].workId == WorkId(Plus(first, Word(k)), salt))
    {
      hide Tag;
      hide WorkId;
      hide Plus;
      hide Word;
      TagKeepsLength(works, first, salt);
      var q := Tag(works, first, salt);
      forall j, k | 0 <= j < k < |q|
        ensures q[j].workId != q[k].workId
      {
        TagsDiffer(works, first, salt, j, k);
      }
      forall k | 0 <= k < |q|
        ensures q[k].workId == WorkId(Plus(first, Word(k)), salt)
      {
        TagAt(works, first, salt, k);
      }
    }

    static lemma TagKeepsLength(works: seq<Work>, first: bv32, salt: bv32)
      ensures |Tag(works, first, salt)| == |works|
    {
      hide Tag;
      assert |QueuedWorks(Tag(works, first, salt))| == |works|;
    }

    // The words of a work are copied in reverse order.
    static method PrepareOne(t: Tagged) returns (r: Request)
      ensures r == Prepared(t)
    {
      var midstate := CopyReversed(t.work.midstate);
      var tail := CopyReversed(t.work.tail);
      r := Request(t.workId, midstate, tail);
    }

    static method CopyReversed(from: seq<bv32>) returns (to: seq<bv32>)
      ensures |to| == |from| && forall i :: 0 <= i < |from| ==> to[i] == from[|from| - 1 - i]
    {
      to := [];
      while |to| < |from|
        invariant |to| <= |from| && forall i :: 0 <= i < |to| ==> to[i] == from[|from| - 1 - i]
      {
        to := to + [from[|from| - |to| - 1]];
      }
    }

    static lemma PreparedExtend(q: seq<Tagged>, t: Tagged)
      ensures PreparedAll(q + [t]) == PreparedAll(q) + [Prepared(t)]
    {
    }

    // knc_work_from_queue_to_spi
    method StampOne(i: int, ghost k: nat) returns (request: Tagged)
      requires Valid() && k < |queued| && i == Index(readQ, k, KNC_QUEUED_BUFFER_SIZE)
      modifies this`nextWorkId, this`queued, queuedFifo
      ensures Valid()
      ensures request == Tagged(old(queued)[k].work, WorkId(old(nextWorkId), salt))
      ensures queued == old(queued)[k := request] && nextWorkId == Plus(old(nextWorkId), 1)
      ensures QueuedWorks(queued) == QueuedWorks(old(queued))
    {
      hide Held;
      var id := WorkId(nextWorkId, salt);
      StampQueued(queuedFifo[..], readQ, writeQ, queued, k, id);
      StampWorks(queued, k, id, active, completed);
      request := Tagged(queuedFifo[i].work.value, id);
      queuedFifo[i] := queuedFifo[i].(workId := id);
      nextWorkId := nextWorkId + 1;
      queued := queued[k := request];
      assert queuedFifo[..] == old(queuedFifo[..])[i := queuedFifo[i]];
    }

    // Both rings are drained, oldest works first; what a flush reply then reports finds nothing.
    method FlushWork(reply: Option<Reply>, moved: int, now: int)
      requires Valid()
      modifies this`readQ, this`writeA, this`readA, this`queuedWork, this`completed, this`queued, this`active,
               queuedFifo, activeFifo
      ensures Valid() && Abstract() == FlushStep(old(Abstract()), reply, moved, now)
      ensures reply.None? ==> completed == old(completed + QueuedWorks(queued) + ActiveWorks(active))
    {
      hide Held;
      DrainQueued();
      DrainActive();
      if reply.Some? {
        var result := ProcessResponse(reply.value, moved, now, false);
      }
    }

    method DrainQueued()
      requires Valid()
      modifies this`readQ, this`queuedWork, this`completed, this`queued, queuedFifo
      ensures Valid() && queued == []
      ensures completed == old(completed) + old(QueuedWorks(queued))
    {
      hide Held;
      hide HoldsQueued;
      hide HoldsActive;
      ghost var works := QueuedWorks(queued);
      var next := Increment(readQ, KNC_QUEUED_BUFFER_SIZE);
      while next != writeQ
        invariant Valid() && next == Increment(readQ, KNC_QUEUED_BUFFER_SIZE)
        invariant completed + QueuedWorks(queued) == old(completed) + works
        decreases |queued|
      {
        EmptyQueued(queuedFifo[..], readQ, writeQ, queued);
        QueuedHead(queued);
        CompleteQueued(next);
        next := Increment(next, KNC_QUEUED_BUFFER_SIZE);
      }
      EmptyQueued(queuedFifo[..], readQ, writeQ, queued);
    }

    method CompleteQueued(next: int)
      requires Valid() && next == Increment(readQ, KNC_QUEUED_BUFFER_SIZE) && next != writeQ
      modifies this`readQ, this`queuedWork, this`completed, this`queued, queuedFifo
      ensures Valid() && readQ == next && old(queued) == [old(queued)[0]] + queued
      ensures completed == old(completed) + [old(queued)[0].work]
    {
      hide Held;
      hide HoldsActive;
      ghost var a := queuedFifo[..];
      PopQueued(a, readQ, writeQ, queued);
      TakeQueued(queued, active, completed);
      HeldIgnoresLog(queued[1..], active, completed, completed + [queued[0].work]);
      TableRemove(queuedWork, queued[0].work, Held(Buffers().(queued := queued[1..])));

      var work := queuedFifo[next].work;
      WorkCompleted(work.value);
      queuedFifo[next] := queuedFifo[next].(work := None);
      readQ := next;
      queued := queued[1..];
      assert queuedFifo[..] == a[readQ := a[readQ].(work := None)];
    }

    method DrainActive()
      requires Valid()
      modifies this`readA, this`queuedWork, this`completed, this`active, activeFifo
      ensures Valid() && active == []
      ensures completed == old(completed) + old(ActiveWorks(active))
    {
      hide Held;
      hide HoldsQueued;
      hide HoldsActive;
      ghost var works := ActiveWorks(active);
      var next := Increment(readA, KNC_ACTIVE_BUFFER_SIZE);
      while next != writeA
        invariant Valid() && next == Increment(readA, KNC_ACTIVE_BUFFER_SIZE)
        invariant completed + ActiveWorks(active) == old(completed) + works
        decreases |active|
      {
        ActiveIndices(activeFifo[..], readA, writeA, active, 0);
        ActiveHead(active);
        CompleteActive(next, 0);
        next := Increment(next, KNC_ACTIVE_BUFFER_SIZE);
      }
      ActiveIndices(activeFifo[..], readA, writeA, active, 0);
    }
  }
}
