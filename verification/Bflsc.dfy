// Work accounting of the BFLSC driver (driver-bflsc.c): each device counts its works that are not
// flagged as flushed, and the queued works say which device has them.
module Bflsc {
  import opened Sequences
  import opened Wrappers

  class Work {
    const key: int
    var subid: int
    var devflag: bool

    constructor (key: int)
      ensures this.key == key && subid == 0 && !devflag
    {
      this.key, subid, devflag := key, 0, false;
    }
  }

  datatype Dev = Dev(workQueued: int, overheat: bool, flushed: bool, flushId: nat, resultId: nat)

  // A queued work and the values of its fields.
  datatype Entry = Entry(work: Work, subid: int, flagged: bool)

  // The works of a device that are not flagged.
  function Unflagged(es: seq<Entry>, d: int): (n: nat) {
    if es == [] then 0
    else Unflagged(es[..|es| - 1], d) + if es[|es| - 1].subid == d && !es[|es| - 1].flagged then 1 else 0
  }

  lemma UnflaggedExtend(es: seq<Entry>, e: Entry, d: int)
    ensures Unflagged(es + [e], d) == Unflagged(es, d) + if e.subid == d && !e.flagged then 1 else 0
  {
    assert (es + [e])[..|es|] == es;
  }

  lemma {:induction false} UnflaggedConcat(a: seq<Entry>, b: seq<Entry>, d: int)
    ensures Unflagged(a + b, d) == Unflagged(a, d) + Unflagged(b, d)
    decreases |b|
  {
    if b == [] {
      assert a + b == a;
    } else {
      UnflaggedConcat(a, b[..|b| - 1], d);
      assert (a + b)[..|a + b| - 1] == a + b[..|b| - 1];
    }
  }

  // Removing one entry.
  lemma UnflaggedRemove(es: seq<Entry>, i: nat, d: int)
    requires i < |es|
    ensures Unflagged(es, d)
         == Unflagged(es[..i] + es[i + 1..], d) + if es[i].subid == d && !es[i].flagged then 1 else 0
  {
    hide Unflagged;
    UnflaggedConcat(es[..i], es[i + 1..], d);
    UnflaggedConcat(es[..i] + [es[i]], es[i + 1..], d);
    UnflaggedExtend(es[..i], es[i], d);
    SplitAt(es, i);
  }

  function Flag(e: Entry, d: int): Entry {
    if e.subid == d then e.(flagged := true) else e
  }

  // All works of a device flagged.
  function FlagAll(es: seq<Entry>, d: int): (fs: seq<Entry>)
    ensures |fs| == |es|
    ensures forall i :: 0 <= i < |es| ==> fs[i] == Flag(es[i], d)
  {
    seq(|es|, i requires 0 <= i < |es| => Flag(es[i], d))
  }

  lemma {:induction false} FlagAllCounts(es: seq<Entry>, d: int, e: int)
    ensures Unflagged(FlagAll(es, d), e) == if e == d then 0 else Unflagged(es, e)
  {
    if es != [] {
      var n := |es| - 1;
      FlagAllCounts(es[..n], d, e);
      assert FlagAll(es, d)[..n] == FlagAll(es[..n], d);
    }
  }

  // That is the number of their positions.
  lemma {:induction false} UnflaggedIs(es: seq<Entry>, d: int)
    ensures Unflagged(es, d) == |set i | 0 <= i < |es| && es[i].subid == d && !es[i].flagged|
  {
    if es != [] {
      var n := |es| - 1;
      UnflaggedIs(es[..n], d);
      var before := set i | 0 <= i < n && es[..n][i].subid == d && !es[..n][i].flagged;
      var now := set i | 0 <= i < |es| && es[i].subid == d && !es[i].flagged;
      assert now == if es[n].subid == d && !es[n].flagged then before + {n} else before;
    }
  }

  // A flagged work of the device.
  function Discarded(d: int): Entry -> bool {
    (e: Entry) => e.flagged && e.subid == d
  }

  // The entries left when the flagged works of a device are removed.
  function Swept(es: seq<Entry>, d: int): seq<Entry> {
    Kept(es, Discarded(d))
  }

  // Sweeping does not change any count.
  lemma {:induction false} SweptCounts(es: seq<Entry>, d: int, e: int)
    ensures Unflagged(Swept(es, d), e) == Unflagged(es, e)
  {
    if es != [] {
      var n := |es| - 1;
      SweptCounts(es[..n], d, e);
      KeptStep(es, Discarded(d));
      if es[n].flagged && es[n].subid == d {
        assert Swept(es, d) == Swept(es[..n], d);
      } else {
        UnflaggedExtend(Swept(es[..n], d), es[n], e);
        assert Swept(es, d) == Swept(es[..n], d) + [es[n]];
      }
    }
  }

  // ---------- the counters ----------

  // Every counter is the number of the device's works that are not flagged.
  ghost predicate Agree(es: seq<Entry>, ds: seq<Dev>) {
    forall d :: 0 <= d < |ds| ==> ds[d].workQueued == Unflagged(es, d)
  }

  ghost predicate Bounded(ds: seq<Dev>, enough: int) {
    forall d :: 0 <= d < |ds| ==> ds[d].workQueued <= enough + 1
  }

  // Works belong to devices, and flagged works to devices that are marked as flushed.
  ghost predicate Marked(es: seq<Entry>, ds: seq<Dev>) {
    forall i :: 0 <= i < |es| ==> 0 <= es[i].subid < |ds| && (es[i].flagged ==> ds[es[i].subid].flushed)
  }

  // A result for the work of an entry, reported by device dev.
  lemma ResultAgrees(es: seq<Entry>, ds: seq<Dev>, at: nat, dev: int, now: seq<Dev>)
    requires Agree(es, ds) && Marked(es, ds) && at < |es| && 0 <= dev < |ds| == |now|
    requires forall d :: 0 <= d < |ds| && d != dev ==> now[d] == ds[d]
    requires now[dev].flushed == ds[dev].flushed
    requires now[dev].workQueued == ds[dev].workQueued - if es[at].flagged then 0 else 1
    ensures Agree(es[..at] + es[at + 1..], now) <==> es[at].flagged || es[at].subid == dev
    ensures Marked(es[..at] + es[at + 1..], now)
  {
    hide Unflagged;
    var left := es[..at] + es[at + 1..];
    forall d | 0 <= d < |ds|
      ensures now[d].workQueued == Unflagged(left, d)
          <==> es[at].flagged || (es[at].subid == d <==> dev == d)
    {
      UnflaggedRemove(es, at, d);
    }
    assert Agree(left, now) ==> now[dev].workQueued == Unflagged(left, dev);
  }

  // ---------- the choice of a device ----------

  predicate Candidate(ds: seq<Dev>, tried: int, i: int)
    requires 0 <= i < |ds|
  {
    i != tried && !ds[i].overheat
  }

  // What a choice means: no device means that every candidate has enough. Otherwise it is the first of the
  // candidates with the least work, and the lock is waited for only if that is low but not zero.
  ghost predicate Chosen(ds: seq<Dev>, tried: int, enough: int, low: int, dev: int, mandatory: bool) {
    if dev == -1 then
      !mandatory && forall i :: 0 <= i < |ds| && Candidate(ds, tried, i) ==> ds[i].workQueued > enough
    else
      && 0 <= dev < |ds| && Candidate(ds, tried, dev) && ds[dev].workQueued <= enough
      && (forall i :: 0 <= i < |ds| && Candidate(ds, tried, i) ==> ds[i].workQueued >= ds[dev].workQueued)
      && (forall i :: 0 <= i < dev && Candidate(ds, tried, i) ==> ds[i].workQueued > ds[dev].workQueued)
      && (mandatory <==> 0 < ds[dev].workQueued < low)
  }

  // The choice is unique.
  lemma ChosenUnique(ds: seq<Dev>, tried: int, enough: int, low: int, d: int, m: bool, e: int, n: bool)
    requires Chosen(ds, tried, enough, low, d, m) && Chosen(ds, tried, enough, low, e, n)
    ensures d == e && m == n
  {
  }

  class BflscInfo {
    const queSize: int
    const queFullEnough: int
    const queLow: int
    const flushSize: nat
    const devs: array<Dev>
    var unqueued: Option<Work>
    var queued: seq<Work>
    ghost var entries: seq<Entry>

    // The entries describe the queued works.
    ghost predicate Recorded()
      reads `queued, `entries, queued
    {
      && |entries| == |queued|
      && (forall i :: 0 <= i < |queued| ==> entries[i] == Entry(queued[i], queued[i].subid, queued[i].devflag))
      && (forall i, j :: 0 <= i < j < |queued| ==> queued[i] != queued[j])
    }

    ghost predicate Balanced()
      reads `entries, devs
    {
      Agree(entries, devs[..])
    }

    // The work that waits to be queued is a new one.
    ghost predicate Waiting()
      reads `unqueued, `queued, if unqueued.Some? then {unqueued.value} else {}
    {
      unqueued.Some? ==> unqueued.value !in queued && !unqueued.value.devflag
    }

    ghost predicate Configured() {
      0 <= queFullEnough < queSize * 10
    }

    ghost predicate Valid()
      reads this, queued, devs, if unqueued.Some? then {unqueued.value} else {}
    {
      Configured() && Recorded() && Balanced() && Waiting()
      && Bounded(devs[..], queFullEnough) && Marked(entries, devs[..])
    }

    constructor (count: nat, size: int, enough: int, low: int, flushSize: nat)
      requires 0 <= enough < size * 10
      ensures Valid() && queued == [] && unqueued == None && devs.Length == count && fresh(devs)
      ensures queSize == size && queFullEnough == enough && queLow == low && this.flushSize == flushSize
    {
      queSize, queFullEnough, queLow, this.flushSize := size, enough, low, flushSize;
      devs := new Dev[count](_ => Dev(0, false, false, 0, 0));
      unqueued, queued, entries := None, [], [];
    }

    // The core queues the next work if none is waiting.
    method Offer(work: Work) returns (taken: bool)
      requires Valid() && work !in queued && !work.devflag
      modifies `unqueued
      ensures Valid() && taken == old(unqueued).None?
      ensures unqueued == if taken then Some(work) else old(unqueued)
    {
      taken := unqueued.None?;
      if taken {
        unqueued := Some(work);
      }
    }

    // Flag the works of a device.
    method FlagWorks(dev: int) returns (did: bool)
      requires Recorded()
      modifies queued, `entries
      ensures Recorded() && entries == FlagAll(old(entries), dev) && queued == old(queued)
      ensures did <==> exists i :: 0 <= i < |entries| && entries[i].subid == dev
    {
      did := false;
      var i := 0;
      ghost var was := entries;
      while i < |queued|
        invariant i <= |queued| == |was| && queued == old(queued) && Recorded()
        invariant forall k :: 0 <= k < i ==> entries[k] == Flag(was[k], dev)
        invariant forall k :: i <= k < |was| ==> entries[k] == was[k]
        invariant did <==> exists k :: 0 <= k < i && was[k].subid == dev
      {
        if queued[i].subid == dev {
          assert was[i].subid == dev;
          queued[i].devflag := true;
          entries := entries[i := entries[i].(flagged := true)];
          did := true;
        }
        i := i + 1;
      }
      assert entries == FlagAll(was, dev);
    }

    // flush_one_dev
    method FlushOneDev(dev: int)
      requires Valid() && 0 <= dev < devs.Length
      modifies queued, `entries, devs
      ensures Valid() && entries == FlagAll(old(entries), dev) && queued == old(queued)
      ensures devs[dev].workQueued == 0
      ensures devs[..] == old(devs[..])[dev :=
                if exists i :: 0 <= i < |entries| && entries[i].subid == dev
                then old(devs[dev]).(flushed := true, flushId := old(devs[dev]).resultId, workQueued := 0)
                else old(devs[dev])]
    {
      ghost var was := entries;
      var did := FlagWorks(dev);
      FlushCounts(was, dev);
      if did {
        devs[dev] := devs[dev].(flushed := true);
        devs[dev] := devs[dev].(flushId := devs[dev].resultId);
        devs[dev] := devs[dev].(workQueued := 0);
      } else {
        NoWorks(was, dev);
      }
    }

    static lemma FlushCounts(es: seq<Entry>, dev: int)
      ensures forall d :: Unflagged(FlagAll(es, dev), d) == if d == dev then 0 else Unflagged(es, d)
    {
      forall d
        ensures Unflagged(FlagAll(es, dev), d) == if d == dev then 0 else Unflagged(es, d)
      {
        FlagAllCounts(es, dev, d);
      }
    }

    static lemma NoWorks(es: seq<Entry>, dev: int)
      requires forall i :: 0 <= i < |es| ==> es[i].subid != dev
      ensures Unflagged(es, dev) == 0
    {
    }

    // bflsc_flush_work: afterwards every work is flagged and every counter is zero.
    method FlushWork()
      requires Valid()
      modifies queued, `entries, devs
      ensures Valid() && queued == old(queued)
      ensures forall i :: 0 <= i < |entries| ==> entries[i].flagged && entries[i].subid == old(entries[i]).subid
      ensures forall d :: 0 <= d < devs.Length ==> devs[d].workQueued == 0
    {
      var dev := 0;
      while dev < devs.Length
        invariant 0 <= dev <= devs.Length && Valid() && queued == old(queued)
        invariant |entries| == |old(entries)|
        invariant forall i :: 0 <= i < |entries| ==> entries[i].subid == old(entries[i]).subid
        invariant forall i :: 0 <= i < |entries| && entries[i].subid < dev ==> entries[i].flagged
        invariant forall d :: 0 <= d < dev ==> devs[d].workQueued == 0
      {
        FlushOneDev(dev);
        dev := dev + 1;
      }
    }

    // take_queued_work_bymidstate: the first work with the key.
    method Take(key: int) returns (work: Work?, ghost at: nat)
      requires Recorded()
      modifies `queued, `entries
      ensures Recorded()
      ensures work == null ==> queued == old(queued) && entries == old(entries)
                               && forall i :: 0 <= i < |queued| ==> queued[i].key != key
      ensures work != null ==>
                && at < |old(queued)| == |old(entries)| && work == old(queued[at]) && work.key == key
                && old(entries)[at] == Entry(work, work.subid, work.devflag) && work !in queued
                && (forall i :: 0 <= i < at ==> old(queued)[i].key != key)
                && queued == old(queued)[..at] + old(queued)[at + 1..]
                && entries == old(entries)[..at] + old(entries)[at + 1..]
    {
      work, at := null, 0;
      var i := 0;
      while i < |queued|
        invariant i <= |queued|
        invariant forall k :: 0 <= k < i ==> queued[k].key != key
      {
        if queued[i].key == key {
          work, at := queued[i], i;
          queued := queued[..i] + queued[i + 1..];
          entries := entries[..i] + entries[i + 1..];
          return;
        }
        i := i + 1;
      }
    }

    // The accounting of process_nonces: a device reports a result for the work with this key. The counters
    // stay right exactly if the work is flagged or was sent to the device that reports it.
    method ProcessNonces(dev: int, key: int, res: bool) returns (work: Work?)
      requires Valid() && 0 <= dev < devs.Length
      modifies `queued, `entries, devs
      ensures work == null ==>
                && Valid() && queued == old(queued) && devs[..] == old(devs[..])
                && forall i :: 0 <= i < |queued| ==> queued[i].key != key
      ensures work != null ==>
                && work.key == key && work !in queued
                && (exists i :: 0 <= i < |old(queued)| && work == old(queued)[i]
                      && (forall k :: 0 <= k < i ==> old(queued)[k].key != key)
                      && queued == old(queued)[..i] + old(queued)[i + 1..])
                && devs[..] == old(devs[..])[dev := old(devs[dev]).(
                     resultId := old(devs[dev].resultId) + (if res then 1 else 0),
                     workQueued := old(devs[dev].workQueued) - (if work.devflag then 0 else 1))]
                && (Balanced() <==> work.devflag || work.subid == dev)
                && (Valid() <==> work.devflag || work.subid == dev)
    {
      hide Agree;
      hide Marked;
      hide Recorded;
      ghost var was, ds := entries, devs[..];
      ghost var at;
      work, at := Take(key);
      if work != null {
        if res {
          devs[dev] := devs[dev].(resultId := devs[dev].resultId + 1);
        }
        if !work.devflag {
          devs[dev] := devs[dev].(workQueued := devs[dev].workQueued - 1);
        }
        ResultAgrees(was, ds, at, dev, devs[..]);
      }
    }

    // bflsc_send_work. `locked` tells whether the lock was free, and `done` the outcome of the exchange
    // with the device; a work that could not be sent is completed at once.
    method SendWork(gone: bool, dev: int, mandatory: bool, locked: bool, done: bool) returns (sent: bool)
      requires Valid() && 0 <= dev < devs.Length && devs[dev].workQueued <= queFullEnough
      modifies `unqueued, `queued, `entries, devs, if unqueued.Some? then {unqueued.value} else {}
      ensures Valid()
      ensures unqueued == if gone || old(devs[dev].overheat) || !(mandatory || locked) then old(unqueued) else None
      ensures sent <==> unqueued.None? && old(unqueued).Some? && done
      ensures !sent ==> queued == old(queued) && entries == old(entries) && devs[..] == old(devs[..])
      ensures sent ==>
                var work := old(unqueued).value;
                && queued == old(queued) + [work] && work.subid == dev
                && entries == old(entries) + [Entry(work, dev, false)]
                && devs[..] == old(devs[..])[dev := old(devs[dev]).(workQueued := old(devs[dev].workQueued) + 1)]
    {
      if gone || devs[dev].overheat || (!mandatory && !locked) || unqueued.None? {
        return false;
      }
      hide Agree;
      hide Marked;
      hide Bounded;
      var work := unqueued.value;
      queued := queued + [work];
      unqueued := None;
      if done {
        SendAgrees(entries, devs[..], Entry(work, dev, false), queFullEnough);
        devs[dev] := devs[dev].(workQueued := devs[dev].workQueued + 1);
        work.subid := dev;
        entries := entries + [Entry(work, dev, false)];
        assert devs[..] == old(devs[..])[dev := devs[dev]];
        return true;
      }
      // work_completed
      queued := queued[..|queued| - 1];
      assert queued == old(queued);
      return false;
    }

    static lemma SendAgrees(es: seq<Entry>, ds: seq<Dev>, e: Entry, enough: int)
      requires Agree(es, ds) && Marked(es, ds) && Bounded(ds, enough)
      requires 0 <= e.subid < |ds| && !e.flagged && ds[e.subid].workQueued <= enough
      ensures var now := ds[e.subid := ds[e.subid].(workQueued := ds[e.subid].workQueued + 1)];
              Agree(es + [e], now) && Marked(es + [e], now) && Bounded(now, enough)
    {
      forall d | 0 <= d < |ds|
        ensures Unflagged(es + [e], d) == Unflagged(es, d) + if d == e.subid then 1 else 0
      {
        UnflaggedExtend(es, e, d);
      }
      hide Unflagged;
    }

    // The choice inside bflsc_queue_full.
    method ChooseDevice(tried: int) returns (dev: int, mandatory: bool)
      requires Configured() && forall d :: 0 <= d < devs.Length ==> devs[d].workQueued >= 0
      ensures Chosen(devs[..], tried, queFullEnough, queLow, dev, mandatory)
      ensures dev != -1 ==> 0 <= dev < devs.Length && dev != tried && !devs[dev].overheat
      ensures dev == -1 <==>
                forall i :: 0 <= i < devs.Length && i != tried && !devs[i].overheat ==> devs[i].workQueued > queFullEnough
    {
      dev, mandatory := -1, false;
      var i := 0;
      while i < devs.Length
        invariant 0 <= i <= devs.Length
        invariant forall k :: 0 <= k < i && Candidate(devs[..], tried, k) ==> devs[k].workQueued > 0
      {
        if i != tried && devs[i].workQueued == 0 && !devs[i].overheat {
          dev := i;
          return;
        }
        i := i + 1;
      }
      var que := queSize * 10;
      i := 0;
      while i < devs.Length
        invariant 0 <= i <= devs.Length && -1 <= dev < i
        invariant dev == -1 ==> que == queSize * 10
        invariant dev >= 0 ==> Candidate(devs[..], tried, dev) && que == devs[dev].workQueued < queSize * 10
        invariant forall k :: 0 <= k < i && Candidate(devs[..], tried, k) ==> devs[k].workQueued >= que
        invariant forall k :: 0 <= k < dev && Candidate(devs[..], tried, k) ==> devs[k].workQueued > que
      {
        if i != tried && devs[i].workQueued < que && !devs[i].overheat {
          dev := i;
          que := devs[i].workQueued;
        }
        i := i + 1;
      }
      if que > queFullEnough {
        dev := -1;
      } else if que < queLow {
        mandatory := true;
      }
    }

    // The two tries of bflsc_queue_full: which device the waiting work is sent to, -1 being none, and the
    // result. A work that was taken for the first device and not sent is gone when the second is tried.
    ghost predicate Tried(ds: seq<Dev>, waiting: bool, locked1: bool, locked2: bool, done: bool, to: int, full: bool) {
      exists d, m :: Chosen(ds, -1, queFullEnough, queLow, d, m) &&
        if d == -1 then full && to == -1
        else if waiting && (m || locked1) && done then !full && to == d
        else Second(ds, d, waiting && !(m || locked1) && done, locked2, to, full)
    }

    ghost predicate Second(ds: seq<Dev>, tried: int, sendable: bool, locked: bool, to: int, full: bool) {
      exists e, n :: Chosen(ds, tried, queFullEnough, queLow, e, n) &&
        if e == -1 then full && to == -1
        else !full && to == if sendable && (n || locked) then e else -1
    }

    // bflsc_queue_full: at most two devices are tried, and the bound of the counters is kept.
    method QueueFull(gone: bool, locked1: bool, locked2: bool, done: bool) returns (full: bool, ghost to: int)
      requires Valid()
      modifies `unqueued, `queued, `entries, devs, if unqueued.Some? then {unqueued.value} else {}
      ensures Valid()
      ensures if gone then full && to == -1
              else Tried(old(devs[..]), old(unqueued).Some?, locked1, locked2, done, to, full)
      ensures to == -1 ==> queued == old(queued) && devs[..] == old(devs[..])
      ensures to != -1 ==>
                && old(unqueued).Some? && 0 <= to < devs.Length && queued == old(queued) + [old(unqueued).value]
                && entries == old(entries) + [Entry(old(unqueued).value, to, false)]
                && devs[..] == old(devs[..])[to := old(devs[to]).(workQueued := old(devs[to].workQueued) + 1)]
    {
      hide Chosen;
      ghost var ds, waiting := devs[..], unqueued.Some?;
      ghost var first, needed := -1, false;
      var tried, tries := -1, 0;
      full, to := false, -1;
      while tries < 2
        invariant 0 <= tries <= 2 && Valid() && !full && to == -1
        invariant queued == old(queued) && entries == old(entries) && devs[..] == ds
        invariant tries == 0 ==> tried == -1 && unqueued == old(unqueued)
        invariant tries > 0 ==>
                    && first != -1 && Chosen(ds, -1, queFullEnough, queLow, first, needed)
                    && !(waiting && (needed || locked1) && done)
        invariant tries == 1 ==> tried == first && unqueued == if needed || locked1 then None else old(unqueued)
        invariant tries == 2 ==> Second(ds, first, waiting && !(needed || locked1) && done, locked2, -1, false)
        invariant gone ==> tries == 0
      {
        tries := tries + 1;
        if gone {
          full := true;
          break;
        }
        CountersNatural();
        var dev, mandatory := ChooseDevice(tried);
        ChosenInRange(ds, tried, queFullEnough, queLow, dev, mandatory);
        if dev == -1 {
          full := true;
          break;
        }
        var sent := SendWork(gone, dev, mandatory, if tries == 1 then locked1 else locked2, done);
        if sent {
          to := dev;
          break;
        }
        tried := dev;
        if tries == 1 {
          first, needed := dev, mandatory;
        }
      }
    }

    static lemma ChosenInRange(ds: seq<Dev>, tried: int, enough: int, low: int, dev: int, mandatory: bool)
      requires Chosen(ds, tried, enough, low, dev, mandatory)
      ensures dev != -1 ==> 0 <= dev < |ds| && ds[dev].workQueued <= enough && !ds[dev].overheat
    {
    }

    lemma CountersNatural()
      requires Balanced()
      ensures forall d :: 0 <= d < devs.Length ==> devs[d].workQueued >= 0
    {
    }

    // Remove the flagged works of a device from the queued works.
    method Sweep(dev: int)
      requires Recorded()
      modifies `queued, `entries
      ensures Recorded() && entries == Swept(old(entries), dev)
    {
      hide Sweeping;
      hide Kept;
      ghost var all := entries;
      ghost var k := 0;
      SweepStarts(all, Discarded(dev));
      var i := 0;
      while i < |queued|
        invariant i <= |queued| && Recorded()
        invariant Sweeping(all, Discarded(dev), k, i, entries)
        decreases |queued| - i
      {
        SweepStep(all, Discarded(dev), k, i, entries);
        if queued[i].devflag && queued[i].subid == dev {
          queued := queued[..i] + queued[i + 1..];
          entries := entries[..i] + entries[i + 1..];
        } else {
          i := i + 1;
        }
        k := k + 1;
      }
      SweepEnds(all, Discarded(dev), k, i, entries);
    }

    // Results have come back for so long that the flushed works cannot be in the device any more.
    predicate Drained(d: Dev) {
      d.flushed && d.resultId > d.flushId + flushSize
    }

    // Whether the clean-up removes an entry when it is done with the devices before `dev`.
    ghost predicate Goes(e: Entry, ds: seq<Dev>, dev: int) {
      && e.flagged && 0 <= e.subid < dev && e.subid < |ds|
      && ds[e.subid].flushed && ds[e.subid].resultId > ds[e.subid].flushId + flushSize
    }

    ghost function GoesBefore(ds: seq<Dev>, dev: int): Entry -> bool {
      (e: Entry) => Goes(e, ds, dev)
    }

    // The clean-up of one device more.
    lemma GoesStep(s: seq<Entry>, ds: seq<Dev>, dev: nat)
      requires dev < |ds|
      ensures Kept(s, GoesBefore(ds, dev + 1)) ==
              if Drained(ds[dev]) then Kept(Kept(s, GoesBefore(ds, dev)), Discarded(dev))
              else Kept(s, GoesBefore(ds, dev))
    {
      hide Kept;
      if Drained(ds[dev]) {
        KeptTwice(s, GoesBefore(ds, dev), Discarded(dev), GoesBefore(ds, dev + 1));
      } else {
        var none := (e: Entry) => false;
        KeptTwice(s, GoesBefore(ds, dev), none, GoesBefore(ds, dev + 1));
        KeptAll(Kept(s, GoesBefore(ds, dev)), none);
      }
    }

    // The clean-up of bflsc_scanwork: no counter changes, and exactly the flagged works go whose device has reported
    // more results since it was flushed than it can have held. The others keep their order.
    method CleanUp()
      requires Valid()
      modifies `queued, `entries, devs
      ensures Valid()
      ensures forall d :: 0 <= d < devs.Length ==>
                var was := old(devs[..])[d];
                devs[d] == was.(flushed := was.flushed && was.resultId <= was.flushId + flushSize)
      ensures forall i :: 0 <= i < |entries| ==>
                entries[i] in old(entries) && !Goes(entries[i], old(devs[..]), devs.Length)
      ensures forall i :: 0 <= i < |old(entries)| && !Goes(old(entries)[i], old(devs[..]), devs.Length) ==>
                old(entries)[i] in entries
      ensures entries == Kept(old(entries), GoesBefore(old(devs[..]), devs.Length))
    {
      hide Kept;
      ghost var was, ds := entries, devs[..];
      KeptAll(was, GoesBefore(ds, 0));
      var dev := 0;
      while dev < devs.Length
        invariant 0 <= dev <= devs.Length && Valid()
        invariant forall d :: 0 <= d < devs.Length ==>
                    devs[d] == if d < dev && Drained(ds[d]) then ds[d].(flushed := false) else ds[d]
        invariant entries == Kept(was, GoesBefore(ds, dev))
      {
        GoesStep(was, ds, dev);
        if Drained(devs[dev]) {
          SweepDevice(dev);
        }
        dev := dev + 1;
      }
      KeptMembers(was, GoesBefore(ds, dev));
    }

    method SweepDevice(dev: int)
      requires Valid() && 0 <= dev < devs.Length
      modifies `queued, `entries, devs
      ensures Valid()
      ensures devs[..] == old(devs[..])[dev := old(devs[dev]).(flushed := false)]
      ensures entries == Kept(old(entries), Discarded(dev))
    {
      KeptMembers(entries, Discarded(dev));
      SweepCounts(entries, dev);
      Sweep(dev);
      devs[dev] := devs[dev].(flushed := false);
    }

    static lemma SweepCounts(es: seq<Entry>, dev: int)
      ensures forall d :: Unflagged(Swept(es, dev), d) == Unflagged(es, d)
    {
      forall d
        ensures Unflagged(Swept(es, dev), d) == Unflagged(es, d)
      {
        SweptCounts(es, dev, d);
      }
    }
  }
}
