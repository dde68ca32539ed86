// What the KnC driver does to its two work rings, as functions on sequences, and the ownership
// properties of every run.  The class in Knc.dfy refines these functions on arrays.
module KncSpec {
  import opened Sequences
  import opened Wrappers

  type Words8 = s: seq<bv32> | |s| == 8 witness seq(8, _ => 0)
  type Words3 = s: seq<bv32> | |s| == 3 witness seq(3, _ => 0)

  // A work item, named by the id under which the work tables hash it, with the midstate and the last three
  // words of the header.
  datatype Work = Work(id: nat, midstate: Words8, tail: Words3)

  // An entry of queued_fifo (work and the id it was last sent under) and of active_fifo.
  datatype Tagged = Tagged(work: Work, workId: bv32)
  datatype Entry = Entry(work: Work, workId: bv32, begin: int)

  datatype ResponseType = Nop | NonceFound | WorkDone | Reserved
  // `good` tells whether a reported nonce solves its work.
  datatype Response = Response(kind: ResponseType, workId: bv32, good: bool)

  // What is sent for a work; the words go in reverse order.
  datatype Request = Request(workId: bv32, midstate: Words8, tail: Words3)

  // What the FPGA returned: both parts are arbitrary.
  datatype Reply = Reply(accepted: nat, responses: seq<Response>)

  function Prepared(t: Tagged): (r: Request)
    ensures r.workId == t.workId
    ensures forall i :: 0 <= i < 8 ==> r.midstate[i] == t.work.midstate[7 - i]
    ensures forall i :: 0 <= i < 3 ==> r.tail[i] == t.work.tail[2 - i]
  {
    Request(t.workId, seq(8, i requires 0 <= i < 8 => t.work.midstate[7 - i]),
            seq(3, i requires 0 <= i < 3 => t.work.tail[2 - i]))
  }

  function PreparedAll(q: seq<Tagged>): (r: seq<Request>)
    ensures |r| == |q| && forall i :: 0 <= i < |q| ==> r[i] == Prepared(q[i])
  {
    seq(|q|, i requires 0 <= i < |q| => Prepared(q[i]))
  }

  const MAX_REQUESTS_IN_BATCH: nat := 85
  const MAX_ACTIVE_WORKS: nat := 192 * 2 * 6 * 2
  const WORK_STALE_US: int := 60000000
  const WORK_ID_MASK: bv32 := 0x7FFF

  const NONCE_RANGE: int := 0x1_0000_0000

  datatype Rings = Rings(queued: seq<Tagged>, active: seq<Entry>, completed: seq<Work>)

  function QueuedWorks(q: seq<Tagged>): (r: seq<Work>)
    ensures |r| == |q|
  {
    seq(|q|, i requires 0 <= i < |q| => q[i].work)
  }

  function ActiveWorks(a: seq<Entry>): (r: seq<Work>)
    ensures |r| == |a|
  {
    seq(|a|, i requires 0 <= i < |a| => a[i].work)
  }

  // ---------- one response of the FPGA ----------

  // Removal from the middle: the oldest entry is copied into the hole.
  function RemoveAt(a: seq<Entry>, p: nat): (r: seq<Entry>)
    requires p < |a|
    ensures |r| == |a| - 1
  {
    if p == 0 then a[1..] else a[1..][p - 1 := a[0]]
  }

  function Complete(r: Rings, p: nat): Rings
    requires p < |r.active|
  {
    r.(active := RemoveAt(r.active, p), completed := r.completed + [r.active[p].work])
  }

  // Time differences outside [0, WORK_STALE_US) make an entry stale; a clock set back counts too.
  predicate Stale(e: Entry, now: int) {
    now - e.begin < 0 || now - e.begin >= WORK_STALE_US
  }

  // Walk the active ring from position p to the entry with the given id, completing stale entries on
  // the way.  The position returned is |active| when no entry has the id.
  function Scan(r: Rings, p: nat, id: bv32, now: int): (res: (Rings, nat))
    requires p <= |r.active|
    ensures res.1 <= |res.0.active|
    ensures res.1 < |res.0.active| ==> res.0.active[res.1].workId == id
    decreases |r.active| - p
  {
    if p == |r.active| || r.active[p].workId == id then (r, p)
    else if Stale(r.active[p], now) then Scan(Complete(r, p), p, id, now)
    else Scan(r, p + 1, id, now)
  }

  lemma ScanStep(r: Rings, p: nat, id: bv32, now: int)
    requires p <= |r.active|
    ensures Scan(r, p, id, now) ==
            if p == |r.active| || r.active[p].workId == id then (r, p)
            else if Stale(r.active[p], now) then Scan(Complete(r, p), p, id, now)
            else Scan(r, p + 1, id, now)
  {
  }

  function Respond(r: Rings, resp: Response, now: int): Rings {
    if resp.kind != NonceFound && resp.kind != WorkDone then r
    else
      var (s, p) := Scan(r, 0, resp.workId, now);
      if p < |s.active| && resp.kind == WorkDone then Complete(s, p) else s
  }

  function RespondAll(r: Rings, resps: seq<Response>, now: int): Rings
    decreases |resps|
  {
    if resps == [] then r
    else Respond(RespondAll(r, resps[..|resps| - 1], now), resps[|resps| - 1], now)
  }

  // Whether a response reports a good nonce of a work that is active.
  ghost predicate Succeeds(r: Rings, resp: Response) {
    resp.kind == NonceFound && resp.good && exists e :: e in r.active && e.workId == resp.workId
  }

  // How many responses do, each at its turn.
  ghost function Successes(r: Rings, resps: seq<Response>, now: int): nat
    decreases |resps|
  {
    if resps == [] then 0
    else
      var before := resps[..|resps| - 1];
      Successes(r, before, now) + if Succeeds(RespondAll(r, before, now), resps[|resps| - 1]) then 1 else 0
  }

  // Move up to n works from the queued to the active ring.
  function Accept(r: Rings, n: nat, now: int): Rings
    decreases n
  {
    if n == 0 || r.queued == [] || |r.active| >= MAX_ACTIVE_WORKS then r
    else
      var e := Entry(r.queued[0].work, r.queued[0].workId, now);
      Accept(r.(queued := r.queued[1..], active := r.active + [e]), n - 1, now)
  }

  function Process(r: Rings, reply: Reply, moved: int, now: int): Rings {
    RespondAll(Accept(r, reply.accepted, moved), reply.responses, now)
  }

  // The works a ring pair still holds, and everything it ever held.
  ghost function Held(r: Rings): multiset<Work> {
    multiset(QueuedWorks(r.queued)) + multiset(ActiveWorks(r.active))
  }

  ghost function Account(r: Rings): multiset<Work> {
    Held(r) + multiset(r.completed)
  }

  // ---------- conservation ----------

  lemma RemoveAtWorks(a: seq<Entry>, p: nat)
    requires p < |a|
    ensures multiset(ActiveWorks(RemoveAt(a, p))) + multiset{a[p].work} == multiset(ActiveWorks(a))
    ensures forall e :: e in RemoveAt(a, p) ==> e in a
  {
    var w := ActiveWorks(a);
    assert w == [w[0]] + w[1..];
    if p == 0 {
      assert ActiveWorks(RemoveAt(a, p)) == w[1..];
    } else {
      assert ActiveWorks(RemoveAt(a, p)) == w[1..][p - 1 := w[0]];
    }
  }

  lemma CompleteAccount(r: Rings, p: nat)
    requires p < |r.active|
    ensures Account(Complete(r, p)) == Account(r)
    ensures Held(Complete(r, p)) + multiset{r.active[p].work} == Held(r)
  {
    RemoveAtWorks(r.active, p);
  }

  lemma {:induction false} ScanAccount(r: Rings, p: nat, id: bv32, now: int)
    requires p <= |r.active|
    ensures Account(Scan(r, p, id, now).0) == Account(r)
    ensures |Scan(r, p, id, now).0.active| <= |r.active|
    ensures Scan(r, p, id, now).0.queued == r.queued
    decreases |r.active| - p
  {
    if p == |r.active| || r.active[p].workId == id {
    } else if Stale(r.active[p], now) {
      CompleteAccount(r, p);
      ScanAccount(Complete(r, p), p, id, now);
    } else {
      ScanAccount(r, p + 1, id, now);
    }
  }

  lemma {:induction false} RespondAllAccount(r: Rings, resps: seq<Response>, now: int)
    ensures Account(RespondAll(r, resps, now)) == Account(r)
    ensures |RespondAll(r, resps, now).active| <= |r.active|
    ensures RespondAll(r, resps, now).queued == r.queued
    decreases |resps|
  {
    if resps != [] {
      var s := RespondAll(r, resps[..|resps| - 1], now);
      var resp := resps[|resps| - 1];
      RespondAllAccount(r, resps[..|resps| - 1], now);
      ScanAccount(s, 0, resp.workId, now);
      var (t, p) := Scan(s, 0, resp.workId, now);
      if p < |t.active| {
        CompleteAccount(t, p);
      }
    }
  }

  function Least(a: nat, b: nat): nat {
    if a < b then a else b
  }

  // How many works a reply moves.
  function Moved(r: Rings, n: nat): nat {
    if |r.active| >= MAX_ACTIVE_WORKS then 0
    else Least(n, Least(|r.queued|, MAX_ACTIVE_WORKS - |r.active|))
  }

  function Started(q: seq<Tagged>, now: int): (r: seq<Entry>)
    ensures |r| == |q|
    ensures forall i :: 0 <= i < |q| ==> r[i].work == q[i].work && r[i].workId == q[i].workId && r[i].begin == now
    ensures ActiveWorks(r) == QueuedWorks(q)
  {
    seq(|q|, i requires 0 <= i < |q| => Entry(q[i].work, q[i].workId, now))
  }

  lemma StartedFirst(q: seq<Tagged>, m: nat, now: int)
    requires 0 < m <= |q|
    ensures Started(q[..m], now) == [Entry(q[0].work, q[0].workId, now)] + Started(q[1..][..m - 1], now)
  {
  }

  // Accept moves the oldest queued works, in order, as many as the reply asks for and both rings allow.
  lemma {:induction false} AcceptMovesPrefix(r: Rings, n: nat, now: int)
    ensures var m := Moved(r, n);
            Accept(r, n, now) == Rings(r.queued[m..], r.active + Started(r.queued[..m], now), r.completed)
    decreases n
  {
    var m := Moved(r, n);
    if m == 0 {
      assert r.active + Started(r.queued[..m], now) == r.active;
    } else {
      var e := Entry(r.queued[0].work, r.queued[0].workId, now);
      var t := r.(queued := r.queued[1..], active := r.active + [e]);
      AcceptMovesPrefix(t, n - 1, now);
      assert Accept(r, n, now) == Accept(t, n - 1, now);
      hide Accept;
      assert t.queued[m - 1..] == r.queued[m..];
      StartedFirst(r.queued, m, now);
      assert r.active + ([e] + Started(t.queued[..m - 1], now)) == t.active + Started(t.queued[..m - 1], now);
    }
  }

  lemma AcceptAccount(r: Rings, n: nat, now: int)
    ensures Held(Accept(r, n, now)) == Held(r)
    ensures Account(Accept(r, n, now)) == Account(r)
  {
    var m, s := Moved(r, n), Accept(r, n, now);
    AcceptMovesPrefix(r, n, now);
    var started := Started(r.queued[..m], now);
    assert ActiveWorks(s.active) == ActiveWorks(r.active) + ActiveWorks(started);
    assert QueuedWorks(r.queued) == ActiveWorks(started) + QueuedWorks(s.queued);
  }

  lemma ProcessAccount(r: Rings, reply: Reply, moved: int, now: int)
    ensures Account(Process(r, reply, moved, now)) == Account(r)
    ensures |r.active| <= MAX_ACTIVE_WORKS ==> |Process(r, reply, moved, now).active| <= MAX_ACTIVE_WORKS
    ensures |Process(r, reply, moved, now).queued| <= |r.queued|
  {
    AcceptMovesPrefix(r, reply.accepted, moved);
    AcceptAccount(r, reply.accepted, moved);
    RespondAllAccount(Accept(r, reply.accepted, moved), reply.responses, now);
  }

  // ---------- which works a response completes ----------

  lemma RemoveAtKeeps(a: seq<Entry>, p: nat)
    requires p < |a|
    ensures forall e :: e in RemoveAt(a, p) ==> e in a
    ensures forall e :: e in a && e != a[p] ==> e in RemoveAt(a, p)
    ensures forall i :: 0 <= i < p ==> RemoveAt(a, p)[i] == a[if i == p - 1 then 0 else i + 1]
  {
    RemoveAtWorks(a, p);
    forall e | e in a && e != a[p]
      ensures e in RemoveAt(a, p)
    {
      var i :| 0 <= i < |a| && a[i] == e;
      if i == 0 {
        assert RemoveAt(a, p)[p - 1] == e;
      } else {
        assert RemoveAt(a, p)[i - 1] == e;
      }
    }
  }

  // An entry leaves the active ring only when it is stale or when the response reports it done; what the
  // walk has passed is neither stale nor the entry looked for, so at most one fresh entry is removed.
  lemma {:induction false} ScanRemovesOnlyStale(r: Rings, p: nat, id: bv32, now: int)
    requires p <= |r.active|
    requires forall i :: 0 <= i < p ==> r.active[i].workId != id && !Stale(r.active[i], now)
    ensures var (s, q) := Scan(r, p, id, now);
            && (forall i :: 0 <= i < q ==> s.active[i].workId != id && !Stale(s.active[i], now))
            && (forall e :: e in s.active ==> e in r.active)
            && (forall e :: e in r.active && !Stale(e, now) ==> e in s.active)
            && (forall e :: e in r.active && e.workId == id ==> e in s.active)
            && (q < |s.active| <==> exists e :: e in r.active && e.workId == id)
    decreases |r.active| - p
  {
    if p == |r.active| {
    } else if r.active[p].workId == id {
    } else if Stale(r.active[p], now) {
      var c := Complete(r, p);
      RemoveAtKeeps(r.active, p);
      ScanRemovesOnlyStale(c, p, id, now);
    } else {
      ScanRemovesOnlyStale(r, p + 1, id, now);
    }
  }

  lemma RemoveAtEntries(a: seq<Entry>, p: nat)
    requires p < |a|
    ensures multiset(RemoveAt(a, p)) + multiset{a[p]} == multiset(a)
  {
    assert a == [a[0]] + a[1..];
    if p > 0 {
      assert a[1..] == a[1..p] + [a[p]] + a[p + 1..];
      assert RemoveAt(a, p) == a[1..p] + [a[0]] + a[p + 1..];
    }
  }

  // The walk keeps every copy of an entry that is not stale or carries the id.
  lemma {:induction false} ScanKeeps(r: Rings, p: nat, id: bv32, now: int, e: Entry)
    requires p <= |r.active| && (!Stale(e, now) || e.workId == id)
    ensures multiset(Scan(r, p, id, now).0.active)[e] == multiset(r.active)[e]
    decreases |r.active| - p
  {
    if p == |r.active| || r.active[p].workId == id {
    } else if Stale(r.active[p], now) {
      RemoveAtEntries(r.active, p);
      hide RemoveAt;
      assert multiset(Complete(r, p).active) + multiset{r.active[p]} == multiset(r.active);
      ScanKeeps(Complete(r, p), p, id, now, e);
    } else {
      ScanKeeps(r, p + 1, id, now, e);
    }
  }

  // The entry that a done report completes.
  function Gone(r: Rings, resp: Response, now: int): Option<Entry> {
    var (s, p) := Scan(r, 0, resp.workId, now);
    if resp.kind == WorkDone && p < |s.active| then Some(s.active[p]) else None
  }

  // A nonce report keeps every entry begun in the last minute; a done report removes, besides older entries, one
  // copy of one entry that carries the reported id, and only if there is one; other kinds change nothing.
  lemma RespondRemoves(r: Rings, resp: Response, now: int)
    ensures var s, gone := Respond(r, resp, now), Gone(r, resp, now);
            && (gone.Some? <==> resp.kind == WorkDone && exists e :: e in r.active && e.workId == resp.workId)
            && (gone.Some? ==> gone.value in r.active && gone.value.workId == resp.workId
                               && s.completed != [] && s.completed[|s.completed| - 1] == gone.value.work)
            && (forall e :: e in s.active ==> e in r.active)
            && (forall e: Entry :: 0 <= now - e.begin < 60_000_000 || e.workId == resp.workId ==>
                  multiset(r.active)[e] == multiset(s.active)[e] + if gone == Some(e) then 1 else 0)
            && (resp.kind != NonceFound && resp.kind != WorkDone ==> s == r)
  {
    ScanRemovesOnlyStale(r, 0, resp.workId, now);
    if resp.kind == NonceFound || resp.kind == WorkDone {
      var (t, p) := Scan(r, 0, resp.workId, now);
      forall e | !Stale(e, now) || e.workId == resp.workId
        ensures multiset(t.active)[e] == multiset(r.active)[e]
      {
        ScanKeeps(r, 0, resp.workId, now, e);
      }
      if p < |t.active| && resp.kind == WorkDone {
        RemoveAtEntries(t.active, p);
        RemoveAtWorks(t.active, p);
      }
    }
  }

  // A report whose id no entry carries leaves no entry that was not begun in the last minute.
  lemma RespondSweeps(r: Rings, resp: Response, now: int)
    requires (resp.kind == NonceFound || resp.kind == WorkDone) && forall e :: e in r.active ==> e.workId != resp.workId
    ensures forall e :: e in Respond(r, resp, now).active ==> 0 <= now - e.begin < 60_000_000
  {
    ScanRemovesOnlyStale(r, 0, resp.workId, now);
  }

  // While all entries are younger than a minute, a done report completes the oldest entry that carries its id,
  // and the oldest of all takes its place; what the other entries are and where they stand does not change.
  lemma RespondFresh(r: Rings, resp: Response, now: int) returns (i: nat)
    requires forall e :: e in r.active ==> 0 <= now - e.begin < 60_000_000
    ensures i <= |r.active| && (forall j :: 0 <= j < i ==> r.active[j].workId != resp.workId)
    ensures i < |r.active| ==> r.active[i].workId == resp.workId
    ensures var s := Respond(r, resp, now);
            if resp.kind == WorkDone && i < |r.active| then
              && s.queued == r.queued && s.completed == r.completed + [r.active[i].work]
              && |s.active| == |r.active| - 1
              && forall j :: 0 <= j < |s.active| ==> s.active[j] == r.active[if j == i - 1 then 0 else j + 1]
            else s == r
  {
    i := FreshScan(r, 0, resp.workId, now);
  }

  lemma {:induction false} FreshScan(r: Rings, p: nat, id: bv32, now: int) returns (i: nat)
    requires p <= |r.active| && forall e :: e in r.active ==> !Stale(e, now)
    ensures p <= i <= |r.active| && Scan(r, p, id, now) == (r, i)
    ensures (forall j :: p <= j < i ==> r.active[j].workId != id) && (i < |r.active| ==> r.active[i].workId == id)
    decreases |r.active| - p
  {
    i := p;
    if p < |r.active| && r.active[p].workId != id {
      i := FreshScan(r, p + 1, id, now);
    }
  }

  // Responses are handled in their order, and so are the successes counted.
  lemma {:induction false} RespondInOrder(r: Rings, a: seq<Response>, b: seq<Response>, now: int)
    ensures RespondAll(r, a + b, now) == RespondAll(RespondAll(r, a, now), b, now)
    ensures Successes(r, a + b, now) == Successes(r, a, now) + Successes(RespondAll(r, a, now), b, now)
    decreases |b|
  {
    hide Respond;
    hide Succeeds;
    if b == [] {
      assert a + b == a;
    } else {
      var n := |b| - 1;
      RespondInOrder(r, a, b[..n], now);
      assert (a + b)[..|a + b| - 1] == a + b[..n];
    }
  }

  // A work can be accepted and reported done by the same reply.
  lemma DoneAtOnce(t: Tagged, good: bool, completed: seq<Work>, moved: int, now: int)
    requires 0 <= now - moved < 60_000_000
    ensures var reply := Reply(1, [Response(WorkDone, t.workId, good)]);
            Process(Rings([t], [], completed), reply, moved, now) == Rings([], [], completed + [t.work])
  {
    var r := Rings([t], [], completed);
    var s := Rings([], [Entry(t.work, t.workId, moved)], completed);
    var resps := [Response(WorkDone, t.workId, good)];
    assert Accept(r, 1, moved) == s;
    assert resps[..0] == [];
    assert RespondAll(s, resps, now) == Respond(RespondAll(s, [], now), resps[0], now);
    var i := RespondFresh(s, resps[0], now);
  }

  // ---------- the ids under which works are sent ----------

  // A number of works of one batch, as a 32-bit word.
  function Word(k: nat): bv32
    decreases k
  {
    if k == 0 then 0 else Plus(Word(k - 1), 1)
  }

  lemma {:induction false} WordIs(k: nat)
    requires k <= MAX_REQUESTS_IN_BATCH
    ensures Word(k) <= 85 && Word(k) as int == k
    decreases k
  {
    if k > 0 {
      WordIs(k - 1);
      NextWord(Word(k - 1));
    }
  }

  lemma NextWord(x: bv32)
    requires x as int < 85
    ensures x < 85 && (x + 1) as int == x as int + 1
  {
  }

  lemma WordsDiffer(j: nat, k: nat)
    requires j < k <= MAX_REQUESTS_IN_BATCH
    ensures Word(j) <= 85 && Word(k) <= 85 && Word(j) != Word(k)
  {
    hide Word;
    WordIs(j);
    WordIs(k);
  }

  lemma PlusWord(next: bv32, k: nat)
    ensures Plus(next, Word(0)) == next
    ensures k > 0 ==> Plus(Plus(next, 1), Word(k - 1)) == Plus(next, Word(k))
  {
    hide Plus;
    PlusZero(next);
    if k > 0 {
      PlusOne(next, Word(k - 1));
    }
  }

  lemma PlusZero(x: bv32)
    ensures Plus(x, 0) == x
  {
  }

  lemma PlusOne(x: bv32, y: bv32)
    ensures Plus(Plus(x, 1), y) == Plus(x, Plus(y, 1))
  {
    hide Plus;
    PlusIsSum(x, 1);
    PlusIsSum(y, 1);
    PlusSums(x, y);
  }

  lemma PlusIsSum(x: bv32, y: bv32)
    ensures Plus(x, y) == x + y
  {
  }

  lemma PlusSums(x: bv32, y: bv32)
    ensures Plus(x + 1, y) == Plus(x, y + 1)
  {
  }

  // The counter moves on by one for each work, and the k-th id of a batch is derived from its k-th value.
  lemma {:induction false} TagAt(works: seq<Work>, next: bv32, salt: bv32, k: nat)
    requires k < |works|
    ensures Tag(works, next, salt)[k] == Tagged(works[k], WorkId(Plus(next, Word(k)), salt))
    decreases k
  {
    hide Plus;
    hide Word;
    hide WorkId;
    PlusWord(next, k);
    if k > 0 {
      TagAt(works[1..], Plus(next, 1), salt, k - 1);
    }
  }

  lemma {:induction false} AdvanceAdds(next: bv32, k: nat)
    ensures Advance(next, k) == Plus(next, Word(k))
    decreases k
  {
    hide Plus;
    hide Word;
    PlusWord(next, k);
    if k > 0 {
      AdvanceAdds(Plus(next, 1), k - 1);
    }
  }

  // Two counters give the same id exactly if they agree in the low 15 bits.
  lemma CountersMeet(m: bv32, n: bv32, salt: bv32)
    ensures WorkId(m, salt) == WorkId(n, salt) <==> m & 0x7FFF == n & 0x7FFF
  {
    hide WorkId;
    if m & 0x7FFF == n & 0x7FFF {
      SameCounter(m, n, salt);
    } else if WorkId(m, salt) == WorkId(n, salt) {
      SameId(m, n, salt);
    }
  }

  lemma SameCounter(m: bv32, n: bv32, s: bv32)
    requires m & 0x7FFF == n & 0x7FFF
    ensures WorkId(m, s) == WorkId(n, s)
  {
    MaskedCounters(m, n, s);
  }

  lemma SameId(m: bv32, n: bv32, s: bv32)
    requires WorkId(m, s) == WorkId(n, s)
    ensures m & 0x7FFF == n & 0x7FFF
  {
    MaskedCounters(m, n, s);
  }

  lemma MaskedCounters(m: bv32, n: bv32, s: bv32)
    ensures (m ^ s) & 0x7FFF == (n ^ s) & 0x7FFF <==> m & 0x7FFF == n & 0x7FFF
  {
  }

  // Two salts give the same id for a counter exactly if they agree in the low 15 bits.
  lemma SaltsMeet(n: bv32, salt: bv32, other: bv32)
    ensures WorkId(n, salt) == WorkId(n, other) <==> salt & 0x7FFF == other & 0x7FFF
  {
    hide WorkId;
    SaltIsCounter(n, salt);
    SaltIsCounter(n, other);
    CountersMeet(salt, other, n);
  }

  lemma SaltIsCounter(n: bv32, salt: bv32)
    ensures WorkId(n, salt) == WorkId(salt, n)
  {
    XorCommutes(n, salt);
  }

  lemma XorCommutes(m: bv32, s: bv32)
    ensures (m ^ s) & 0x7FFF == (s ^ m) & 0x7FFF
  {
  }

  // Without a salt the id is the counter modulo 2^15, and every id is below 2^15.
  lemma IdsAreLow(n: bv32, salt: bv32)
    ensures WorkId(n, salt) < 0x8000 && WorkId(n, 0) == n % 0x8000
  {
    MaskedLow(n, salt);
  }

  lemma MaskedLow(m: bv32, s: bv32)
    ensures (m ^ s) & 0x7FFF < 0x8000 && (m ^ 0) & 0x7FFF == m & 0x7FFF == m % 0x8000
  {
  }

  // The works of a batch are sent under different ids.
  lemma TagsDiffer(works: seq<Work>, next: bv32, salt: bv32, j: nat, k: nat)
    requires j < k < |works| && |works| <= MAX_REQUESTS_IN_BATCH
    ensures Tag(works, next, salt)[j].workId != Tag(works, next, salt)[k].workId
  {
    hide Tag;
    hide Plus;
    hide Word;
    hide WorkId;
    TagAt(works, next, salt, j);
    TagAt(works, next, salt, k);
    WordsDiffer(j, k);
    IdsDiffer(next, Word(j), Word(k), salt);
  }

  lemma IdsDiffer(next: bv32, a: bv32, b: bv32, salt: bv32)
    requires a <= 85 && b <= 85 && a != b
    ensures WorkId(Plus(next, a), salt) != WorkId(Plus(next, b), salt)
  {
    hide WorkId;
    if WorkId(Plus(next, a), salt) == WorkId(Plus(next, b), salt) {
      SameId(Plus(next, a), Plus(next, b), salt);
      hide Plus;
      LowApart(next, a, b);
    }
  }

  lemma LowApart(next: bv32, a: bv32, b: bv32)
    requires a <= 85 && b <= 85 && a != b
    ensures Plus(next, a) & 0x7FFF != Plus(next, b) & 0x7FFF
  {
    Apart(next, a, b);
  }

  lemma Apart(next: bv32, a: bv32, b: bv32)
    requires a <= 85 && b <= 85 && a != b
    ensures (next + a) & 0x7FFF != (next + b) & 0x7FFF
  {
  }

  // ---------- whole runs ----------

  // The driver with its queue of one unqueued work and two ghost logs: the works taken by get_queued and
  // the works given back by work_completed.
  datatype State = State(unqueued: Option<Work>, queued: seq<Work>, active: seq<Entry>, nextWorkId: bv32,
                         salt: bv32, fetched: seq<Work>, completed: seq<Work>)

  datatype Step =
    | Offer(work: Work)
    | QueueFull
    | Scanwork(reply: Option<Reply>, moved: int, now: int)
    | FlushWork(reply: Option<Reply>, moved: int, now: int)

  function Initial(salt: bv32): State {
    State(None, [], [], 0, salt, [], [])
  }

  // The id the driver derives from its counter.
  function WorkId(nextWorkId: bv32, salt: bv32): bv32 {
    (nextWorkId ^ salt) & WORK_ID_MASK
  }

  // The counter has 32 bits.
  function Plus(nextWorkId: bv32, n: bv32): bv32 {
    nextWorkId + n
  }

  // The ids under which the queued works are sent, oldest first.
  function Tag(works: seq<Work>, nextWorkId: bv32, salt: bv32): (r: seq<Tagged>)
    ensures QueuedWorks(r) == works
    decreases |works|
  {
    if works == [] then []
    else
      var t := [Tagged(works[0], WorkId(nextWorkId, salt))] + Tag(works[1..], Plus(nextWorkId, 1), salt);
      assert QueuedWorks(t) == [works[0]] + works[1..];
      t
  }

  function Advance(nextWorkId: bv32, n: nat): bv32
    decreases n
  {
    if n == 0 then nextWorkId else Advance(Plus(nextWorkId, 1), n - 1)
  }

  function ProcessState(s: State, queued: seq<Tagged>, reply: Reply, moved: int, now: int): State {
    var r := Process(Rings(queued, s.active, s.completed), reply, moved, now);
    s.(queued := QueuedWorks(r.queued), active := r.active, completed := r.completed)
  }

  function OfferStep(s: State, w: Work): State {
    if s.unqueued.None? then s.(unqueued := Some(w)) else s
  }

  function QueueFullStep(s: State): State {
    if |s.queued| == MAX_REQUESTS_IN_BATCH || s.unqueued.None? then s
    else s.(unqueued := None, queued := s.queued + [s.unqueued.value], fetched := s.fetched + [s.unqueued.value])
  }

  function ScanworkStep(s: State, reply: Option<Reply>, moved: int, now: int): State {
    var tagged := Tag(s.queued, s.nextWorkId, s.salt);
    var t := s.(nextWorkId := Advance(s.nextWorkId, |s.queued|));
    if reply.None? then t else ProcessState(t, tagged, reply.value, moved, now)
  }

  function Drain(s: State): State {
    s.(queued := [], active := [], completed := s.completed + s.queued + ActiveWorks(s.active))
  }

  function FlushStep(s: State, reply: Option<Reply>, moved: int, now: int): State {
    if reply.None? then Drain(s) else ProcessState(Drain(s), [], reply.value, moved, now)
  }

  function Next(s: State, step: Step): State {
    match step
    case Offer(w) => OfferStep(s, w)
    case QueueFull => QueueFullStep(s)
    case Scanwork(reply, moved, now) => ScanworkStep(s, reply, moved, now)
    case FlushWork(reply, moved, now) => FlushStep(s, reply, moved, now)
  }

  function Run(s: State, steps: seq<Step>): State {
    if steps == [] then s else Next(Run(s, steps[..|steps| - 1]), steps[|steps| - 1])
  }

  function Offered(steps: seq<Step>): seq<Work> {
    if steps == [] then []
    else
      var rest := Offered(steps[..|steps| - 1]);
      var last := steps[|steps| - 1];
      if last.Offer? then rest + [last.work] else rest
  }

  // A work that was offered is dropped at once, still unqueued, or fetched.
  ghost predicate Conserved(s: State) {
    && |s.queued| <= MAX_REQUESTS_IN_BATCH
    && |s.active| <= MAX_ACTIVE_WORKS
    && multiset(s.fetched) == multiset(s.queued) + multiset(ActiveWorks(s.active)) + multiset(s.completed)
  }

  lemma ProcessStateConserves(s: State, queued: seq<Tagged>, reply: Reply, moved: int, now: int)
    requires Conserved(s) && QueuedWorks(queued) == s.queued
    ensures Conserved(ProcessState(s, queued, reply, moved, now))
  {
    ProcessAccount(Rings(queued, s.active, s.completed), reply, moved, now);
  }

  lemma QueueFullConserves(s: State)
    requires Conserved(s)
    ensures Conserved(QueueFullStep(s))
  {
  }

  lemma ScanworkConserves(s: State, reply: Option<Reply>, moved: int, now: int)
    requires Conserved(s)
    ensures Conserved(ScanworkStep(s, reply, moved, now))
  {
    hide ProcessState;
    if reply.Some? {
      var t := s.(nextWorkId := Advance(s.nextWorkId, |s.queued|));
      ProcessStateConserves(t, Tag(s.queued, s.nextWorkId, s.salt), reply.value, moved, now);
    }
  }

  lemma DrainConserves(s: State)
    requires Conserved(s)
    ensures Conserved(Drain(s))
  {
  }

  lemma FlushConserves(s: State, reply: Option<Reply>, moved: int, now: int)
    requires Conserved(s)
    ensures Conserved(FlushStep(s, reply, moved, now))
  {
    hide ProcessState;
    DrainConserves(s);
    if reply.Some? {
      ProcessStateConserves(Drain(s), [], reply.value, moved, now);
    }
  }

  lemma NextConserves(s: State, step: Step)
    requires Conserved(s)
    ensures Conserved(Next(s, step))
  {
    hide QueueFullStep;
    hide ScanworkStep;
    hide FlushStep;
    match step
    case Offer(w) =>
    case QueueFull => QueueFullConserves(s);
    case Scanwork(reply, moved, now) => ScanworkConserves(s, reply, moved, now);
    case FlushWork(reply, moved, now) => FlushConserves(s, reply, moved, now);
  }

  lemma {:induction false} DistinctMultiplicity<T>(s: seq<T>, x: T)
    ensures Distinct(s) ==> multiset(s)[x] <= 1
    decreases |s|
  {
    if s != [] {
      var n := |s| - 1;
      assert s == s[..n] + [s[n]];
      DistinctMultiplicity(s[..n], x);
      if Distinct(s) {
        if s[n] == x {
          assert x !in s[..n];
        }
      }
    }
  }

  lemma MultiplicityDistinct<T>(s: seq<T>)
    requires forall x :: multiset(s)[x] <= 1
    ensures Distinct(s)
  {
    forall i, j | 0 <= i < j < |s|
      ensures s[i] != s[j]
    {
      assert s == s[..j] + [s[j]] + s[j + 1..];
      assert multiset(s)[s[j]] == multiset(s[..j])[s[j]] + 1 + multiset(s[j + 1..])[s[j]];
      assert s[i] in s[..j];
    }
  }

  lemma {:induction false} RunConserves(salt: bv32, steps: seq<Step>)
    ensures Conserved(Run(Initial(salt), steps))
    decreases |steps|
  {
    if steps != [] {
      RunConserves(salt, steps[..|steps| - 1]);
      NextConserves(Run(Initial(salt), steps[..|steps| - 1]), steps[|steps| - 1]);
    }
  }

  // No work is fetched more often than it was offered.
  lemma {:induction false} RunFetches(salt: bv32, steps: seq<Step>, w: Work)
    ensures var s := Run(Initial(salt), steps);
            multiset(s.fetched)[w] + (if s.unqueued == Some(w) then 1 else 0) <= multiset(Offered(steps))[w]
    decreases |steps|
  {
    if steps != [] {
      var s, last := Run(Initial(salt), steps[..|steps| - 1]), steps[|steps| - 1];
      RunFetches(salt, steps[..|steps| - 1], w);
      match last
      case Offer(x) =>
      case QueueFull =>
      case Scanwork(reply, moved, now) =>
        assert ScanworkStep(s, reply, moved, now).fetched == s.fetched;
      case FlushWork(reply, moved, now) =>
        assert FlushStep(s, reply, moved, now).fetched == s.fetched;
    }
  }

  // Main result: over every run, with every reply of the device, a fetched work is in exactly one place:
  // once in the queued window, once in the active window, or completed once.
  lemma EveryWorkInOnePlace(salt: bv32, steps: seq<Step>)
    requires Distinct(Offered(steps))
    ensures var s := Run(Initial(salt), steps);
            && Distinct(s.fetched) && Distinct(s.completed)
            && Distinct(s.queued + ActiveWorks(s.active))
            && (forall w :: w in s.fetched && w !in s.completed <==> w in s.queued + ActiveWorks(s.active))
            && |s.fetched| == |s.queued| + |s.active| + |s.completed|
            && |s.queued| <= MAX_REQUESTS_IN_BATCH && |s.active| <= MAX_ACTIVE_WORKS
  {
    var s := Run(Initial(salt), steps);
    RunConserves(salt, steps);
    var held := s.queued + ActiveWorks(s.active);
    assert multiset(s.fetched) == multiset(held) + multiset(s.completed);
    forall w
      ensures multiset(s.fetched)[w] <= 1
      ensures multiset(held)[w] <= 1 && multiset(s.completed)[w] <= 1
    {
      RunFetches(salt, steps, w);
      DistinctMultiplicity(Offered(steps), w);
    }
    MultiplicityDistinct(s.fetched);
    MultiplicityDistinct(s.completed);
    MultiplicityDistinct(held);
    forall w
      ensures w in s.fetched && w !in s.completed <==> w in held
    {
      assert w in s.fetched <==> multiset(s.fetched)[w] > 0;
      assert w in held <==> multiset(held)[w] > 0;
      assert w in s.completed <==> multiset(s.completed)[w] > 0;
    }
    assert |multiset(s.fetched)| == |multiset(held)| + |multiset(s.completed)|;
  }

  lemma {:induction false} NothingLeftToRespond(r: Rings, resps: seq<Response>, now: int)
    requires r.active == []
    ensures RespondAll(r, resps, now) == r
    decreases |resps|
  {
    if resps != [] {
      NothingLeftToRespond(r, resps[..|resps| - 1], now);
    }
  }

  // A flush completes everything that was fetched, whatever the device replies.
  lemma FlushCompletesAll(salt: bv32, steps: seq<Step>, reply: Option<Reply>, moved: int, now: int)
    requires steps != [] && steps[|steps| - 1] == FlushWork(reply, moved, now)
    ensures var s := Run(Initial(salt), steps);
            s.queued == [] && s.active == [] && multiset(s.completed) == multiset(s.fetched)
  {
    var s := Run(Initial(salt), steps[..|steps| - 1]);
    RunConserves(salt, steps);
    if reply.Some? {
      var d := Drain(s);
      NothingLeftToRespond(Rings([], d.active, d.completed), reply.value.responses, now);
    }
  }
}
