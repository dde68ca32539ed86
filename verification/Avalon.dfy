// The batch array of the Avalon driver (driver-avalon.c): batches of miner_count works go round an array
// of several batches, and a work is forgotten only when its slot is needed again.
module Avalon {
  import Sequences


  class Work {
    var subid: int

    constructor ()
      ensures subid == 0
    {
      subid := 0;
    }
  }

  lemma Multiple(k: int, m: nat)
    ensures k >= 1 ==> k * m >= m
    ensures k <= 0 ==> k * m <= 0
    ensures k <= -1 ==> k * m + m <= 0
  {
  }

  lemma Quotient(n: nat, q: nat, r: nat, m: nat)
    requires r < m && n == q * m + r
    ensures n / m == q && n % m == r
  {
    Multiple(q - n / m, m);
    assert (q - n / m) * m == q * m - (n / m) * m;
  }

  // Slots of the same batch position are `size` batches apart.
  lemma SameResidue(size: nat, p: nat, q: nat)
    requires size > 0 && p < q && p % size == q % size
    ensures p + size <= q
  {
    Multiple(q / size - p / size, size);
    assert (q / size - p / size) * size == (q / size) * size - (p / size) * size;
  }

  // A slot number from a batch position and a number within the batch, and back.
  lemma SlotParts(mc: nat, a: nat, k: nat)
    requires k < mc
    ensures (a * mc + k) / mc == a && (a * mc + k) % mc == k
  {
    Quotient(a * mc + k, a, k, mc);
  }

  lemma SlotInRange(mc: nat, size: nat, a: nat, k: nat)
    requires a < size && k < mc
    ensures a * mc + k < size * mc
  {
    assert (a + 1) * mc <= size * mc;
  }

  // The table holds exactly the works of the array, and no work is in two slots.
  ghost predicate Agrees(ws: seq<Work?>, table: set<Work>) {
    && (forall i :: 0 <= i < |ws| && ws[i] != null ==> ws[i] in table)
    && (forall w :: w in table ==> w in ws)
    && (forall i, j :: 0 <= i < j < |ws| && ws[i] != null ==> ws[i] != ws[j])
  }

  // A work knows its number within its batch.
  ghost predicate Numbered(ws: seq<Work?>, mc: nat)
    requires mc > 0
    reads ws
  {
    forall i :: 0 <= i < |ws| && ws[i] != null ==> ws[i].subid == i % mc
  }

  // A slot was filled in a batch of its own position, not in a later one.
  ghost predicate Aged(ws: seq<Work?>, born: seq<nat>, batch: nat, size: nat, mc: nat)
    requires size > 0 && mc > 0
  {
    && |born| == |ws|
    && forall i :: 0 <= i < |ws| && ws[i] != null ==> born[i] <= batch && born[i] % size == i / mc
  }

  // The slots that the current batch has yet to fill were filled by earlier ones.
  ghost predicate Remaining(ws: seq<Work?>, born: seq<nat>, batch: nat, position: nat, mc: nat, queued: nat)
    requires mc > 0 && |born| == |ws|
  {
    forall i :: 0 <= i < |ws| && ws[i] != null && i / mc == position && i % mc >= queued ==> born[i] < batch
  }

  lemma PlaceAgrees(ws: seq<Work?>, table: set<Work>, slot: nat, w: Work)
    requires Agrees(ws, table) && slot < |ws| && w !in table
    ensures Agrees(ws[slot := w], if ws[slot] == null then table + {w} else table + {w} - {ws[slot]})
    ensures w !in ws
  {
    var now := ws[slot := w];
    var left := if ws[slot] == null then table + {w} else table + {w} - {ws[slot]};
    forall x | x in left
      ensures x in now
    {
      if x == w {
        assert now[slot] == x;
      } else {
        var i :| 0 <= i < |ws| && ws[i] == x;
        assert now[i] == x;
      }
    }
  }

  // The work in the slot that is filled next was put there a whole round ago, or by the same batch.
  lemma SlotAge(ws: seq<Work?>, born: seq<nat>, batch: nat, size: nat, mc: nat, queued: nat, slot: nat)
    requires size > 0 && queued < mc && Aged(ws, born, batch, size, mc)
    requires slot == (batch % size) * mc + queued && slot < |ws|
    ensures slot / mc == batch % size && slot % mc == queued
    ensures ws[slot] != null ==> born[slot] + size <= batch || born[slot] == batch
  {
    SlotParts(mc, batch % size, queued);
    if ws[slot] != null && born[slot] < batch {
      SameResidue(size, born[slot], batch);
    }
  }

  lemma PlaceRemaining(ws: seq<Work?>, born: seq<nat>, batch: nat, position: nat, mc: nat, queued: nat, slot: nat,
                       w: Work)
    requires queued < mc && |born| == |ws| && slot < |ws| && slot == position * mc + queued
    requires Remaining(ws, born, batch, position, mc, queued)
    ensures Remaining(ws[slot := w], born[slot := batch], batch, position, mc, queued + 1)
  {
    SlotParts(mc, position, queued);
    forall i | 0 <= i < |ws| && ws[slot := w][i] != null && i / mc == position && i % mc >= queued + 1
      ensures born[slot := batch][i] < batch
    {
      assert i != slot && ws[i] != null;
    }
  }

  lemma PlaceAged(ws: seq<Work?>, born: seq<nat>, batch: nat, size: nat, mc: nat, queued: nat, slot: nat, w: Work)
    requires size > 0 && queued < mc && Aged(ws, born, batch, size, mc)
    requires slot == (batch % size) * mc + queued && slot < |ws|
    ensures |born| == |ws| && Aged(ws[slot := w], born[slot := batch], batch, size, mc)
    ensures Remaining(ws, born, batch, batch % size, mc, queued) ==>
              && Remaining(ws[slot := w], born[slot := batch], batch, batch % size, mc, queued + 1)
              && (ws[slot] != null ==> born[slot] + size <= batch)
    ensures ws[slot] != null ==> born[slot] + size <= batch || born[slot] == batch
  {
    SlotAge(ws, born, batch, size, mc, queued, slot);
    if Remaining(ws, born, batch, batch % size, mc, queued) {
      PlaceRemaining(ws, born, batch, batch % size, mc, queued, slot, w);
    }
    forall i | 0 <= i < |ws| && i != slot && ws[i] != null
      ensures born[i] <= batch && born[i] % size == i / mc
    {
    }
  }

  // In the next batch no slot was filled yet.
  lemma NextRemaining(ws: seq<Work?>, born: seq<nat>, batch: nat, size: nat, mc: nat)
    requires size > 0 && mc > 0 && Aged(ws, born, batch, size, mc)
    ensures Aged(ws, born, batch + 1, size, mc)
    ensures Remaining(ws, born, batch + 1, (batch + 1) % size, mc, 0)
  {
  }

  class AvalonInfo {
    const minerCount: nat
    // AVALON_ARRAY_SIZE, or BITBURNER_ARRAY_SIZE for the boards that use it.
    const arraySize: nat
    const works: array<Work?>
    var queued: nat
    var workArray: nat
    var unqueued: Work?
    // The works that the core can find for this device.
    var queuedWork: set<Work>

    // The number of rotations, whether there was a flush since the last one, and the rotation at which
    // each slot was filled.
    ghost var batch: nat
    ghost var flushed: bool
    ghost var born: seq<nat>

    ghost predicate Valid()
      reads this, works, set i | 0 <= i < works.Length :: works[i]
    {
      && minerCount > 0 && arraySize > 0
      && works.Length == arraySize * minerCount
      && queued <= minerCount
      && workArray == batch % arraySize
      && Agrees(works[..], queuedWork)
      && (unqueued != null ==> unqueued !in queuedWork)
      && Numbered(works[..], minerCount)
      && Aged(works[..], born, batch, arraySize, minerCount)
      && (!flushed ==> Remaining(works[..], born, batch, workArray, minerCount, queued))
    }

    constructor (mc: nat, size: nat)
      requires mc > 0 && size > 0
      ensures Valid() && fresh(works) && minerCount == mc && arraySize == size
      ensures queued == 0 && queuedWork == {} && unqueued == null
    {
      minerCount, arraySize := mc, size;
      works := new Work?[size * mc](_ => null);
      queued, workArray, unqueued, queuedWork := 0, 0, null, {};
      batch, flushed, born := 0, false, seq(size * mc, _ => 0);
    }

    // The core offers the next work if none is waiting.
    method Offer(work: Work)
      requires Valid() && work !in queuedWork
      modifies `unqueued
      ensures Valid() && unqueued == if old(unqueued) == null then work else old(unqueued)
    {
      if unqueued == null {
        unqueued := work;
      }
    }

    // avalon_fill: the result tells whether the batch is full. The work that loses its slot was put there
    // a whole round of batches ago, or by the same batch before a flush.
    method Fill() returns (full: bool, ghost victim: Work?)
      requires Valid()
      modifies `queued, `unqueued, `queuedWork, `born, works, if unqueued != null then {unqueued} else {}
      ensures Valid() && (full <==> queued >= minerCount)
      ensures old(queued) >= minerCount || old(unqueued) == null ==>
                queued == old(queued) && unqueued == old(unqueued) && works[..] == old(works[..])
                && queuedWork == old(queuedWork) && victim == null
      ensures old(queued) < minerCount && old(unqueued) != null ==>
                var slot := workArray * minerCount + old(queued);
                && slot < works.Length && queued == old(queued) + 1 && unqueued == null
                && works[..] == old(works[..])[slot := old(unqueued)]
                && born == old(born)[slot := batch]
                && victim == old(works[..])[slot]
                && queuedWork == old(queuedWork) + {old(unqueued)} - {victim}
                && (victim != null ==>
                      old(born)[slot] + arraySize <= batch || (flushed && old(born)[slot] == batch))
    {
      victim := null;
      if queued >= minerCount {
        return true, null;
      }
      if unqueued == null {
        return false, null;
      }
      victim := Place();
      full := queued >= minerCount;
    }

    // The waiting work takes the next slot of the batch.
    method Place() returns (ghost victim: Work?)
      requires Valid() && queued < minerCount && unqueued != null
      modifies `queued, `unqueued, `queuedWork, `born, works, unqueued
      ensures Valid()
      ensures var slot := workArray * minerCount + old(queued);
              && slot < works.Length && queued == old(queued) + 1 && unqueued == null
              && works[..] == old(works[..])[slot := old(unqueued)]
              && born == old(born)[slot := batch]
              && victim == old(works[..])[slot]
              && queuedWork == old(queuedWork) + {old(unqueued)} - {victim}
              && (victim != null ==>
                    old(born)[slot] + arraySize <= batch || (flushed && old(born)[slot] == batch))
    {
      hide Agrees;
      hide Aged;
      hide Remaining;
      var work: Work := unqueued;
      queuedWork := queuedWork + {work};
      unqueued := null;
      var subid := queued;
      queued := queued + 1;
      SlotParts(minerCount, workArray, subid);
      SlotInRange(minerCount, arraySize, workArray, subid);
      var slot := workArray * minerCount + subid;
      PlaceAgrees(works[..], old(queuedWork), slot, work);
      PlaceAged(works[..], born, batch, arraySize, minerCount, subid, slot, work);
      work.subid := subid;
      victim := works[slot];
      if works[slot] != null {
        queuedWork := queuedWork - {works[slot]};
      }
      works[slot] := work;
      born := born[slot := batch];
      assert works[..] == old(works[..])[slot := work];
    }

    // avalon_rotate_array
    method RotateArray()
      requires Valid()
      modifies `queued, `workArray, `batch, `flushed
      ensures Valid() && queued == 0 && batch == old(batch) + 1 && !flushed
      ensures workArray == if old(workArray) + 1 >= arraySize then 0 else old(workArray) + 1
    {
      queued := 0;
      workArray := workArray + 1;
      if workArray >= arraySize {
        workArray := 0;
      }
      NextResidue(batch, arraySize);
      NextRemaining(works[..], born, batch, arraySize, minerCount);
      batch := batch + 1;
      flushed := false;
    }

    static lemma NextResidue(n: nat, size: nat)
      requires size > 0
      ensures (n + 1) % size == if n % size + 1 >= size then 0 else n % size + 1
    {
      var q, r := n / size, n % size;
      assert n == q * size + r;
      if r + 1 < size {
        Quotient(n + 1, q, r + 1, size);
      } else {
        assert (q + 1) * size == q * size + size;
        Quotient(n + 1, q + 1, 0, size);
      }
    }

    // avalon_flush_work: the current batch starts again over its own works.
    method FlushWork()
      requires Valid()
      modifies `queued, `flushed
      ensures Valid() && queued == 0 && flushed
    {
      queued := 0;
      flushed := true;
    }
  }

  // ---------- avalon_read ----------

  // The bytes without the two status bytes at the start of every packet of 64.
  function Payload(s: seq<bv8>): (p: seq<bv8>) {
    if |s| <= 2 then []
    else if |s| <= 64 then s[2..]
    else s[2..64] + Payload(s[64..])
  }

  // Where each byte comes from.
  lemma {:induction false} PayloadByte(s: seq<bv8>, j: nat)
    requires j < |Payload(s)|
    ensures 64 * (j / 62) + 2 + j % 62 < |s|
    ensures Payload(s)[j] == s[64 * (j / 62) + 2 + j % 62]
    decreases |s|
  {
    if |s| > 64 && j >= 62 {
      PayloadByte(s[64..], j - 62);
    }
  }

  // Two bytes less for every packet that has been started, as long as it is longer than its status.
  lemma {:induction false} PayloadLength(s: seq<bv8>)
    ensures |Payload(s)| == 62 * (|s| / 64) + (if |s| % 64 <= 2 then 0 else |s| % 64 - 2)
    decreases |s|
  {
    if |s| > 64 {
      PayloadLength(s[64..]);
      PacketLess(|s|);
      assert |Payload(s)| == 62 + |Payload(s[64..])|;
      hide Payload;
    }
  }

  lemma PacketLess(n: nat)
    requires n >= 64
    ensures (n - 64) / 64 == n / 64 - 1 && (n - 64) % 64 == n % 64
  {
  }

  method Copy(buf: array<bv8>, to: nat, from: array<bv8>, at: nat, count: nat)
    requires buf != from && to + count <= buf.Length && at + count <= from.Length
    modifies buf
    ensures buf[..to + count] == old(buf[..to]) + from[at..at + count]
    ensures buf[to + count..] == old(buf[to + count..])
  {
    var k := 0;
    while k < count
      invariant k <= count
      invariant forall i :: 0 <= i < buf.Length ==>
                  buf[i] == if to <= i < to + k then from[at + i - to] else old(buf[i])
    {
      buf[to + k] := from[at + k];
      k := k + 1;
    }
  }

  lemma PayloadStep(s: seq<bv8>, ofs: nat)
    requires ofs + 2 < |s|
    ensures var cp := if |s| - ofs - 2 > 62 then 62 else |s| - ofs - 2;
            Payload(s[ofs..]) == s[ofs + 2..ofs + 2 + cp] + Payload(s[ofs + 2 + cp..])
  {
    if |s| - ofs > 64 {
      assert s[ofs..][2..64] == s[ofs + 2..ofs + 64];
      assert s[ofs..][64..] == s[ofs + 64..];
    } else {
      assert s[ofs..][2..] == s[ofs + 2..];
    }
  }

  // The text is the payload of what comes before `at`, which is the start of a packet.
  ghost predicate Stripped(all: seq<bv8>, at: nat, text: seq<bv8>) {
    at <= |all| && text + Payload(all[at..]) == Payload(all)
  }

  lemma StripStarts(all: seq<bv8>)
    ensures Stripped(all, 0, [])
  {
    assert all[0..] == all;
  }

  lemma StripStep(all: seq<bv8>, at: nat, text: seq<bv8>)
    requires Stripped(all, at, text) && at + 2 < |all|
    ensures var cp := if |all| - at - 2 > 62 then 62 else |all| - at - 2;
            Stripped(all, at + 2 + cp, text + all[at + 2..at + 2 + cp])
  {
    hide Payload;
    PayloadStep(all, at);
    var cp := if |all| - at - 2 > 62 then 62 else |all| - at - 2;
    Sequences.Regroup(text, all[at + 2..at + 2 + cp], Payload(all[at + 2 + cp..]));
  }

  lemma StripEnds(all: seq<bv8>, at: nat, text: seq<bv8>)
    requires Stripped(all, at, text) && at + 2 >= |all|
    ensures text == Payload(all)
  {
    NoPayload(all[at..]);
    hide Payload;
  }

  // The stripping loop of avalon_read, for a reply of `amount` bytes.
  method Strip(buf: array<bv8>, readbuf: array<bv8>, amount: nat) returns (total: nat)
    requires buf != readbuf && amount <= readbuf.Length && amount <= buf.Length + 2
    modifies buf
    ensures total <= buf.Length && buf[..total] == Payload(readbuf[..amount])
    ensures buf[total..] == old(buf[total..])
  {
    hide Payload;
    hide Stripped;
    total := 0;
    var left, ofs := amount, 2;
    ghost var all := readbuf[..amount];
    StripStarts(all);
    while left > 2
      invariant 0 <= left <= amount && total + left <= amount && readbuf[..amount] == all
      invariant left > 0 ==> ofs == amount - left + 2
      invariant total <= buf.Length && buf[total..] == old(buf[total..])
      invariant Stripped(all, amount - left, buf[..total])
    {
      var cp := left - 2;
      if cp > 62 {
        cp := 62;
      }
      StripStep(all, amount - left, buf[..total]);
      assert all[ofs..ofs + cp] == readbuf[ofs..ofs + cp];
      Copy(buf, total, readbuf, ofs, cp);
      SameTail(buf[..], old(buf[..]), total, total + cp);
      total := total + cp;
      left := left - (cp + 2);
      ofs := ofs + 64;
    }
    StripEnds(all, amount - left, buf[..total]);
  }

  lemma SameTail(a: seq<bv8>, b: seq<bv8>, i: nat, j: nat)
    requires i <= j <= |a| == |b|
    ensures b[i..][j - i..] == b[j..]
  {
  }

  lemma NoPayload(s: seq<bv8>)
    requires |s| <= 2
    ensures Payload(s) == []
  {
  }
}
