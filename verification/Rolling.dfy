// Rolling and cloning of works (ALTMiner.c): a clone is the same work with an advanced header time.
module Rolling {

  // The header time has 32 bits.
  const WORD := 0x1_0000_0000
  const ROLL_LIMIT := 7000

  // Clones of a work, in the order of their rolls, all below a bound.
  ghost predicate Clones(given: seq<Work>, base: nat, bound: nat)
    reads given
  {
    && (forall i :: 0 <= i < |given| ==> given[i].clone && given[i].Dated() && given[i].base == base)
    && (forall i :: 0 <= i < |given| ==> given[i].rolls < bound)
    && (forall i, j :: 0 <= i < j < |given| ==> given[i].rolls < given[j].rolls)
  }

  lemma ClonesExtend(given: seq<Work>, base: nat, bound: nat, x: Work, next: nat)
    requires Clones(given, base, bound) && x.clone && x.Dated() && x.base == base && bound <= x.rolls < next
    ensures Clones(given + [x], base, next)
  {
  }

  class Work {
    const stratum: bool
    const hasPool: bool
    const pool: int
    const rolltime: nat
    const clone: bool
    const stagedSec: int
    var ntime: nat
    var rolls: nat
    var nonce: nat

    // The header time before the first roll, and the clones handed out, oldest first.
    ghost const base: nat
    ghost var given: seq<Work>

    constructor (stratum: bool, hasPool: bool, pool: int, rolltime: nat, stagedSec: int, ntime: nat)
      requires ntime < WORD
      ensures Family() && !clone && given == [] && rolls == 0 && this.ntime == ntime == base
      ensures this.stratum == stratum && this.hasPool == hasPool && this.pool == pool
      ensures this.rolltime == rolltime && this.stagedSec == stagedSec
    {
      this.stratum, this.hasPool, this.pool, this.rolltime := stratum, hasPool, pool, rolltime;
      clone, this.stagedSec, this.ntime, rolls, nonce := false, stagedSec, ntime, 0, 0;
      base, given := ntime, [];
    }

    // make_clone; the clone appears one second older.
    constructor Clone(work: Work)
      ensures stratum == work.stratum && hasPool == work.hasPool && pool == work.pool && rolltime == work.rolltime
      ensures clone && stagedSec == work.stagedSec - 1
      ensures ntime == work.ntime && rolls == work.rolls && nonce == work.nonce && base == work.base && given == []
    {
      stratum, hasPool, pool, rolltime := work.stratum, work.hasPool, work.pool, work.rolltime;
      clone, stagedSec := true, work.stagedSec - 1;
      ntime, rolls, nonce, base, given := work.ntime, work.rolls, work.nonce, work.base, [];
    }

    // work_rollable
    predicate Rollable() {
      !clone && rolltime > 0
    }

    // can_roll, without its test for stale work.
    predicate CanRoll()
      reads `rolls
    {
      !stratum && hasPool && rolltime > 0 && !clone && rolls < ROLL_LIMIT
    }

    // The header time tells the number of rolls.
    ghost predicate Dated()
      reads `ntime, `rolls
    {
      ntime == (base + rolls) % WORD
    }

    // Between two operations: the clones are in the order of their rolls, all before the master, and the
    // master has been rolled in pairs, so that the test before each pair keeps it within the limit.
    ghost predicate Family()
      reads this, given
    {
      && !clone
      && Dated()
      && rolls % 2 == 0 && rolls <= ROLL_LIMIT
      && Clones(given, base, rolls)
    }

    // roll_work
    method Roll()
      modifies `ntime, `rolls, `nonce
      ensures ntime == (old(ntime) + 1) % WORD && rolls == old(rolls) + 1 && nonce == 0
      ensures old(Dated()) ==> Dated()
    {
      ntime := (ntime + 1) % WORD;
      rolls := rolls + 1;
      nonce := 0;
    }

    // Before a pair of rolls the newest clone may have the number of rolls of the master.
    ghost predicate Ready()
      reads this, given
    {
      !clone && Dated() && rolls % 2 == 0 && CanRoll() && Clones(given, base, rolls + 1)
    }

    // Two rolls, with a clone taken between them.
    method RollCloneRoll() returns (copy: Work)
      requires Ready()
      modifies `ntime, `rolls, `nonce, `given
      ensures fresh(copy) && copy.clone && copy.rolls == old(rolls) + 1 && rolls == old(rolls) + 2
      ensures copy.stagedSec == stagedSec - 1 && copy.pool == pool && copy.Dated() && copy.base == base
      ensures given == old(given) + [copy] && Family() && nonce == copy.nonce == 0
    {
      NotItsClone();
      hide Clones;
      copy := CopyBetween();
      ClonesExtend(given, base, rolls - 1, copy, rolls);
      given := given + [copy];
    }

    method CopyBetween() returns (copy: Work)
      requires Dated()
      modifies `ntime, `rolls, `nonce
      ensures Dated() && rolls == old(rolls) + 2
      ensures fresh(copy) && copy.clone && copy.Dated() && copy.base == base && copy.rolls == rolls - 1
      ensures copy.stagedSec == stagedSec - 1 && copy.pool == pool && nonce == copy.nonce == 0
    {
      Roll();
      copy := new Work.Clone(this);
      Roll();
    }

    lemma NotItsClone()
      requires Ready()
      ensures forall i :: 0 <= i < |given| ==> given[i] != this
    {
    }

    lemma FamilyReady()
      requires Family() && CanRoll()
      ensures Ready()
    {
    }
  }

  // Main result: the clones handed out and the master all have different header times, each the
  // original time plus the number of rolls, and no number of rolls exceeds the limit.
  lemma HeaderTimesDiffer(w: Work)
    requires w.Family()
    ensures w.ntime == (w.base + w.rolls) % WORD && w.rolls <= ROLL_LIMIT
    ensures forall i :: 0 <= i < |w.given| ==> w.given[i].rolls < ROLL_LIMIT
    ensures forall i :: 0 <= i < |w.given| ==>
              w.given[i].ntime == (w.base + w.given[i].rolls) % WORD && w.given[i].ntime != w.ntime
    ensures forall i, j :: 0 <= i < j < |w.given| ==> w.given[i].ntime != w.given[j].ntime
  {
    forall i | 0 <= i < |w.given|
      ensures w.given[i].Dated() && w.given[i].ntime != w.ntime
    {
      TimesDiffer(w.base, w.given[i].rolls, w.rolls);
    }
    forall i, j | 0 <= i < j < |w.given|
      ensures w.given[i].ntime != w.given[j].ntime
    {
      TimesDiffer(w.base, w.given[i].rolls, w.given[j].rolls);
    }
  }

  lemma TimesDiffer(base: nat, p: nat, q: nat)
    requires p < q < p + WORD
    ensures (base + p) % WORD != (base + q) % WORD
  {
  }

  // The rolls of a master after n pairs of rolls that each started below the limit.
  function AfterPairs(rolls: nat, n: nat): nat {
    if n == 0 then rolls
    else
      var r := AfterPairs(rolls, n - 1);
      if r < ROLL_LIMIT then r + 2 else r
  }

  // Why the pairs matter: from a start below the limit it is kept exactly when the start is even. Every
  // work starts at zero.
  lemma {:induction false} LimitKeptIffEven(rolls: nat)
    requires rolls < ROLL_LIMIT
    ensures (forall n: nat :: AfterPairs(rolls, n) <= ROLL_LIMIT) <==> rolls % 2 == 0
  {
    if rolls % 2 == 0 {
      forall n: nat
        ensures AfterPairs(rolls, n) <= ROLL_LIMIT
      {
        PairsValue(rolls, n);
      }
    } else {
      var n := (ROLL_LIMIT + 1 - rolls) / 2;
      PairsValue(rolls, n);
      assert AfterPairs(rolls, n) == ROLL_LIMIT + 1;
    }
  }

  lemma {:induction false} PairsValue(rolls: nat, n: nat)
    ensures rolls < ROLL_LIMIT ==>
              AfterPairs(rolls, n) == if rolls + 2 * n <= ROLL_LIMIT + 1 then rolls + 2 * n
                                      else ROLL_LIMIT + rolls % 2
    ensures rolls >= ROLL_LIMIT ==> AfterPairs(rolls, n) == rolls
  {
    if n > 0 {
      PairsValue(rolls, n - 1);
    }
  }

  // clone_work: while works are wanted and the master may still be rolled, the previous clone is staged
  // and another one is taken. `may` stands for should_roll and the test for stale work.
  method CloneWork(work: Work, wanted: int, may: nat -> bool) returns (result: Work, staged: seq<Work>)
    requires work.Family()
    modifies work`ntime, work`rolls, work`nonce, work`given
    ensures work.Family()
    ensures staged == [] ==> result == work && work.given == old(work.given) && work.rolls == old(work.rolls)
    ensures staged != [] ==>
              && staged[|staged| - 1] == work
              && work.given == old(work.given) + staged[..|staged| - 1] + [result]
              && fresh(result) && result.rolls == work.rolls - 1
              && |staged| - 1 <= wanted
    ensures var turns := if staged == [] then 0 else |staged| - 1;
            work.rolls == old(work.rolls) + 2 * turns == AfterPairs(old(work.rolls), turns)
    ensures forall i :: 0 <= i < |staged| - 1 ==>
              fresh(staged[i]) && staged[i].rolls == old(work.rolls) + if i == 0 then 0 else 2 * i - 1
    ensures staged == [] <==>
              wanted < 1 || work.stratum || !work.hasPool || work.rolltime == 0 || old(work.rolls) >= 7000 || !may(0)
    ensures staged != [] && |staged| - 1 < wanted ==> work.rolls >= 7000 || !may(|staged| - 1)
    ensures forall i: nat :: i < |staged| - 1 ==> may(i) && old(work.rolls) + 2 * i < 7000
  {
    hide Clones;
    result, staged := work, [];
    if wanted < 1 {
      return;
    }
    var copy := new Work.Clone(work);
    var mrs := wanted;
    var turns := 0;
    ghost var was := work.given;
    while mrs > 0 && work.CanRoll() && may(turns)
      invariant 0 <= turns == |staged| && mrs == wanted - turns && mrs >= 0
      invariant fresh(copy) && copy.clone && copy != work && copy.Dated() && copy.base == work.base
      invariant turns == 0 ==> work.rolls == old(work.rolls) == copy.rolls && work.given == was
      invariant turns > 0 ==> work.rolls == old(work.rolls) + 2 * turns && copy.rolls == work.rolls - 1
      invariant forall i :: 0 <= i < turns ==> fresh(staged[i]) && staged[i] != work
      invariant forall i :: 0 <= i < turns ==> staged[i].rolls == old(work.rolls) + if i == 0 then 0 else 2 * i - 1
      invariant turns > 0 ==> old(work.CanRoll()) && may(0) && work.given == was + staged + [copy]
      invariant work.Family() && forall i: nat :: i < turns ==> may(i) && old(work.rolls) + 2 * i < 7000
    {
      mrs := mrs - 1;
      staged := staged + [copy];
      work.FamilyReady();
      if turns == 0 {
        // The first turn also hands out the clone that was taken before the master was rolled.
        ClonesExtend(work.given, work.base, work.rolls, copy, work.rolls + 1);
        work.given := work.given + [copy];
      }
      copy := work.RollCloneRoll();
      assert work.given == was + staged + [copy];
      turns := turns + 1;
    }
    PairsValue(old(work.rolls), turns);
    if turns > 0 {
      staged := staged + [work];
      result := copy;
    }
  }
}
