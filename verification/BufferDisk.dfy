/**
 The buffer cache of kernel/fs/bio.c:102-245 on many processors, with the disk behind it: `bread` and `bwrite`
 (bio.c:169-190) are steps of whoever owns the buffer.  When nobody overlaps in the window of `bget` and every owner
 writes what it changed before it gives the buffer back, a valid buffer is the current block of the disk.
 */
module BufferDisk {
  import opened Bytes
  import opened BufRing
  import opened BufferCache
  import opened BufferSteps

  /** `changed[b]` when the owner of `b` has changed it and not written it yet. */
  datatype D = D(m: M, disk: seq<Data>, changed: seq<bool>)

  /** A step that moves no data. */
  ghost predicate MoveStep(s: M, t: M) {
    || (exists c, pc' :: AcquireStep(s, t, c, pc'))
    || (exists c, b :: HitStep(s, t, c, b))
    || (exists c :: MissStep(s, t, c))
    || (exists c, k :: FailStep(s, t, c, k))
    || (exists c, k :: BufferSteps.TakeStep(s, t, c, k))
    || (exists c :: InsertStep(s, t, c))
    || (exists c :: OwnStep(s, t, c))
    || (exists c :: CountStep(s, t, c))
    || (exists c, buf' :: ClearStep(s, t, c, buf'))
  }

  /** The second half of `bread`: the owner reads a buffer that is not valid. */
  ghost predicate ReadStep(p: D, q: D, c: nat, b: nat) {
    && b < |p.m.buf| && b < |p.changed| && !p.m.buf[b].valid && p.m.buf[b].blockno < |p.disk|
    && FillStep(p.m, q.m, c, b, p.disk[p.m.buf[b].blockno]) && q == D(q.m, p.disk, p.changed[b := false])
  }

  /** The owner changes a valid buffer. */
  ghost predicate ChangeStep(p: D, q: D, c: nat, b: nat, d: Data) {
    && b < |p.m.buf| && b < |p.changed| && p.m.buf[b].valid
    && FillStep(p.m, q.m, c, b, d) && q == D(q.m, p.disk, p.changed[b := true])
  }

  /** `bwrite` by the owner. */
  ghost predicate WriteStep(p: D, q: D, c: nat, b: nat) {
    && b < |p.m.buf| && b < |p.changed| && b < |p.m.sleep| && p.m.sleep[b] == Some(c)
    && p.m.buf[b].blockno < |p.disk|
    && q == D(p.m, p.disk[p.m.buf[b].blockno := p.m.buf[b].data], p.changed[b := false])
  }

  /** `brelse` by an owner that has written what it changed. */
  ghost predicate GiveStep(p: D, q: D, c: nat, b: nat) {
    b < |p.changed| && !p.changed[b] && DropStep(p.m, q.m, c, b) && q == p.(m := q.m)
  }

  ghost predicate DStep(p: D, q: D) {
    || (MoveStep(p.m, q.m) && q == p.(m := q.m))
    || (exists c, b :: ReadStep(p, q, c, b))
    || (exists c, b, d :: ChangeStep(p, q, c, b, d))
    || (exists c, b :: WriteStep(p, q, c, b))
    || (exists c, b :: GiveStep(p, q, c, b))
  }

  // ---------- The invariant ----------

  /** A valid buffer on a ring holds its block, unless its owner has changed it. */
  ghost predicate Current(p: D, b: nat) {
    && b < |p.m.buf| && b < |p.m.home| && b < |p.changed| && b < |p.m.sleep|
    && (p.m.home[b].OnRing? && p.m.buf[b].valid && !p.changed[b] && p.m.buf[b].blockno < |p.disk| ==>
          p.m.buf[b].data == p.disk[p.m.buf[b].blockno])
    && (p.changed[b] ==> p.m.sleep[b].Some?)
  }

  ghost predicate DInv(p: D) {
    && InvU(p.m) && |p.changed| == |p.m.buf|
    && forall b {:trigger Current(p, b)} :: 0 <= b < |p.m.buf| ==> Current(p, b)
  }

  /** Buffer `b` shows nothing after the step that it did not show before; an owned one is not given up. */
  ghost predicate Still(s: M, t: M, b: nat) {
    && |t.buf| == |s.buf| && b < |s.buf| && b < |s.home| && b < |t.home| && b < |s.sleep| && b < |t.sleep|
    && (t.home[b].OnRing? && t.buf[b].valid ==>
          s.home[b].OnRing? && s.buf[b].valid && t.buf[b].data == s.buf[b].data && t.buf[b].blockno == s.buf[b].blockno)
    && (s.buf[b].refcnt > 0 ==> t.buf[b].blockno == s.buf[b].blockno)
    && (s.sleep[b].Some? ==> t.sleep[b].Some?)
  }

  lemma SweepStill(s: M, t: M, c: nat, k: nat, b: nat)
    requires Inv(s) && (FailStep(s, t, c, k) || BufferSteps.TakeStep(s, t, c, k)) && b < |s.buf|
    ensures Still(s, t, b)
  {
    hide LocksOk, PrivateOk, Clock, Rings;
    ClockOk(s.ring[k], s.buf, s.hand[k]);
    assert t.buf[b].(referenced := s.buf[b].referenced) == s.buf[b];
  }

  lemma InsertStill(s: M, t: M, c: nat, b: nat)
    requires Inv(s) && InsertStep(s, t, c) && b < |s.buf|
    ensures Still(s, t, b)
  {
    hide LocksOk, Rings;
    assert RefOk(s, b);
    assert PrivOf(s.pc[c]) == Some(s.pc[c].b);
  }

  lemma CountStill(s: M, t: M, c: nat, b: nat)
    requires Inv(s) && (CountStep(s, t, c) || (exists buf' :: ClearStep(s, t, c, buf'))) && b < |s.buf|
    ensures Still(s, t, b)
  {
    hide Inv;
  }

  lemma PlainStill(s: M, t: M, b: nat)
    requires Inv(s) && b < |s.buf|
    requires || (exists c, pc' :: AcquireStep(s, t, c, pc'))
             || (exists c, h :: HitStep(s, t, c, h))
             || (exists c :: MissStep(s, t, c))
             || (exists c :: OwnStep(s, t, c))
    ensures Still(s, t, b)
  {
    hide LocksOk, PrivateOk, Rings, Find;
  }

  lemma MoveStill(s: M, t: M, b: nat)
    requires Inv(s) && MoveStep(s, t) && b < |s.buf|
    ensures Still(s, t, b)
  {
    hide Inv, AcquireStep, HitStep, MissStep, FailStep, BufferSteps.TakeStep, InsertStep, OwnStep, CountStep, ClearStep,
      Still;
    if c, k :| FailStep(s, t, c, k) || BufferSteps.TakeStep(s, t, c, k) {
      SweepStill(s, t, c, k, b);
    } else if c :| InsertStep(s, t, c) {
      InsertStill(s, t, c, b);
    } else if c :| CountStep(s, t, c) {
      CountStill(s, t, c, b);
    } else if c, buf' :| ClearStep(s, t, c, buf') {
      CountStill(s, t, c, b);
    } else {
      PlainStill(s, t, b);
    }
  }

  lemma MoveIsStep(s: M, t: M)
    requires MoveStep(s, t)
    ensures Step(s, t)
  {
    hide AcquireStep, HitStep, MissStep, FailStep, BufferSteps.TakeStep, InsertStep, OwnStep, CountStep, ClearStep;
  }

  /** Each step is a step of the cache, or leaves the cache alone. */
  lemma DataStep(p: D, q: D)
    requires DStep(p, q)
    ensures q.m == p.m || Step(p.m, q.m)
  {
    hide FillStep, DropStep, MoveStep;
    if MoveStep(p.m, q.m) {
      MoveIsStep(p.m, q.m);
    }
  }

  lemma MoveCurrent(p: D, q: D, b: nat)
    requires DInv(p) && MoveStep(p.m, q.m) && q == p.(m := q.m) && b < |p.m.buf|
    ensures Current(q, b)
  {
    hide MoveStep, Inv, WindowsOk, RingsInv;
    MoveStill(p.m, q.m, b);
    assert Current(p, b);
  }

  /** The owner's buffer is the only valid one on the rings for its block. */
  lemma OwnersOnly(s: M, c: nat, b: nat, b': nat)
    requires InvU(s) && b < |s.buf| && b' < |s.buf| && s.sleep[b] == Some(c)
    requires s.home[b'].OnRing? && s.buf[b'].valid && s.buf[b'].blockno == s.buf[b].blockno
    ensures b' == b
  {
    hide LocksOk, PrivateOk, Rings, WindowsOk, Apart;
    assert SleepOk(s, b) && RefOk(s, b);
    HeldCounted(s, c, b);
    hide RingsInv;
    LiveUnique(s.buf, s.ring, s.hand, s.home, b, b');
  }

  lemma WriteCurrent(p: D, q: D, c: nat, b: nat, b': nat)
    requires DInv(p) && WriteStep(p, q, c, b) && b' < |p.m.buf|
    ensures Current(q, b')
  {
    hide InvU;
    assert Current(p, b') && Current(p, b);
    if p.m.home[b'].OnRing? && p.m.buf[b'].valid && p.m.buf[b'].blockno == p.m.buf[b].blockno {
      OwnersOnly(p.m, c, b, b');
    }
  }

  lemma FillCurrent(p: D, q: D, b: nat, b': nat)
    requires DInv(p) && b' < |p.m.buf|
    requires (exists c :: ReadStep(p, q, c, b)) || (exists c, d :: ChangeStep(p, q, c, b, d))
             || (exists c :: GiveStep(p, q, c, b))
    ensures Current(q, b')
  {
    hide InvU;
    assert Current(p, b');
  }

  lemma DStepKeeps(p: D, q: D)
    requires DInv(p) && DStep(p, q) && Apart(q.m.pc)
    ensures DInv(q)
  {
    hide InvU, MoveStep, ReadStep, ChangeStep, WriteStep, GiveStep, Current, Step, Apart;
    DataStep(p, q);
    if q.m != p.m {
      StepU(p.m, q.m);
    }
    SameSizes(p, q);
    forall b: nat | b < |q.m.buf|
      ensures Current(q, b)
    {
      if MoveStep(p.m, q.m) && q == p.(m := q.m) {
        MoveCurrent(p, q, b);
      } else if c, b0 :| WriteStep(p, q, c, b0) {
        WriteCurrent(p, q, c, b0, b);
      } else if c, b0 :| ReadStep(p, q, c, b0) {
        FillCurrent(p, q, b0, b);
      } else if c, b0, d :| ChangeStep(p, q, c, b0, d) {
        FillCurrent(p, q, b0, b);
      } else {
        var c, b0 :| GiveStep(p, q, c, b0);
        FillCurrent(p, q, b0, b);
      }
    }
  }

  lemma SameSizes(p: D, q: D)
    requires DInv(p) && DStep(p, q)
    ensures |q.m.buf| == |p.m.buf| && |q.changed| == |p.changed|
  {
    hide InvU, Current;
    if MoveStep(p.m, q.m) && |p.m.buf| > 0 {
      BasicInv(p.m);
      hide MoveStep;
      MoveStill(p.m, q.m, 0);
    } else if MoveStep(p.m, q.m) {
      BasicInv(p.m);
    }
  }

  lemma BasicInv(s: M)
    requires InvU(s)
    ensures Inv(s)
  {
  }

  // ---------- Whole runs ----------

  ghost predicate IsDiskRun(run: seq<D>) {
    && run != [] && Init(run[0].m) && |run[0].changed| == |run[0].m.buf|
    && (forall b :: 0 <= b < |run[0].changed| ==> !run[0].changed[b])
    && (forall i {:trigger run[i]} :: 0 < i < |run| ==> DStep(run[i - 1], run[i]))
    && (forall i {:trigger run[i]} :: 0 <= i < |run| ==> Apart(run[i].m.pc))
  }

  lemma {:induction false} DiskRunKeeps(run: seq<D>, i: nat)
    requires IsDiskRun(run) && i < |run|
    ensures DInv(run[i])
  {
    if i == 0 {
      hide DStep;
      InitU(run[0].m);
      assert forall b: nat :: b < |run[0].m.buf| ==> !run[0].m.buf[b].valid;
    } else {
      hide DInv, DStep, Init;
      DiskRunKeeps(run, i - 1);
      assert DStep(run[i - 1], run[i]) && Apart(run[i].m.pc);
      DStepKeeps(run[i - 1], run[i]);
    }
  }

  /**
   `bread` on many processors: whoever gets the sleep lock of a valid buffer finds the current block of the disk, and
   so does whoever reads it then, as long as nobody changes it.
   */
  lemma OwnerReadsDisk(run: seq<D>, i: nat, b: nat)
    requires IsDiskRun(run) && i < |run| && b < |run[i].m.buf|
    ensures var p := run[i];
      && b < |p.m.sleep| && b < |p.changed| && (p.changed[b] ==> p.m.sleep[b].Some?)
      && (p.m.sleep[b].Some? && p.m.buf[b].valid && !p.changed[b] && p.m.buf[b].blockno < |p.disk| ==>
            p.m.buf[b].data == p.disk[p.m.buf[b].blockno])
  {
    DiskRunKeeps(run, i);
    var p := run[i];
    hide IsDiskRun, WindowsOk, RingsInv, Apart, Rings, LocksOk, PrivateOk;
    assert Current(p, b) && SleepOk(p.m, b) && RefOk(p.m, b);
    if p.m.sleep[b].Some? {
      HeldCounted(p.m, p.m.sleep[b].value, b);
    }
  }

  /** Nobody's buffer comes to stand for another block. */
  lemma TagKept(run: seq<D>, i: nat, c: nat, b: nat)
    requires IsDiskRun(run) && i + 1 < |run| && b < |run[i].m.buf| && c < |run[i].m.hold| && run[i].m.hold[c][b] > 0
    ensures b < |run[i + 1].m.buf| && run[i + 1].m.buf[b].blockno == run[i].m.buf[b].blockno
  {
    DiskRunKeeps(run, i);
    var p, q := run[i], run[i + 1];
    assert DStep(run[i + 1 - 1], run[i + 1]);
    hide IsDiskRun;
    HeldTag(p.m, c, b);
    SameSizes(p, q);
    BasicInv(p.m);
    hide DInv, InvU, Inv;
    if MoveStep(p.m, q.m) {
      MoveStill(p.m, q.m, b);
    }
  }

  lemma HeldTag(s: M, c: nat, b: nat)
    requires InvU(s) && b < |s.buf| && c < |s.hold| && s.hold[c][b] > 0
    ensures s.buf[b].refcnt > 0
  {
    hide LocksOk, PrivateOk, Rings, WindowsOk, Apart, RingsInv;
    assert RefOk(s, b);
    HeldCounted(s, c, b);
  }
}
