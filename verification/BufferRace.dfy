/**
 What happens when two processors are between lines 126 and 150 of kernel/fs/bio.c for the same block: neither
 looks the block up again, and both can insert a buffer for it.
 */
module BufferRace {
  import opened Bytes
  import opened DivMod
  import opened Lists
  import opened BufRing
  import opened BufferCache
  import opened BufferSteps

  // ---------- Paths ----------

  /** Every state of `path` leads to the next one. */
  ghost predicate IsPath(path: seq<M>) {
    path != [] && forall i {:trigger path[i]} :: 0 < i < |path| ==> Step(path[i - 1], path[i])
  }

  /** `path` goes from `s` to `t`. */
  ghost predicate Path(path: seq<M>, s: M, t: M) {
    IsPath(path) && path[0] == s && path[|path| - 1] == t
  }

  lemma PathJoin(p: seq<M>, q: seq<M>, s: M, m: M, t: M)
    requires Path(p, s, m) && Path(q, m, t)
    ensures Path(p + q[1..], s, t)
  {
    hide Step;
    var r := p + q[1..];
    forall i | 0 < i < |r|
      ensures Step(r[i - 1], r[i])
    {
      if i >= |p| {
        assert r[i] == q[i - |p| + 1] && r[i - 1] == q[i - |p|];
      }
    }
  }

  lemma PathStep(s: M, m: M, q: seq<M>, t: M)
    requires Step(s, m) && Path(q, m, t)
    ensures Path([s] + q, s, t)
  {
    hide Step;
    PathJoin([s, m], q, s, m, t);
    assert [s, m] + q[1..] == [s] + q;
  }

  // ---------- What a processor in the window needs ----------

  predicate Hunts(pc: Pc) { pc.Hunting? || pc.Sweeping? }

  /** `v` is an unreferenced buffer in a bucket that a processor at `pc` has still to sweep. */
  ghost predicate Reaches(s: M, pc: Pc, v: nat) {
    && Sized(s) && v < |s.buf| && s.buf[v].refcnt == 0 && Hunts(pc)
    && exists j: nat {:trigger Bucket(pc.x % |s.ring|, j, |s.ring|)} ::
         pc.i <= j < |s.ring| && s.home[v] == OnRing(Bucket(pc.x % |s.ring|, j, |s.ring|))
  }

  /** Enough unreferenced buffers are on the rings: one within reach for each of the two that is still hunting. */
  ghost predicate Enough(s: M, pc: Pc, pc': Pc) {
    && (Hunts(pc) && Hunts(pc') ==>
          exists v: nat, v': nat {:trigger Reaches(s, pc, v), Reaches(s, pc', v')} ::
            v != v' && Reaches(s, pc, v) && Reaches(s, pc', v'))
    && (Hunts(pc) ==> exists v: nat :: Reaches(s, pc, v))
    && (Hunts(pc') ==> exists v: nat :: Reaches(s, pc', v))
  }

  /**
   When one of the two takes `w`, a buffer is left for the other, provided the one who takes is the further
   along, or takes from the bucket it is at.
   */
  lemma Leftover(s: M, pc: Pc, pc': Pc, v: nat, v': nat, w: nat) returns (u: nat)
    requires Hunts(pc) && Hunts(pc') && pc.x == pc'.x && v != v'
    requires Reaches(s, pc, v) && Reaches(s, pc', v') && Reaches(s, pc, w)
    requires pc.i >= pc'.i || s.home[w] == OnRing(Bucket(pc.x % |s.ring|, pc.i, |s.ring|))
    ensures u != w && Reaches(s, pc', u)
  {
    if w != v' {
      u := v';
    } else {
      u := v;
      if pc.i < pc'.i {
        var j: nat :| pc'.i <= j < |s.ring| && s.home[w] == OnRing(Bucket(pc.x % |s.ring|, j, |s.ring|));
        BucketInjective(pc.x % |s.ring|, j, pc.i, |s.ring|);
      }
    }
  }

  // ---------- One processor runs alone ----------

  /** No bucket lock is held by a processor other than `c`. */
  ghost predicate Open(s: M, c: nat) {
    forall k {:trigger s.lock[k]} :: 0 <= k < |s.lock| ==> s.lock[k] == None || s.lock[k] == Some(c)
  }

  /** From `s` to `t` only processor `c` moved, and nothing but reference bits changed for buffers other than `b`. */
  ghost predicate Frame(s: M, t: M, c: nat, b: nat) {
    && Sized(s) && Sized(t) && |t.ring| == |s.ring| && |t.buf| == |s.buf| && |t.pc| == |s.pc|
    && (forall d {:trigger t.pc[d]} :: 0 <= d < |s.pc| && d != c ==> t.pc[d] == s.pc[d])
    && (forall v {:trigger t.buf[v]} {:trigger t.home[v]} :: 0 <= v < |s.buf| && v != b ==>
          t.buf[v].refcnt == s.buf[v].refcnt && t.buf[v].blockno == s.buf[v].blockno && t.home[v] == s.home[v])
  }

  lemma FrameTrans(s: M, m: M, t: M, c: nat, b: nat)
    requires Frame(s, m, c, b) && Frame(m, t, c, b)
    ensures Frame(s, t, c, b)
  {
  }

  /** What is within reach and not taken stays within reach. */
  lemma ReachKept(s: M, t: M, c: nat, b: nat, pc: Pc, v: nat)
    requires Frame(s, t, c, b) && Reaches(s, pc, v) && v != b
    ensures Reaches(t, pc, v)
  {
    assert t.buf[v].refcnt == s.buf[v].refcnt;
    var j: nat :| pc.i <= j < |s.ring| && s.home[v] == OnRing(Bucket(pc.x % |s.ring|, j, |s.ring|));
    assert t.home[v] == OnRing(Bucket(pc.x % |t.ring|, j, |t.ring|));
  }

  /** Processor `c` got buffer `b` for block `x`: it is counted and on the ring of the block. */
  ghost predicate Done(s: M, c: nat, x: nat, b: nat) {
    && Sized(s) && c < |s.pc| && s.pc[c] == Waiting(b) && b < |s.buf| && s.buf[b].refcnt > 0 && s.buf[b].blockno == x
    && s.home[b] == OnRing(x % |s.ring|)
  }

  /** One sweep: the processor takes a victim, or moves on with everything in its reach still there. */
  lemma SweepStep(s: M, c: nat) returns (t: M, b: nat)
    requires Inv(s) && c < |s.pc| && s.pc[c].Sweeping? && exists v: nat :: Reaches(s, s.pc[c], v)
    ensures Step(s, t) && Inv(t) && Frame(s, t, c, b)
    ensures var x, i, k := s.pc[c].x, s.pc[c].i, Bucket(s.pc[c].x % |s.ring|, s.pc[c].i, |s.ring|);
      && s.lock[k] == Some(c) && t.lock == s.lock[k := None]
      && if t.pc[c].Taken? then
           t.pc[c] == Taken(x, b) && Reaches(s, s.pc[c], b) && s.home[b] == OnRing(k)
         else
           && t.pc[c] == Hunting(x, i + 1) && i + 1 < |s.ring| && b == |s.buf|
           && forall v: nat {:trigger Reaches(s, s.pc[c], v)} :: Reaches(s, s.pc[c], v) ==> Reaches(t, t.pc[c], v)
  {
    hide Clock, PrivateOk;
    var x, i := s.pc[c].x, s.pc[c].i;
    var k := Bucket(x % |s.ring|, i, |s.ring|);
    assert LockOf(s.pc[c], |s.lock|) == Some(k);
    assert RingOk(s.buf, s.ring[k], s.hand[k]);
    ClockOk(s.ring[k], s.buf, s.hand[k]);
    var w := SweepOf(s, k);
    BitsCounts(s.buf, w.buf);
    hide LocksOk;
    if w.victim.Some? {
      b := w.victim.value;
      assert s.home[b] == OnRing(k);
      t := Leave(s.(buf := w.buf, hand := s.hand[k := w.hand], ring := s.ring[k := Without(s.ring[k], b)],
                    home := s.home[b := Private(c)]), c, k, Taken(x, b));
      assert TakeStep(s, t, c, k);
      TakeKeeps(s, t, c, k);
    } else {
      b := |s.buf|;
      FailReaches(s, c, k);
      t := Leave(s.(buf := w.buf, hand := s.hand[k := w.hand]), c, k, Hunting(x, i + 1));
      assert FailStep(s, t, c, k);
      FailKeeps(s, t, c, k);
      forall v: nat | Reaches(s, s.pc[c], v)
        ensures Reaches(t, t.pc[c], v)
      {
        var j: nat :| i + 1 <= j < |s.ring| && s.home[v] == OnRing(Bucket(x % |s.ring|, j, |s.ring|));
        assert t.buf[v].refcnt == s.buf[v].refcnt && t.home[v] == s.home[v];
      }
    }
  }

  /** A bucket without a victim is not where the buffers within reach are. */
  lemma FailReaches(s: M, c: nat, k: nat)
    requires Inv(s) && AtBucket(s, c, k) && (forall b :: b in s.ring[k] ==> s.buf[b].refcnt > 0)
    requires exists v: nat :: Reaches(s, s.pc[c], v)
    ensures s.pc[c].i + 1 < |s.ring|
    ensures forall v: nat {:trigger Reaches(s, s.pc[c], v)} :: Reaches(s, s.pc[c], v) ==>
      exists j: nat {:trigger Bucket(s.pc[c].x % |s.ring|, j, |s.ring|)} ::
        s.pc[c].i + 1 <= j < |s.ring| && s.home[v] == OnRing(Bucket(s.pc[c].x % |s.ring|, j, |s.ring|))
  {
    hide LocksOk, PrivateOk;
    var x, i := s.pc[c].x, s.pc[c].i;
    forall v: nat | Reaches(s, s.pc[c], v)
      ensures exists j: nat {:trigger Bucket(x % |s.ring|, j, |s.ring|)} ::
        i + 1 <= j < |s.ring| && s.home[v] == OnRing(Bucket(x % |s.ring|, j, |s.ring|))
    {
      var j: nat :| i <= j < |s.ring| && s.home[v] == OnRing(Bucket(x % |s.ring|, j, |s.ring|));
      assert v in s.ring[Bucket(x % |s.ring|, j, |s.ring|)];
      assert j != i;
    }
    var v: nat :| Reaches(s, s.pc[c], v);
  }

  /** A hunt with a buffer within reach ends with one taken. */
  lemma HuntPath(s: M, c: nat) returns (path: seq<M>, t: M, b: nat)
    requires Inv(s) && c < |s.pc| && Hunts(s.pc[c]) && Open(s, c) && exists v: nat :: Reaches(s, s.pc[c], v)
    ensures Path(path, s, t) && Inv(t) && Frame(s, t, c, b) && Open(t, c)
    ensures t.pc[c] == Taken(s.pc[c].x, b) && Reaches(s, s.pc[c], b)
    decreases |s.ring| - s.pc[c].i, if s.pc[c].Hunting? then 1 else 0
  {
    hide Rings, LocksOk, PrivateOk, Step;
    var x, i := s.pc[c].x, s.pc[c].i;
    if s.pc[c].Hunting? {
      var m := HuntStep(s, c);
      var q;
      q, t, b := HuntPath(m, c);
      PathStep(s, m, q, t);
      path := [s] + q;
    } else {
      var m, w := SweepStep(s, c);
      if m.pc[c].Taken? {
        t, b := m, w;
        path := [s, m];
      } else {
        var q;
        q, t, b := HuntPath(m, c);
        PathStep(s, m, q, t);
        path := [s] + q;
        ReachBack(s, m, c, b);
      }
    }
  }

  /** Lock the next bucket of the hunt. */
  lemma HuntStep(s: M, c: nat) returns (m: M)
    requires Inv(s) && c < |s.pc| && s.pc[c].Hunting? && Open(s, c) && exists v: nat :: Reaches(s, s.pc[c], v)
    ensures Step(s, m) && Inv(m) && Open(m, c) && m.buf == s.buf && m.home == s.home && |m.ring| == |s.ring| && Sized(m)
    ensures m.pc == s.pc[c := Sweeping(s.pc[c].x, s.pc[c].i)] && s.pc[c].i < |s.ring|
    ensures forall v: nat {:trigger Reaches(s, s.pc[c], v)} {:trigger Reaches(m, m.pc[c], v)} ::
      Reaches(s, s.pc[c], v) <==> Reaches(m, m.pc[c], v)
  {
    hide Rings, PrivateOk;
    var x, i := s.pc[c].x, s.pc[c].i;
    var k := Bucket(x % |s.ring|, i, |s.ring|);
    assert LockOf(s.pc[c], |s.lock|) == None;
    assert s.lock[k] != Some(c);
    m := s.(lock := s.lock[k := Some(c)], pc := s.pc[c := Sweeping(x, i)]);
    assert AcquireStep(s, m, c, Sweeping(x, i));
    AcquireInv(s, m, c, Sweeping(x, i));
  }

  /** What is within reach after moving on was within reach before. */
  lemma ReachBack(s: M, m: M, c: nat, b: nat)
    requires Frame(s, m, c, |s.buf|) && c < |s.pc| && Hunts(s.pc[c]) && Hunts(m.pc[c]) && m.pc[c].x == s.pc[c].x
      && m.pc[c].i >= s.pc[c].i
    requires Reaches(m, m.pc[c], b)
    ensures Reaches(s, s.pc[c], b)
  {
    assert m.buf[b].refcnt == s.buf[b].refcnt && m.home[b] == s.home[b];
    var j: nat :| m.pc[c].i <= j < |m.ring| && m.home[b] == OnRing(Bucket(m.pc[c].x % |m.ring|, j, |m.ring|));
    assert s.home[b] == OnRing(Bucket(s.pc[c].x % |s.ring|, j, |s.ring|));
  }

  /** Insert the victim, from inside the critical section. */
  lemma InsertOne(s: M, c: nat) returns (t: M)
    requires Inv(s) && c < |s.pc| && s.pc[c].Inserting?
    ensures Step(s, t) && Inv(t) && Frame(s, t, c, s.pc[c].b) && Done(t, c, s.pc[c].x, s.pc[c].b)
    ensures s.lock[s.pc[c].x % |s.ring|] == Some(c) && t.lock == s.lock[s.pc[c].x % |s.ring| := None]
  {
    hide Rings;
    var x, b, k := s.pc[c].x, s.pc[c].b, s.pc[c].x % |s.ring|;
    assert PrivOf(s.pc[c]) == Some(b) && LockOf(s.pc[c], |s.lock|) == Some(k);
    t := Leave(s.(buf := s.buf[b := s.buf[b].(blockno := x, valid := false, refcnt := 1, referenced := true)],
                  ring := s.ring[k := [b] + s.ring[k]], home := s.home[b := OnRing(k)],
                  hold := s.hold[c := s.hold[c] + multiset{b}]), c, k, Waiting(b));
    assert InsertStep(s, t, c);
    InsertKeeps(s, t, c);
  }

  /** A processor in the window with a buffer within reach, running alone, gets a buffer for its block. */
  lemma FinishPath(s: M, c: nat) returns (path: seq<M>, t: M, b: nat)
    requires Inv(s) && c < |s.pc| && WindowOf(s.pc[c]).Some? && Open(s, c)
    requires Hunts(s.pc[c]) ==> exists v: nat :: Reaches(s, s.pc[c], v)
    ensures Path(path, s, t) && Inv(t) && Frame(s, t, c, b) && Open(t, c) && Done(t, c, WindowOf(s.pc[c]).value, b)
    ensures if Hunts(s.pc[c]) then Reaches(s, s.pc[c], b) else PrivOf(s.pc[c]) == Some(b)
  {
    hide Rings, PrivateOk, LocksOk, Step;
    var p, m := [s], s;
    if Hunts(s.pc[c]) {
      p, m, b := HuntPath(s, c);
    } else {
      b := s.pc[c].b;
    }
    if m.pc[c].Taken? {
      var m' := LockToInsert(m, c);
      PathJoin(p, [m, m'], s, m, m');
      p := p + [m, m'][1..];
      FrameTrans(s, m, m', c, b);
      m := m';
    }
    t := InsertOne(m, c);
    PathJoin(p, [m, t], s, m, t);
    path := p + [m, t][1..];
    FrameTrans(s, m, t, c, b);
  }

  lemma LockToInsert(s: M, c: nat) returns (m: M)
    requires Inv(s) && c < |s.pc| && s.pc[c].Taken? && Open(s, c)
    ensures Step(s, m) && Inv(m) && Open(m, c) && m.pc[c] == Inserting(s.pc[c].x, s.pc[c].b)
      && Frame(s, m, c, s.pc[c].b)
  {
    hide Rings, PrivateOk;
    var x, b, k := s.pc[c].x, s.pc[c].b, s.pc[c].x % |s.ring|;
    assert LockOf(s.pc[c], |s.lock|) == None;
    assert s.lock[k] != Some(c);
    m := s.(lock := s.lock[k := Some(c)], pc := s.pc[c := Inserting(x, b)]);
    assert AcquireStep(s, m, c, Inserting(x, b));
    AcquireInv(s, m, c, Inserting(x, b));
  }

  // ---------- Two processors in the window for the same block ----------

  /** No bucket lock is held. */
  ghost predicate AllOpen(s: M) {
    forall k {:trigger s.lock[k]} :: 0 <= k < |s.lock| ==> s.lock[k] == None
  }

  /** `c` is on its way to a buffer for block `x`, outside of critical sections, or has got it. */
  ghost predicate Half(s: M, c: nat, x: nat) {
    && Sized(s) && c < |s.pc|
    && match s.pc[c]
       case Hunting(y, _) => y == x
       case Taken(y, _) => y == x
       case Waiting(b) => Done(s, c, x, b)
       case _ => false
  }

  /** A processor outside of critical sections holds no lock. */
  lemma OpenAll(s: M, c: nat)
    requires Inv(s) && c < |s.pc| && LockOf(s.pc[c], |s.lock|) == None && Open(s, c)
    ensures AllOpen(s)
  {
    hide Rings, PrivateOk;
  }

  lemma FinishHalf(s: M, c: nat, x: nat) returns (path: seq<M>, t: M, b: nat)
    requires Inv(s) && Half(s, c, x) && AllOpen(s) && (s.pc[c].Hunting? ==> exists v: nat :: Reaches(s, s.pc[c], v))
    ensures Path(path, s, t) && Inv(t) && Frame(s, t, c, b) && AllOpen(t) && Done(t, c, x, b)
    ensures s.pc[c].Hunting? ==> Reaches(s, s.pc[c], b)
    ensures s.pc[c].Taken? ==> PrivOf(s.pc[c]) == Some(b)
    ensures s.pc[c].Waiting? ==> b == s.pc[c].b && t == s
  {
    hide Rings, PrivateOk, LocksOk, Step;
    if s.pc[c].Waiting? {
      path, t, b := [s], s, s.pc[c].b;
    } else {
      path, t, b := FinishPath(s, c);
      OpenAll(t, c);
    }
  }

  /** A buffer that a processor gets was not one that is counted on a ring. */
  lemma NotCounted(s: M, c: nat, b: nat, d: nat)
    requires Inv(s) && c < |s.pc| && (Reaches(s, s.pc[c], b) || PrivOf(s.pc[c]) == Some(b))
    requires d < |s.buf| && s.buf[d].refcnt > 0 && s.home[d].OnRing?
    ensures b != d
  {
    hide Rings, LocksOk;
  }

  lemma DoneKept(s: M, t: M, c: nat, b: nat, c': nat, x: nat, b': nat)
    requires Frame(s, t, c, b) && Done(s, c', x, b') && c' != c && b' != b
    ensures Done(t, c', x, b')
  {
    assert t.pc[c'] == s.pc[c'] && t.buf[b'].refcnt == s.buf[b'].refcnt;
  }

  /** First `c` and then `c'` finishes; when both hunt, `c` is the further along. */
  lemma BothFinish(s: M, c: nat, c': nat, x: nat) returns (path: seq<M>, t: M, b: nat, b': nat)
    requires Inv(s) && Half(s, c, x) && Half(s, c', x) && c != c' && AllOpen(s) && Enough(s, s.pc[c], s.pc[c'])
    requires !(s.pc[c].Waiting? && s.pc[c'].Waiting?)
    requires s.pc[c].Hunting? && s.pc[c'].Hunting? ==> s.pc[c].i >= s.pc[c'].i
    ensures Path(path, s, t) && Inv(t) && b != b' && Done(t, c, x, b) && Done(t, c', x, b')
  {
    hide Rings, PrivateOk, LocksOk, Step;
    var p, m;
    p, m, b := FinishHalf(s, c, x);
    assert m.pc[c'] == s.pc[c'];
    SecondReady(s, m, c, c', x, b);
    var q;
    q, t, b' := FinishHalf(m, c', x);
    PathJoin(p, q, s, m, t);
    path := p + q[1..];
    if s.pc[c'].Waiting? {
      NotCounted(s, c, b, b');
    } else {
      NotCounted(m, c', b', b);
      DoneKept(m, t, c', b', c, x, b);
    }
  }

  /** After `c` got `b`, the other can still finish. */
  lemma SecondReady(s: M, m: M, c: nat, c': nat, x: nat, b: nat)
    requires Inv(s) && Half(s, c, x) && Half(s, c', x) && c != c' && Enough(s, s.pc[c], s.pc[c']) && Inv(m)
    requires !(s.pc[c].Waiting? && s.pc[c'].Waiting?)
    requires s.pc[c].Hunting? && s.pc[c'].Hunting? ==> s.pc[c].i >= s.pc[c'].i
    requires Frame(s, m, c, b) && Done(m, c, x, b)
    requires s.pc[c].Hunting? ==> Reaches(s, s.pc[c], b)
    requires s.pc[c].Taken? ==> PrivOf(s.pc[c]) == Some(b)
    requires s.pc[c].Waiting? ==> b == s.pc[c].b
    ensures Half(m, c', x) && m.pc[c'] == s.pc[c']
    ensures m.pc[c'].Hunting? ==> exists v: nat :: Reaches(m, m.pc[c'], v)
  {
    hide Rings, LocksOk, Step;
    assert m.pc[c'] == s.pc[c'];
    if s.pc[c'].Waiting? {
      NotCounted(s, c, b, s.pc[c'].b);
      DoneKept(s, m, c, b, c', x, s.pc[c'].b);
    } else if s.pc[c'].Hunting? {
      var u: nat;
      if s.pc[c].Hunting? {
        var v: nat, v': nat :| v != v' && Reaches(s, s.pc[c], v) && Reaches(s, s.pc[c'], v');
        u := Leftover(s, s.pc[c], s.pc[c'], v, v', b);
      } else {
        u :| Reaches(s, s.pc[c'], u);
        assert s.pc[c].Taken? ==> s.home[b] == Private(c);
      }
      ReachKept(s, m, c, b, s.pc[c'], u);
    }
  }

  /** A processor in the window leaves the critical section it is in. */
  lemma Settle(s: M, c: nat, c': nat) returns (path: seq<M>, t: M)
    requires Inv(s) && c < |s.pc| && c' < |s.pc| && c != c' && WindowOf(s.pc[c]).Some? && Enough(s, s.pc[c], s.pc[c'])
    requires Hunts(s.pc[c']) ==> s.pc[c'].x == WindowOf(s.pc[c]).value
    ensures Path(path, s, t) && Inv(t) && Half(t, c, WindowOf(s.pc[c]).value) && |t.pc| == |s.pc|
      && t.pc[c'] == s.pc[c']
    ensures Enough(t, t.pc[c], t.pc[c'])
    ensures |t.lock| == |s.lock| && forall k {:trigger t.lock[k]} :: 0 <= k < |s.lock| ==>
      t.lock[k] == if s.lock[k] == Some(c) then None else s.lock[k]
    ensures exists w: nat :: Frame(s, t, c, w) && (w < |s.buf| && s.home[w].OnRing? ==> s.buf[w].refcnt == 0)
    ensures t.pc[c].Waiting? ==> s.pc[c].Inserting?
  {
    hide Rings, Step;
    var x := WindowOf(s.pc[c]).value;
    if s.pc[c].Sweeping? {
      var b;
      t, b := SweepStep(s, c);
      path := [s, t];
      SettledSweep(s, t, c, c', b);
    } else if s.pc[c].Inserting? {
      var b := s.pc[c].b;
      assert PrivOf(s.pc[c]) == Some(b);
      t := InsertOne(s, c);
      path := [s, t];
      if Hunts(s.pc[c']) {
        var v: nat :| Reaches(s, s.pc[c'], v);
        ReachKept(s, t, c, b, s.pc[c'], v);
      }
    } else {
      path, t := [s], s;
      assert Frame(s, s, c, |s.buf|);
    }
  }

  lemma SettledSweep(s: M, t: M, c: nat, c': nat, b: nat)
    requires Frame(s, t, c, b) && c < |s.pc| && c' < |s.pc| && c != c' && s.pc[c].Sweeping?
      && Enough(s, s.pc[c], s.pc[c'])
    requires Hunts(s.pc[c']) ==> s.pc[c'].x == s.pc[c].x
    requires
      if t.pc[c].Taken? then
        && Reaches(s, s.pc[c], b)
        && s.home[b] == OnRing(Bucket(s.pc[c].x % |s.ring|, s.pc[c].i, |s.ring|))
      else
        && t.pc[c].Hunting? && b == |s.buf|
        && forall v: nat {:trigger Reaches(s, s.pc[c], v)} :: Reaches(s, s.pc[c], v) ==> Reaches(t, t.pc[c], v)
    ensures Enough(t, t.pc[c], t.pc[c'])
  {
    assert t.pc[c'] == s.pc[c'];
    if Hunts(s.pc[c']) {
      var v: nat, v': nat :| v != v' && Reaches(s, s.pc[c], v) && Reaches(s, s.pc[c'], v');
      var u := v';
      if t.pc[c].Taken? {
        u := Leftover(s, s.pc[c], s.pc[c'], v, v', b);
      }
      ReachKept(s, t, c, b, s.pc[c'], u);
    }
  }

  /**
   From every state in which two processors are in the window for the same block, no other processor is in a
   critical section and enough unreferenced buffers are within their reach, finishing both calls gives the block
   two live buffers.
   */
  lemma OverlapDuplicates(s: M, c: nat, c': nat) returns (path: seq<M>, t: M, b: nat, b': nat)
    requires Inv(s) && c < |s.pc| && c' < |s.pc| && c != c'
    requires WindowOf(s.pc[c]).Some? && WindowOf(s.pc[c']) == WindowOf(s.pc[c])
    requires forall k {:trigger s.lock[k]} :: 0 <= k < |s.lock| ==> s.lock[k] in {None, Some(c), Some(c')}
    requires Enough(s, s.pc[c], s.pc[c'])
    ensures Path(path, s, t) && b != b'
    ensures var x := WindowOf(s.pc[c]).value;
      Done(t, c, x, b) && Done(t, c', x, b') && Live(t.buf[b]) && Live(t.buf[b'])
  {
    hide Rings, PrivateOk, Step;
    var x := WindowOf(s.pc[c]).value;
    OneInserts(s, c, c');
    var p1, s1 := Settle(s, c, c');
    hide LocksOk;
    EnoughSwap(s1, s1.pc[c], s1.pc[c']);
    var p2, s2 := Settle(s1, c', c);
    EnoughSwap(s2, s2.pc[c'], s2.pc[c]);
    HalfKept(s1, s2, c, c', x);
    PathJoin(p1, p2, s, s1, s2);
    var p := p1 + p2[1..];
    assert AllOpen(s2);
    var q;
    if s2.pc[c].Hunting? && s2.pc[c'].Hunting? && s2.pc[c].i < s2.pc[c'].i {
      EnoughSwap(s2, s2.pc[c], s2.pc[c']);
      q, t, b', b := BothFinish(s2, c', c, x);
    } else {
      q, t, b, b' := BothFinish(s2, c, c', x);
    }
    PathJoin(p, q, s, s2, t);
    path := p + q[1..];
  }

  lemma OneInserts(s: M, c: nat, c': nat)
    requires Inv(s) && c < |s.pc| && c' < |s.pc| && c != c' && WindowOf(s.pc[c]).Some?
      && WindowOf(s.pc[c']) == WindowOf(s.pc[c])
    ensures !(s.pc[c].Inserting? && s.pc[c'].Inserting?)
  {
    if s.pc[c].Inserting? {
      OneCounts(s, c, c', s.pc[c].x % |s.ring|);
    }
  }

  lemma EnoughSwap(s: M, pc: Pc, pc': Pc)
    requires Enough(s, pc, pc')
    ensures Enough(s, pc', pc)
  {
  }

  /** What one processor does to leave its critical section does not undo what the other has. */
  lemma HalfKept(s: M, t: M, c: nat, c': nat, x: nat)
    requires Half(s, c, x) && c != c' && |t.pc| == |s.pc| && t.pc[c] == s.pc[c]
    requires exists w: nat :: Frame(s, t, c', w) && (w < |s.buf| && s.home[w].OnRing? ==> s.buf[w].refcnt == 0)
    ensures Half(t, c, x)
  {
    var w: nat :| Frame(s, t, c', w) && (w < |s.buf| && s.home[w].OnRing? ==> s.buf[w].refcnt == 0);
    if s.pc[c].Waiting? {
      DoneKept(s, t, c', w, c, x, s.pc[c].b);
    }
  }

  /** Without a buffer within reach, a processor that hunts alone ends in the panic instead. */
  lemma HuntPanics(s: M, c: nat) returns (path: seq<M>, t: M)
    requires Inv(s) && c < |s.pc| && s.pc[c].Hunting? && s.pc[c].i < |s.ring| && Open(s, c)
    requires forall v: nat {:trigger Reaches(s, s.pc[c], v)} :: !Reaches(s, s.pc[c], v)
    ensures Path(path, s, t) && t.pc == s.pc[c := Panicked(s.pc[c].x)]
    decreases |s.ring| - s.pc[c].i
  {
    hide PrivateOk, Step, Clock;
    var x, i := s.pc[c].x, s.pc[c].i;
    var k := Bucket(x % |s.ring|, i, |s.ring|);
    assert LockOf(s.pc[c], |s.lock|) == None;
    assert s.lock[k] != Some(c);
    var m := s.(lock := s.lock[k := Some(c)], pc := s.pc[c := Sweeping(x, i)]);
    TakesStep(s, m, c, Sweeping(x, i));
    AcquireInv(s, m, c, Sweeping(x, i));
    hide LocksOk;
    var m' := NoVictim(s, m, c, k);
    if i + 1 < |s.ring| {
      var q;
      q, t := HuntPanics(m', c);
      PathStep(m, m', q, t);
      PathStep(s, m, [m] + q, t);
      path := [s] + ([m] + q);
    } else {
      t := m';
      PathStep(m, m', [m'], m');
      PathStep(s, m, [m] + [m'], m');
      path := [s] + ([m] + [m']);
    }
  }

  lemma TakesStep(s: M, m: M, c: nat, pc': Pc)
    requires AcquireStep(s, m, c, pc')
    ensures Step(s, m)
  {
    hide AcquireStep;
  }

  /** A bucket with nothing within reach has no victim. */
  lemma NoVictim(s: M, m: M, c: nat, k: nat) returns (t: M)
    requires Inv(s) && c < |s.pc| && s.pc[c].Hunting? && s.pc[c].i < |s.ring| && Open(s, c) && Inv(m)
    requires k == Bucket(s.pc[c].x % |s.ring|, s.pc[c].i, |s.ring|)
    requires forall v: nat {:trigger Reaches(s, s.pc[c], v)} :: !Reaches(s, s.pc[c], v)
    requires m == s.(lock := s.lock[k := Some(c)], pc := s.pc[c := Sweeping(s.pc[c].x, s.pc[c].i)])
    ensures Step(m, t) && Inv(t) && Open(t, c) && |t.ring| == |s.ring|
    ensures t.pc ==
      s.pc[c := if s.pc[c].i + 1 < |s.ring| then Hunting(s.pc[c].x, s.pc[c].i + 1) else Panicked(s.pc[c].x)]
    ensures forall v: nat {:trigger Reaches(t, t.pc[c], v)} :: !Reaches(t, t.pc[c], v)
  {
    hide PrivateOk, LocksOk, Clock;
    var x, i := s.pc[c].x, s.pc[c].i;
    assert RingOk(m.buf, m.ring[k], m.hand[k]);
    forall b | b in m.ring[k]
      ensures m.buf[b].refcnt > 0
    {
      assert s.home[b] == OnRing(k);
      assert !Reaches(s, s.pc[c], b);
    }
    ClockOk(m.ring[k], m.buf, m.hand[k]);
    var w := SweepOf(m, k);
    BitsCounts(m.buf, w.buf);
    t := Leave(m.(buf := w.buf, hand := m.hand[k := w.hand]), c, k,
               if i + 1 < |s.ring| then Hunting(x, i + 1) else Panicked(x));
    assert FailStep(m, t, c, k);
    FailKeeps(m, t, c, k);
    forall v: nat
      ensures !Reaches(t, t.pc[c], v)
    {
      assert !Reaches(s, s.pc[c], v);
      assert v < |s.buf| ==> t.buf[v].refcnt == s.buf[v].refcnt;
    }
  }

  // ---------- A concrete race ----------

  function Fresh(): Buf { Buf(false, 0, 0, false, []) }

  function Tagged(): Buf { Buf(false, 5, 1, true, []) }

  function Start2(): M {
    M([Fresh(), Fresh()], [[1, 0]], [2], [OnRing(0), OnRing(0)], [None], [Idle, Idle], [multiset{}, multiset{}],
      [0, 0], [None, None])
  }

  /** Processor `c` locks the one bucket and goes to `pc'`. */
  function Lock(s: M, c: nat, pc': Pc): M
    requires c < |s.pc| && |s.lock| == 1
  {
    s.(lock := [Some(c)], pc := s.pc[c := pc'])
  }

  function Missed(s: M, c: nat): M
    requires c < |s.pc|
  {
    s.(lock := [None], pc := s.pc[c := Hunting(5, 0)])
  }

  /** Both processors look for block 5 and miss it, each takes a victim, and each inserts it. */
  function Race(): seq<M> {
    var s0 := Start2();
    var s1 := Lock(s0, 0, Looking(5));
    var s2 := Missed(s1, 0);
    var s3 := Lock(s2, 1, Looking(5));
    var s4 := Missed(s3, 1);
    var s5 := Lock(s4, 0, Sweeping(5, 0));
    var s6 := s5.(ring := [[0]], hand := [0], home := [OnRing(0), Private(0)], lock := [None],
                  pc := [Taken(5, 1), Hunting(5, 0)]);
    var s7 := Lock(s6, 1, Sweeping(5, 0));
    var s8 := s7.(ring := [[]], hand := [2], home := [Private(1), Private(0)], lock := [None],
                  pc := [Taken(5, 1), Taken(5, 0)]);
    var s9 := Lock(s8, 0, Inserting(5, 1));
    var s10 := s9.(buf := [Fresh(), Tagged()], ring := [[1]], home := [Private(1), OnRing(0)], lock := [None],
                   pc := [Waiting(1), Taken(5, 0)], hold := [multiset{1}, multiset{}]);
    var s11 := Lock(s10, 1, Inserting(5, 0));
    var s12 := s11.(buf := [Tagged(), Tagged()], ring := [[0, 1]], home := [OnRing(0), OnRing(0)], lock := [None],
                    pc := [Waiting(1), Waiting(0)], hold := [multiset{1}, multiset{0}]);
    [s0, s1, s2, s3, s4, s5, s6, s7, s8, s9, s10, s11, s12]
  }

  lemma Locks(s: M, c: nat, pc': Pc)
    requires Sized(s) && c < |s.pc| && s.lock == [None] && |s.ring| == 1 && LockOf(pc', 1) == Some(0)
    requires match s.pc[c]
      case Idle => pc'.Looking?
      case Hunting(x, i) => i == 0 && pc' == Sweeping(x, i)
      case Taken(x, b) => pc' == Inserting(x, b)
      case _ => false
    ensures Step(s, Lock(s, c, pc'))
  {
    assert AcquireStep(s, Lock(s, c, pc'), c, pc');
  }

  lemma Misses(s: M, c: nat)
    requires Sized(s) && c < |s.pc| && s.pc[c] == Looking(5) && |s.ring| == 1 && s.lock == [Some(c)]
      && s.ring == [[1, 0]] && s.buf == [Fresh(), Fresh()]
    ensures Step(s, Missed(s, c))
  {
    assert RingIds(s, 0);
    assert MissStep(s, Missed(s, c), c);
  }

  /**
   A run from the start: a block can get two live buffers, since nothing is looked up again when the bucket lock is
   taken the second time (bio.c:150).
   */
  lemma RaceDuplicates()
    ensures IsRun(Race()) && |Race()| == 13
    ensures var s := Race()[12];
      && s.buf[0].blockno == s.buf[1].blockno && Live(s.buf[0]) && Live(s.buf[1]) && s.home[0] == s.home[1] == OnRing(0)
  {
    hide Step, Init, Find, Clock;
    var r := Race();
    RaceStart();
    Locks(r[0], 0, Looking(5));
    Misses(r[1], 0);
    Locks(r[2], 1, Looking(5));
    Misses(r[3], 1);
    Locks(r[4], 0, Sweeping(5, 0));
    RaceTakes();
    Locks(r[6], 1, Sweeping(5, 0));
    Locks(r[8], 0, Inserting(5, 1));
    RaceInserts();
    Locks(r[10], 1, Inserting(5, 0));
  }

  lemma RaceStart()
    ensures Init(Start2())
  {
    var s := Start2();
    assert RingOk(s.buf, s.ring[0], s.hand[0]);
  }

  lemma RaceTakes()
    ensures Step(Race()[5], Race()[6]) && Step(Race()[7], Race()[8])
  {
    var r := Race();
    assert Without([1, 0], 1) == [0] && Without([0], 0) == [];
    var f := [Fresh(), Fresh()];
    assert RingOk(f, [1, 0], 2) && RingOk(f, [0], 0);
    assert Clock([1, 0], f, 2, 4) == Clock([1, 0], f, 1, 4) == Sweep(Some(1), f, 0);
    assert Clock([0], f, 0, 4) == Sweep(Some(0), f, 2);
    hide Clock;
    assert TakeStep(r[5], r[6], 0, 0);
    assert TakeStep(r[7], r[8], 1, 0);
  }

  lemma RaceInserts()
    ensures Step(Race()[9], Race()[10]) && Step(Race()[11], Race()[12])
  {
    var r := Race();
    assert [Fresh(), Fresh()][1 := Tagged()] == [Fresh(), Tagged()];
    assert [Fresh(), Tagged()][0 := Tagged()] == [Tagged(), Tagged()];
    assert [1] + r[9].ring[0] == [1] && [0] + r[11].ring[0] == [0, 1];
    assert multiset{} + multiset{1} == multiset{1} && multiset{} + multiset{0} == multiset{0};
    assert r[10] == Leave(r[9].(buf := [Fresh(), Tagged()], ring := [[1]], home := [Private(1), OnRing(0)],
                                hold := [multiset{1}, multiset{}]), 0, 0, Waiting(1));
    assert InsertStep(r[9], r[10], 0);
    assert r[12] == Leave(r[11].(buf := [Tagged(), Tagged()], ring := [[0, 1]], home := [OnRing(0), OnRing(0)],
                                 hold := [multiset{1}, multiset{0}]), 1, 0, Waiting(0));
    assert InsertStep(r[11], r[12], 1);
  }
}
