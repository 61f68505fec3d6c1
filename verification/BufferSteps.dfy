/**
 The buffer cache of kernel/fs/bio.c:102-245 on many processors: every acquisition of a bucket lock or of
 a buffer's sleep lock and every critical section is one step, and steps of different processors
 interleave freely.
 */
module BufferSteps {
  import opened Bytes
  import opened Lists
  import opened BufRing
  import opened BufferCache

  /** What `brelse`, `bpin` or `bunpin` does to the count of a buffer. */
  datatype Change = Release | Pin | Unpin

  /** Where a processor is in the calls of the buffer cache. */
  datatype Pc =
    | Idle
    | Looking(x: nat)                          // bio.c:108, bucket of `x` locked
    | Hunting(x: nat, i: nat)                  // missed; about to lock bucket number `i` of the hunt
    | Sweeping(x: nat, i: nat)                 // bio.c:132, that bucket locked
    | Taken(x: nat, b: nat)                    // victim `b` is off every ring
    | Inserting(x: nat, b: nat)                // bio.c:150, bucket of `x` locked
    | Panicked(x: nat)
    | Waiting(b: nat)                          // at the end of bget: counted, asks for the sleep lock of `b`
    | Dropping(b: nat)                         // in brelse: gave up the sleep lock of `b`, still counted
    | Counting(k: nat, b: nat, change: Change) // bucket `k` of `b` locked
    | Clearing(k: nat)                         // binvalidate, bucket `k` locked

  /**
   `hold[c]` are the references of processor `c`, one for each `bget` whose `brelse` is not done; `pins` are
   those of `bpin`; `sleep[b]` is the owner of the sleep lock of buffer `b`.
   */
  datatype M = M(
    buf: seq<Buf>, ring: seq<seq<nat>>, hand: seq<nat>, home: seq<Home>,
    lock: seq<Option<nat>>, pc: seq<Pc>, hold: seq<multiset<nat>>, pins: seq<nat>, sleep: seq<Option<nat>>)

  /** The bucket lock that the code holds at `pc`; there is never a second one. */
  function LockOf(pc: Pc, n: nat): Option<nat>
    requires n > 0
  {
    match pc
    case Looking(x) => Some(x % n)
    case Sweeping(x, i) => Some(Bucket(x % n, i, n))
    case Inserting(x, b) => Some(x % n)
    case Counting(k, _, _) => Some(k)
    case Clearing(k) => Some(k)
    case _ => None
  }

  function PrivOf(pc: Pc): Option<nat> {
    match pc
    case Taken(_, b) => Some(b)
    case Inserting(_, b) => Some(b)
    case _ => None
  }

  // ---------- Counting references ----------

  /** How many references to `b` the processors hold together. */
  function Held(hold: seq<multiset<nat>>, b: nat): nat {
    if hold == [] then 0 else Held(hold[..|hold| - 1], b) + hold[|hold| - 1][b]
  }

  lemma {:induction false} HeldSet(hold: seq<multiset<nat>>, c: nat, m: multiset<nat>, b: nat)
    requires c < |hold|
    ensures Held(hold[c := m], b) == Held(hold, b) - hold[c][b] + m[b] && hold[c][b] <= Held(hold, b)
  {
    var n := |hold| - 1;
    if c < n {
      HeldSet(hold[..n], c, m, b);
      assert hold[c := m][..n] == hold[..n][c := m];
    } else {
      assert hold[c := m][..n] == hold[..n];
    }
  }

  lemma {:induction false} HeldNone(hold: seq<multiset<nat>>, b: nat)
    requires forall c {:trigger hold[c]} :: 0 <= c < |hold| ==> hold[c] == multiset{}
    ensures Held(hold, b) == 0
  {
    if hold != [] {
      HeldNone(hold[..|hold| - 1], b);
    }
  }

  // ---------- The invariant ----------

  ghost predicate LocksOk(lock: seq<Option<nat>>, pc: seq<Pc>) {
    && |lock| > 0
    && (forall c {:trigger LockOf(pc[c], |lock|)} :: 0 <= c < |pc| && LockOf(pc[c], |lock|).Some? ==>
          LockOf(pc[c], |lock|).value < |lock| && lock[LockOf(pc[c], |lock|).value] == Some(c))
    && (forall k {:trigger lock[k]} :: 0 <= k < |lock| && lock[k].Some? ==>
          lock[k].value < |pc| && LockOf(pc[lock[k].value], |lock|) == Some(k))
  }

  ghost predicate PrivateOk(home: seq<Home>, pc: seq<Pc>) {
    && (forall c {:trigger PrivOf(pc[c])} :: 0 <= c < |pc| && PrivOf(pc[c]).Some? ==>
          PrivOf(pc[c]).value < |home| && home[PrivOf(pc[c]).value] == Private(c))
    && (forall b {:trigger home[b]} :: 0 <= b < |home| && home[b].Private? ==>
          home[b].cpu < |pc| && PrivOf(pc[home[b].cpu]) == Some(b))
  }

  /** A count is the references held plus the pins, and a counted buffer is on the ring of its block. */
  ghost predicate RefOk(s: M, b: nat) {
    && b < |s.buf| && b < |s.pins| && b < |s.home| && |s.ring| > 0
    && s.buf[b].refcnt == Held(s.hold, b) + s.pins[b]
    && (s.buf[b].refcnt > 0 ==> s.home[b] == OnRing(s.buf[b].blockno % |s.ring|))
  }

  /** A processor that waits for, gives back or counts a buffer has a reference to it, or it is pinned. */
  ghost predicate PcOk(s: M, c: nat) {
    && c < |s.pc| && c < |s.hold|
    && match s.pc[c]
       case Waiting(b) => b < |s.buf| && s.hold[c][b] > 0
       case Dropping(b) => b < |s.buf| && b < |s.sleep| && s.hold[c][b] > 0 && s.sleep[b] != Some(c)
       case Counting(k, b, change) =>
         && b < |s.buf| && b < |s.sleep| && b < |s.pins| && |s.ring| > 0 && k == s.buf[b].blockno % |s.ring|
         && (change.Release? ==> s.hold[c][b] > 0 && s.sleep[b] != Some(c))
         && (change.Pin? ==> s.hold[c][b] > 0)
         && (change.Unpin? ==> s.pins[b] > 0)
       case _ => true
  }

  /** Only a processor that has a reference owns the sleep lock. */
  ghost predicate SleepOk(s: M, b: nat) {
    b < |s.sleep| && (s.sleep[b].Some? ==> s.sleep[b].value < |s.hold| && s.hold[s.sleep[b].value][b] > 0)
  }

  ghost predicate Sized(s: M) {
    && |s.lock| == |s.ring| == |s.hand| > 0 && |s.pins| == |s.sleep| == |s.home| == |s.buf| && |s.hold| == |s.pc|
  }

  ghost predicate Inv(s: M) {
    && Sized(s) && Rings(s.buf, s.ring, s.hand, s.home)
    && LocksOk(s.lock, s.pc) && PrivateOk(s.home, s.pc)
    && (forall b {:trigger RefOk(s, b)} :: 0 <= b < |s.buf| ==> RefOk(s, b))
    && (forall c {:trigger PcOk(s, c)} :: 0 <= c < |s.pc| ==> PcOk(s, c))
    && (forall b {:trigger SleepOk(s, b)} :: 0 <= b < |s.buf| ==> SleepOk(s, b))
  }

  /** The state after `binit`. */
  ghost predicate Init(s: M) {
    && Sized(s) && Rings(s.buf, s.ring, s.hand, s.home)
    && (forall k {:trigger s.lock[k]} :: 0 <= k < |s.lock| ==> s.lock[k] == None)
    && (forall c {:trigger s.pc[c]} :: 0 <= c < |s.pc| ==> s.pc[c] == Idle)
    && (forall c {:trigger s.hold[c]} :: 0 <= c < |s.hold| ==> s.hold[c] == multiset{})
    && (forall b {:trigger s.home[b]} :: 0 <= b < |s.home| ==> s.home[b].OnRing?)
    && (forall b {:trigger s.buf[b]} :: 0 <= b < |s.buf| ==>
          s.buf[b].refcnt == 0 && s.pins[b] == 0 && s.sleep[b] == None && !s.buf[b].valid)
  }

  lemma InitInv(s: M)
    requires Init(s)
    ensures Inv(s)
  {
    forall b | 0 <= b < |s.buf|
      ensures RefOk(s, b) && SleepOk(s, b)
    {
      HeldNone(s.hold, b);
      assert s.buf[b].refcnt == 0;
    }
    forall c | 0 <= c < |s.pc|
      ensures PcOk(s, c)
    {
      assert s.pc[c] == Idle;
    }
  }

  // ---------- The steps of processor `c` ----------

  /** Acquire the bucket lock that `pc'` needs. */
  ghost predicate Acquire(s: M, t: M, c: nat, pc': Pc) {
    && c < |s.pc| && |s.lock| > 0 && LockOf(pc', |s.lock|).Some? && LockOf(pc', |s.lock|).value < |s.lock|
    && s.lock[LockOf(pc', |s.lock|).value] == None
    && t == s.(lock := s.lock[LockOf(pc', |s.lock|).value := Some(c)], pc := s.pc[c := pc'])
  }

  /**
   Lock a bucket: to look for a block, to clear, to pin a buffer that the processor holds, to unpin a pinned
   one, to sweep, to insert, or to give back the reference of a `brelse`.
   */
  ghost predicate AcquireStep(s: M, t: M, c: nat, pc': Pc) {
    && Sized(s) && Acquire(s, t, c, pc')
    && match s.pc[c]
       case Idle =>
         || pc'.Looking? || pc'.Clearing?
         || (pc'.Counting? && pc'.b < |s.buf| && pc'.k == s.buf[pc'.b].blockno % |s.ring|
             && ((pc'.change.Pin? && s.hold[c][pc'.b] > 0) || (pc'.change.Unpin? && s.pins[pc'.b] > 0)))
       case Hunting(x, i) => i < |s.ring| && pc' == Sweeping(x, i)
       case Taken(x, b) => pc' == Inserting(x, b)
       case Dropping(b) => b < |s.buf| && pc' == Counting(s.buf[b].blockno % |s.ring|, b, Release)
       case _ => false
  }

  /** Leave a critical section. */
  function Leave(s: M, c: nat, k: nat, pc': Pc): M
    requires c < |s.pc| && k < |s.lock|
  {
    s.(lock := s.lock[k := None], pc := s.pc[c := pc'])
  }

  ghost predicate RingIds(s: M, k: nat) {
    k < |s.ring| && forall i :: 0 <= i < |s.ring[k]| ==> s.ring[k][i] < |s.buf|
  }

  /** A hit: one more reference, for which the processor then waits to own the buffer. */
  ghost predicate HitStep(s: M, t: M, c: nat, b: nat) {
    && Sized(s) && c < |s.pc| && s.pc[c].Looking?
    && var x, k := s.pc[c].x, s.pc[c].x % |s.ring|;
       && RingIds(s, k) && Find(s.ring[k], s.buf, x) == Some(b)
       && t == Leave(s.(buf := s.buf[b := s.buf[b].(refcnt := s.buf[b].refcnt + 1, referenced := true)],
                        hold := s.hold[c := s.hold[c] + multiset{b}]), c, k, Waiting(b))
  }

  /** A miss: the lock is dropped and the hunt begins. */
  ghost predicate MissStep(s: M, t: M, c: nat) {
    && Sized(s) && c < |s.pc| && s.pc[c].Looking?
    && var x, k := s.pc[c].x, s.pc[c].x % |s.ring|;
       && RingIds(s, k) && Find(s.ring[k], s.buf, x) == None
       && t == Leave(s, c, k, Hunting(x, 0))
  }

  /** `clock_victim` in bucket `k`. */
  ghost function SweepOf(s: M, k: nat): Sweep
    requires k < |s.ring| == |s.hand| && RingOk(s.buf, s.ring[k], s.hand[k])
  {
    Clock(s.ring[k], s.buf, s.hand[k], 2 * |s.buf|)
  }

  /** The bucket that processor `c` sweeps. */
  ghost predicate AtBucket(s: M, c: nat, k: nat) {
    && Sized(s) && c < |s.pc| && s.pc[c].Sweeping? && k == Bucket(s.pc[c].x % |s.ring|, s.pc[c].i, |s.ring|)
    && RingOk(s.buf, s.ring[k], s.hand[k])
  }

  /** No victim in this bucket: on to the next one, or panic after the last. */
  ghost predicate FailStep(s: M, t: M, c: nat, k: nat) {
    && AtBucket(s, c, k)
    && var x, i, w := s.pc[c].x, s.pc[c].i, SweepOf(s, k);
       && w.victim.None?
       && t == Leave(s.(buf := w.buf, hand := s.hand[k := w.hand]), c, k,
                     if i + 1 < |s.ring| then Hunting(x, i + 1) else Panicked(x))
  }

  /** The victim is taken off its ring. */
  ghost predicate TakeStep(s: M, t: M, c: nat, k: nat) {
    && AtBucket(s, c, k)
    && var x, w := s.pc[c].x, SweepOf(s, k);
       && w.victim.Some? && w.victim.value < |s.home|
       && var v := w.victim.value;
          t == Leave(s.(buf := w.buf, hand := s.hand[k := w.hand], ring := s.ring[k := Without(s.ring[k], v)],
                        home := s.home[v := Private(c)]), c, k, Taken(x, v))
  }

  /** The victim goes to the front of the ring of its new block, and belongs to the processor. */
  ghost predicate InsertStep(s: M, t: M, c: nat) {
    && Sized(s) && c < |s.pc| && s.pc[c].Inserting? && s.pc[c].b < |s.buf|
    && var x, b, k := s.pc[c].x, s.pc[c].b, s.pc[c].x % |s.ring|;
       t == Leave(s.(buf := s.buf[b := s.buf[b].(blockno := x, valid := false, refcnt := 1, referenced := true)],
                     ring := s.ring[k := [b] + s.ring[k]], home := s.home[b := OnRing(k)],
                     hold := s.hold[c := s.hold[c] + multiset{b}]), c, k, Waiting(b))
  }

  /** `acquiresleep` at the end of `bget`. */
  ghost predicate OwnStep(s: M, t: M, c: nat) {
    && Sized(s) && c < |s.pc| && s.pc[c].Waiting? && s.pc[c].b < |s.sleep| && s.sleep[s.pc[c].b] == None
    && t == s.(sleep := s.sleep[s.pc[c].b := Some(c)], pc := s.pc[c := Idle])
  }

  /** `releasesleep` at the start of `brelse`: only the owner may call it. */
  ghost predicate DropStep(s: M, t: M, c: nat, b: nat) {
    && Sized(s) && c < |s.pc| && s.pc[c].Idle? && b < |s.sleep| && s.sleep[b] == Some(c)
    && t == s.(sleep := s.sleep[b := None], pc := s.pc[c := Dropping(b)])
  }

  /** The critical section of `brelse`, `bpin` or `bunpin`. */
  ghost predicate CountStep(s: M, t: M, c: nat) {
    && Sized(s) && c < |s.pc| && s.pc[c].Counting? && s.pc[c].k < |s.ring| && s.pc[c].b < |s.buf|
    && var b, e := s.pc[c].b, s.buf[s.pc[c].b];
       match s.pc[c].change
       case Release =>
         && e.refcnt > 0
         && t == Leave(s.(buf := s.buf[b := e.(refcnt := e.refcnt - 1, referenced := true)],
                          hold := s.hold[c := s.hold[c] - multiset{b}]), c, s.pc[c].k, Idle)
       case Pin =>
         t == Leave(s.(buf := s.buf[b := e.(refcnt := e.refcnt + 1)], pins := s.pins[b := s.pins[b] + 1]), c,
                    s.pc[c].k, Idle)
       case Unpin =>
         && e.refcnt > 0 && s.pins[b] > 0
         && t == Leave(s.(buf := s.buf[b := e.(refcnt := e.refcnt - 1)], pins := s.pins[b := s.pins[b] - 1]), c,
                       s.pc[c].k, Idle)
  }

  /** The owner of `b` reads it from disk or changes it. */
  ghost predicate FillStep(s: M, t: M, c: nat, b: nat, d: Data) {
    && Sized(s) && b < |s.buf| && s.sleep[b] == Some(c)
    && t == s.(buf := s.buf[b := s.buf[b].(valid := true, data := d)])
  }

  /** `binvalidate` in one bucket. */
  ghost predicate ClearStep(s: M, t: M, c: nat, buf': seq<Buf>) {
    && Sized(s) && c < |s.pc| && s.pc[c].Clearing? && s.pc[c].k < |s.ring| && |buf'| == |s.buf|
    && (forall b {:trigger buf'[b]} :: 0 <= b < |buf'| ==>
          buf'[b] == if b in s.ring[s.pc[c].k] && s.buf[b].refcnt == 0 then s.buf[b].(valid := false) else s.buf[b])
    && t == Leave(s.(buf := buf'), c, s.pc[c].k, Idle)
  }

  ghost predicate Step(s: M, t: M) {
    || (exists c, pc' :: AcquireStep(s, t, c, pc'))
    || (exists c, b :: HitStep(s, t, c, b))
    || (exists c :: MissStep(s, t, c))
    || (exists c, k :: FailStep(s, t, c, k))
    || (exists c, k :: TakeStep(s, t, c, k))
    || (exists c :: InsertStep(s, t, c))
    || (exists c :: OwnStep(s, t, c))
    || (exists c, b :: DropStep(s, t, c, b))
    || (exists c :: CountStep(s, t, c))
    || (exists c, b, d :: FillStep(s, t, c, b, d))
    || (exists c, buf' :: ClearStep(s, t, c, buf'))
  }

  // ---------- Every step keeps the invariant ----------

  lemma LockFree(lock: seq<Option<nat>>, pc: seq<Pc>, c: nat, k: nat, pc': Pc)
    requires LocksOk(lock, pc) && c < |pc| && k < |lock| && LockOf(pc[c], |lock|) == Some(k)
      && LockOf(pc', |lock|) == None
    ensures LocksOk(lock[k := None], pc[c := pc'])
  {
  }

  lemma LockTaken(lock: seq<Option<nat>>, pc: seq<Pc>, c: nat, k: nat, pc': Pc)
    requires LocksOk(lock, pc) && c < |pc| && k < |lock| && lock[k] == None
    requires LockOf(pc[c], |lock|) == None && LockOf(pc', |lock|) == Some(k)
    ensures LocksOk(lock[k := Some(c)], pc[c := pc'])
  {
  }

  lemma LockSame(lock: seq<Option<nat>>, pc: seq<Pc>, c: nat, pc': Pc)
    requires LocksOk(lock, pc) && c < |pc| && LockOf(pc[c], |lock|) == None && LockOf(pc', |lock|) == None
    ensures LocksOk(lock, pc[c := pc'])
  {
  }

  lemma SamePrivate(home: seq<Home>, pc: seq<Pc>, c: nat, pc': Pc)
    requires PrivateOk(home, pc) && c < |pc| && PrivOf(pc') == PrivOf(pc[c])
    ensures PrivateOk(home, pc[c := pc'])
  {
  }

  lemma RingsSame(buf: seq<Buf>, buf': seq<Buf>, ring: seq<seq<nat>>, hand: seq<nat>, home: seq<Home>)
    requires Rings(buf, ring, hand, home) && |buf'| == |buf|
    ensures Rings(buf', ring, hand, home)
  {
    assert forall k {:trigger ring[k]} :: 0 <= k < |ring| ==> RingOk(buf, ring[k], hand[k]);
  }

  /** A buffer with a reference is counted, and so on its ring. */
  lemma HeldCounted(s: M, c: nat, b: nat)
    requires Inv(s) && c < |s.hold| && b < |s.buf| && (s.hold[c][b] > 0 || s.pins[b] > 0)
    ensures s.buf[b].refcnt > 0 && s.home[b] == OnRing(s.buf[b].blockno % |s.ring|)
  {
    assert RefOk(s, b);
    HeldSet(s.hold, c, s.hold[c], b);
  }

  /** What the parts about counts need to carry over when only processor `c` moves and no count changes. */
  ghost predicate SameCounts(s: M, t: M) {
    && t.hold == s.hold && t.pins == s.pins && |t.ring| == |s.ring| && |t.buf| == |s.buf| && |t.home| == |s.home|
    && (forall b {:trigger t.buf[b]} :: 0 <= b < |s.buf| ==>
          t.buf[b].refcnt == s.buf[b].refcnt && t.buf[b].blockno == s.buf[b].blockno)
    && (forall b {:trigger t.home[b]} ::
        0 <= b < |s.home| && b < |s.buf| && s.buf[b].refcnt > 0 ==> t.home[b] == s.home[b])
  }

  lemma CountsKept(s: M, t: M)
    requires Inv(s) && SameCounts(s, t) && t.sleep == s.sleep && Sized(t)
    ensures forall b {:trigger RefOk(t, b)} :: 0 <= b < |t.buf| ==> RefOk(t, b)
    ensures forall b {:trigger SleepOk(t, b)} :: 0 <= b < |t.buf| ==> SleepOk(t, b)
    ensures forall c {:trigger PcOk(t, c)} :: 0 <= c < |t.pc| && c < |s.pc| && t.pc[c] == s.pc[c] ==> PcOk(t, c)
  {
    hide Rings, LocksOk, PrivateOk;
    forall b | 0 <= b < |t.buf|
      ensures RefOk(t, b) && SleepOk(t, b)
    {
      assert RefOk(s, b) && SleepOk(s, b);
      assert t.buf[b].refcnt == s.buf[b].refcnt;
    }
    forall c | 0 <= c < |t.pc| && c < |s.pc| && t.pc[c] == s.pc[c]
      ensures PcOk(t, c)
    {
      assert PcOk(s, c);
    }
  }

  lemma AcquireInv(s: M, t: M, c: nat, pc': Pc)
    requires Inv(s) && AcquireStep(s, t, c, pc')
    ensures Inv(t)
  {
    LockTaken(s.lock, s.pc, c, LockOf(pc', |s.lock|).value, pc');
    SamePrivate(s.home, s.pc, c, pc');
    CountsKept(s, t);
    hide LocksOk, PrivateOk, Rings;
    forall c' | 0 <= c' < |t.pc|
      ensures PcOk(t, c')
    {
      assert PcOk(s, c');
    }
  }

  /** No other processor is in the bucket that `c` has locked. */
  lemma OneCounts(s: M, c: nat, c': nat, k: nat)
    requires Inv(s) && c < |s.pc| && c' < |s.pc| && c != c' && LockOf(s.pc[c], |s.lock|) == Some(k)
    ensures LockOf(s.pc[c'], |s.lock|) != Some(k)
  {
  }

  /** The references to `b`, in bucket `k` that `c` has locked, change: those of `c` to `m`, the pins to `p`. */
  lemma RecountInv(s: M, t: M, c: nat, b: nat, k: nat, e: Buf, m: multiset<nat>, p: nat, pc': Pc)
    requires Inv(s) && c < |s.pc| && LockOf(s.pc[c], |s.lock|) == Some(k) && PrivOf(s.pc[c]) == None && k < |s.lock|
    requires b < |s.buf| && s.home[b] == OnRing(k) && k == s.buf[b].blockno % |s.ring| && e.blockno == s.buf[b].blockno
    requires forall d {:trigger m[d]} :: d != b ==> m[d] == s.hold[c][d]
    requires e.refcnt == s.buf[b].refcnt - s.hold[c][b] + m[b] - s.pins[b] + p
    requires s.sleep[b] == Some(c) ==> m[b] > 0
    requires pc' == Idle || (pc' == Waiting(b) && m[b] > 0)
    requires t == Leave(s.(buf := s.buf[b := e], hold := s.hold[c := m], pins := s.pins[b := p]), c, k, pc')
    ensures Inv(t)
  {
    LockFree(s.lock, s.pc, c, k, pc');
    SamePrivate(s.home, s.pc, c, pc');
    RingsSame(s.buf, t.buf, s.ring, s.hand, s.home);
    forall d | 0 <= d < |t.buf|
      ensures RefOk(t, d) && SleepOk(t, d)
    {
      hide LocksOk, PrivateOk, Rings;
      assert RefOk(s, d) && SleepOk(s, d);
      HeldSet(s.hold, c, m, d);
    }
    forall c' | 0 <= c' < |t.pc|
      ensures PcOk(t, c')
    {
      hide PrivateOk, Rings;
      assert PcOk(s, c');
      if c' != c {
        OneCounts(s, c, c', k);
      }
    }
  }

  lemma HitKeeps(s: M, t: M, c: nat, b: nat)
    requires Inv(s) && HitStep(s, t, c, b)
    ensures Inv(t)
  {
    var k := s.pc[c].x % |s.ring|;
    assert b in s.ring[k];
    assert t.pins == s.pins[b := s.pins[b]];
    RecountInv(s, t, c, b, k, t.buf[b], t.hold[c], s.pins[b], Waiting(b));
  }

  lemma CountKeeps(s: M, t: M, c: nat)
    requires Inv(s) && CountStep(s, t, c)
    ensures Inv(t)
  {
    var b := s.pc[c].b;
    assert PcOk(s, c) && SleepOk(s, b);
    HeldCounted(s, c, b);
    assert s.hold[c := s.hold[c]] == s.hold && s.pins[b := s.pins[b]] == s.pins;
    RecountInv(s, t, c, b, s.pc[c].k, t.buf[b], t.hold[c], t.pins[b], Idle);
  }

  lemma MissKeeps(s: M, t: M, c: nat)
    requires Inv(s) && MissStep(s, t, c)
    ensures Inv(t)
  {
    var x := s.pc[c].x;
    LockFree(s.lock, s.pc, c, x % |s.ring|, Hunting(x, 0));
    SamePrivate(s.home, s.pc, c, Hunting(x, 0));
    CountsKept(s, t);
    hide LocksOk, PrivateOk, Rings;
    OwnPc(s, t, c);
  }

  /** Processors other than `c` did not move, and `c` is where nothing is asked of it. */
  lemma OwnPc(s: M, t: M, c: nat)
    requires Inv(s) && c < |s.pc| && |t.pc| == |s.pc| == |t.hold| && t.pc == s.pc[c := t.pc[c]]
    requires !t.pc[c].Waiting? && !t.pc[c].Dropping? && !t.pc[c].Counting?
    requires forall c' {:trigger PcOk(t, c')} :: 0 <= c' < |t.pc| && t.pc[c'] == s.pc[c'] ==> PcOk(t, c')
    ensures forall c' {:trigger PcOk(t, c')} :: 0 <= c' < |t.pc| ==> PcOk(t, c')
  {
  }

  lemma BitsCounts(buf: seq<Buf>, buf': seq<Buf>)
    requires BitsOnly(buf, buf')
    ensures forall b {:trigger buf'[b]} :: 0 <= b < |buf'| ==>
      buf'[b].refcnt == buf[b].refcnt && buf'[b].blockno == buf[b].blockno && buf'[b].valid == buf[b].valid
  {
    forall b | 0 <= b < |buf'|
      ensures buf'[b].refcnt == buf[b].refcnt && buf'[b].blockno == buf[b].blockno && buf'[b].valid == buf[b].valid
    {
      assert buf'[b].(referenced := buf[b].referenced) == buf[b];
    }
  }

  lemma SweptRings(s: M, buf': seq<Buf>, k: nat, h: nat)
    requires Rings(s.buf, s.ring, s.hand, s.home) && k < |s.ring| && |buf'| == |s.buf| && RingOk(buf', s.ring[k], h)
    ensures Rings(buf', s.ring, s.hand[k := h], s.home)
  {
    RingsSame(s.buf, buf', s.ring, s.hand, s.home);
  }

  lemma FailKeeps(s: M, t: M, c: nat, k: nat)
    requires Inv(s) && FailStep(s, t, c, k)
    ensures Inv(t)
  {
    ClockOk(s.ring[k], s.buf, s.hand[k]);
    hide Clock;
    var w := SweepOf(s, k);
    SweptRings(s, w.buf, k, w.hand);
    LockFree(s.lock, s.pc, c, k, t.pc[c]);
    SamePrivate(s.home, s.pc, c, t.pc[c]);
    BitsCounts(s.buf, w.buf);
    CountsKept(s, t);
    hide Rings, LocksOk, PrivateOk;
    OwnPc(s, t, c);
  }

  lemma TakeKeeps(s: M, t: M, c: nat, k: nat)
    requires Inv(s) && TakeStep(s, t, c, k)
    ensures Inv(t)
  {
    ClockOk(s.ring[k], s.buf, s.hand[k]);
    hide Clock;
    var x, w := s.pc[c].x, SweepOf(s, k);
    var v := w.victim.value;
    SweptRings(s, w.buf, k, w.hand);
    assert s.home[v] == OnRing(k);
    UnlinkRings(w.buf, s.ring, s.hand[k := w.hand], s.home, t.ring, t.home, k, v, c);
    LockFree(s.lock, s.pc, c, k, Taken(x, v));
    BitsCounts(s.buf, w.buf);
    TakenPrivate(s.home, s.pc, c, v, x);
    hide Rings, LocksOk, PrivateOk;
    CountsKept(s, t);
    OwnPc(s, t, c);
  }

  lemma TakenPrivate(home: seq<Home>, pc: seq<Pc>, c: nat, v: nat, x: nat)
    requires PrivateOk(home, pc) && c < |pc| && v < |home| && PrivOf(pc[c]) == None && home[v].OnRing?
    ensures PrivateOk(home[v := Private(c)], pc[c := Taken(x, v)])
  {
  }

  lemma InsertKeeps(s: M, t: M, c: nat)
    requires Inv(s) && InsertStep(s, t, c)
    ensures Inv(t)
  {
    var x, b := s.pc[c].x, s.pc[c].b;
    var k := x % |s.ring|;
    assert PrivOf(s.pc[c]) == Some(b) && s.home[b] == Private(c);
    LinkRings(s.buf, s.ring, s.hand, s.home, k, b, t.buf[b]);
    LockFree(s.lock, s.pc, c, k, Waiting(b));
    assert PrivateOk(t.home, t.pc);
    hide Rings, LocksOk, PrivateOk;
    InsertCounts(s, t, c);
  }

  lemma InsertCounts(s: M, t: M, c: nat)
    requires Inv(s) && InsertStep(s, t, c) && s.home[s.pc[c].b].Private?
    ensures forall d {:trigger RefOk(t, d)} :: 0 <= d < |t.buf| ==> RefOk(t, d)
    ensures forall d {:trigger SleepOk(t, d)} :: 0 <= d < |t.buf| ==> SleepOk(t, d)
    ensures forall c' {:trigger PcOk(t, c')} :: 0 <= c' < |t.pc| ==> PcOk(t, c')
  {
    hide Rings, LocksOk, PrivateOk;
    var b := s.pc[c].b;
    forall d | 0 <= d < |t.buf|
      ensures RefOk(t, d) && SleepOk(t, d)
    {
      assert RefOk(s, d) && SleepOk(s, d);
      HeldSet(s.hold, c, t.hold[c], d);
    }
    forall c' | 0 <= c' < |t.pc|
      ensures PcOk(t, c')
    {
      assert PcOk(s, c') && RefOk(s, b);
      if s.hold[c'][b] > 0 || s.pins[b] > 0 {
        HeldCounted(s, c', b);
      }
    }
  }

  lemma OwnKeeps(s: M, t: M, c: nat)
    requires Inv(s) && OwnStep(s, t, c)
    ensures Inv(t)
  {
    LockSame(s.lock, s.pc, c, Idle);
    SamePrivate(s.home, s.pc, c, Idle);
    hide Rings, LocksOk, PrivateOk;
    assert PcOk(s, c);
    forall b | 0 <= b < |t.buf|
      ensures RefOk(t, b) && SleepOk(t, b)
    {
      assert RefOk(s, b) && SleepOk(s, b);
    }
    forall c' | 0 <= c' < |t.pc|
      ensures PcOk(t, c')
    {
      assert PcOk(s, c');
    }
  }

  lemma DropKeeps(s: M, t: M, c: nat, b: nat)
    requires Inv(s) && DropStep(s, t, c, b)
    ensures Inv(t)
  {
    LockSame(s.lock, s.pc, c, Dropping(b));
    SamePrivate(s.home, s.pc, c, Dropping(b));
    hide Rings, LocksOk, PrivateOk;
    assert SleepOk(s, b);
    forall d | 0 <= d < |t.buf|
      ensures RefOk(t, d) && SleepOk(t, d)
    {
      assert RefOk(s, d) && SleepOk(s, d);
    }
    forall c' | 0 <= c' < |t.pc|
      ensures PcOk(t, c')
    {
      assert PcOk(s, c');
    }
  }

  lemma FillKeeps(s: M, t: M, c: nat, b: nat, d: Data)
    requires Inv(s) && FillStep(s, t, c, b, d)
    ensures Inv(t)
  {
    RingsSame(s.buf, t.buf, s.ring, s.hand, s.home);
    CountsKept(s, t);
    hide Rings, LocksOk, PrivateOk;
  }

  lemma ClearKeeps(s: M, t: M, c: nat, buf': seq<Buf>)
    requires Inv(s) && ClearStep(s, t, c, buf')
    ensures Inv(t)
  {
    LockFree(s.lock, s.pc, c, s.pc[c].k, Idle);
    SamePrivate(s.home, s.pc, c, Idle);
    RingsSame(s.buf, buf', s.ring, s.hand, s.home);
    CountsKept(s, t);
    hide Rings, LocksOk, PrivateOk;
    OwnPc(s, t, c);
  }

  /** Whatever step any processor takes, the invariant holds afterwards. */
  lemma StepKeeps(s: M, t: M)
    requires Inv(s) && Step(s, t)
    ensures Inv(t)
  {
    hide Inv, AcquireStep, HitStep, MissStep, FailStep, TakeStep, InsertStep, OwnStep, DropStep, CountStep, FillStep,
      ClearStep;
    if c, pc' :| AcquireStep(s, t, c, pc') {
      AcquireInv(s, t, c, pc');
    } else if c, b :| HitStep(s, t, c, b) {
      HitKeeps(s, t, c, b);
    } else if c :| MissStep(s, t, c) {
      MissKeeps(s, t, c);
    } else if c, k :| FailStep(s, t, c, k) {
      FailKeeps(s, t, c, k);
    } else if c, k :| TakeStep(s, t, c, k) {
      TakeKeeps(s, t, c, k);
    } else if c :| InsertStep(s, t, c) {
      InsertKeeps(s, t, c);
    } else if c :| OwnStep(s, t, c) {
      OwnKeeps(s, t, c);
    } else if c, b :| DropStep(s, t, c, b) {
      DropKeeps(s, t, c, b);
    } else if c :| CountStep(s, t, c) {
      CountKeeps(s, t, c);
    } else if c, b, d :| FillStep(s, t, c, b, d) {
      FillKeeps(s, t, c, b, d);
    } else {
      var c, buf' :| ClearStep(s, t, c, buf');
      ClearKeeps(s, t, c, buf');
    }
  }

  // ---------- What the invariant means, over whole runs ----------

  ghost predicate IsRun(run: seq<M>) {
    run != [] && Init(run[0]) && forall i {:trigger run[i]} :: 0 < i < |run| ==> Step(run[i - 1], run[i])
  }

  lemma {:induction false} RunKeeps(run: seq<M>, i: nat)
    requires IsRun(run) && i < |run|
    ensures Inv(run[i])
  {
    if i == 0 {
      InitInv(run[0]);
    } else {
      RunKeeps(run, i - 1);
      StepKeeps(run[i - 1], run[i]);
    }
  }

  /** No processor ever holds two bucket locks. */
  lemma OneLock(run: seq<M>, i: nat, c: nat, k: nat, k': nat)
    requires IsRun(run) && i < |run| && k < |run[i].lock| && k' < |run[i].lock|
    requires run[i].lock[k] == Some(c) && run[i].lock[k'] == Some(c)
    ensures k == k'
  {
    RunKeeps(run, i);
  }

  /** No buffer is lost or in two places: it is once on one ring, or off every ring in the hands of one processor. */
  lemma Conserved(run: seq<M>, i: nat, b: nat)
    requires IsRun(run) && i < |run| && b < |run[i].buf|
    ensures var s := run[i];
      && b < |s.home|
      && match s.home[b]
         case OnRing(k) =>
           && k < |s.ring| && b in s.ring[k] && NoDup(s.ring[k])
           && (forall k' :: 0 <= k' < |s.ring| && b in s.ring[k'] ==> k' == k)
           && (forall c {:trigger PrivOf(s.pc[c])} :: 0 <= c < |s.pc| ==> PrivOf(s.pc[c]) != Some(b))
         case Private(c) =>
           && c < |s.pc| && PrivOf(s.pc[c]) == Some(b)
           && (forall k :: 0 <= k < |s.ring| ==> b !in s.ring[k])
           && (forall c' {:trigger PrivOf(s.pc[c'])} :: 0 <= c' < |s.pc| && PrivOf(s.pc[c']) == Some(b) ==> c' == c)
  {
    RunKeeps(run, i);
    var s := run[i];
    assert s.home[b].OnRing? ==> RingOk(s.buf, s.ring[s.home[b].bucket], s.hand[s.home[b].bucket]);
  }

  /**
   A reference count is the number of references that processors hold, plus the pins; a counted buffer is never off
   its ring; and who owns the sleep lock holds a reference.
   */
  lemma CountsExact(run: seq<M>, i: nat, b: nat)
    requires IsRun(run) && i < |run| && b < |run[i].buf|
    ensures var s := run[i];
      && |s.ring| > 0 && b < |s.pins| && b < |s.home| && b < |s.sleep|
      && s.buf[b].refcnt == Held(s.hold, b) + s.pins[b]
      && (s.buf[b].refcnt > 0 ==> s.home[b] == OnRing(s.buf[b].blockno % |s.ring|))
      && (s.sleep[b].Some? ==> s.sleep[b].value < |s.hold| && s.hold[s.sleep[b].value][b] > 0)
  {
    RunKeeps(run, i);
    assert RefOk(run[i], b) && SleepOk(run[i], b);
  }

  // ---------- One buffer per block ----------

  /** The block for which a processor is between dropping the bucket lock and inserting (bio.c:126-150). */
  function WindowOf(pc: Pc): Option<nat> {
    match pc
    case Hunting(x, _) => Some(x)
    case Sweeping(x, _) => Some(x)
    case Taken(x, _) => Some(x)
    case Inserting(x, _) => Some(x)
    case _ => None
  }

  /** No two processors are in the window for the same block. */
  ghost predicate Apart(pc: seq<Pc>) {
    forall c, c' {:trigger WindowOf(pc[c]), WindowOf(pc[c'])} ::
      0 <= c < c' < |pc| && WindowOf(pc[c]).Some? ==> WindowOf(pc[c]) != WindowOf(pc[c'])
  }

  ghost predicate Missing(buf: seq<Buf>, ring: seq<seq<nat>>, x: nat) {
    && |ring| > 0 && (forall i :: 0 <= i < |ring[x % |ring|]| ==> ring[x % |ring|][i] < |buf|)
    && Find(ring[x % |ring|], buf, x) == None
  }

  /** A block for which a processor is in the window is on no ring. */
  ghost predicate WindowsOk(s: M) {
    forall c {:trigger WindowOf(s.pc[c])} ::
      0 <= c < |s.pc| && WindowOf(s.pc[c]).Some? ==> Missing(s.buf, s.ring, WindowOf(s.pc[c]).value)
  }

  ghost predicate InvU(s: M) {
    Inv(s) && RingsInv(s.buf, s.ring, s.hand, s.home) && Apart(s.pc) && WindowsOk(s)
  }

  /** Only tags on rings decide whether a block is missing. */
  lemma MissingSame(buf: seq<Buf>, buf': seq<Buf>, ring: seq<seq<nat>>)
    requires |buf'| == |buf| && forall b {:trigger buf'[b]} :: 0 <= b < |buf| ==> buf'[b].blockno == buf[b].blockno
    ensures forall x {:trigger Missing(buf', ring, x)} :: Missing(buf, ring, x) ==> Missing(buf', ring, x)
  {
    forall x: nat | Missing(buf, ring, x)
      ensures Missing(buf', ring, x)
    {
      FindSame(ring[x % |ring|], buf, buf', x);
    }
  }

  /** A step that changes no tag and no ring and brings nobody into the window. */
  lemma SameU(s: M, t: M, c: nat)
    requires InvU(s) && Inv(t) && Apart(t.pc) && c < |s.pc| && t.ring == s.ring && t.home == s.home
      && SameTags(s.buf, t.buf)
    requires |t.pc| == |s.pc| && t.pc == s.pc[c := t.pc[c]]
      && (WindowOf(t.pc[c]) == None || WindowOf(t.pc[c]) == WindowOf(s.pc[c]))
    ensures InvU(t)
  {
    hide Find, Placed, LocksOk, PrivateOk, Clock;
    MissingSame(s.buf, t.buf, s.ring);
    hide Missing;
    SameTagsInv(s.buf, t.buf, s.ring, s.hand, s.home);
    RingsAny(t);
  }

  lemma RingsAny(t: M)
    requires Rings(t.buf, t.ring, t.hand, t.home)
    ensures forall k, i :: 0 <= k < |t.ring| && 0 <= i < |t.ring[k]| ==> t.ring[k][i] < |t.buf|
  {
    forall k, i | 0 <= k < |t.ring| && 0 <= i < |t.ring[k]|
      ensures t.ring[k][i] < |t.buf|
    {
      assert RingOk(t.buf, t.ring[k], t.hand[k]);
    }
  }

  lemma HitU(s: M, t: M, c: nat, b: nat)
    requires InvU(s) && HitStep(s, t, c, b) && Inv(t) && Apart(t.pc)
    ensures InvU(t)
  {
    hide Find, Placed, LocksOk, PrivateOk, Clock;
    HitInv(s.buf, s.ring, s.hand, s.home, s.pc[c].x, b, t.buf[b]);
    MissingSame(s.buf, t.buf, s.ring);
    hide Missing;
    assert WindowsOk(t);
  }

  lemma MissU(s: M, t: M, c: nat)
    requires InvU(s) && MissStep(s, t, c) && Inv(t) && Apart(t.pc)
    ensures InvU(t)
  {
    hide Find, Placed, LocksOk, PrivateOk, Clock;
    assert Missing(t.buf, t.ring, s.pc[c].x);
    hide Missing;
    assert WindowsOk(t);
  }

  lemma TakeU(s: M, t: M, c: nat, k: nat)
    requires InvU(s) && TakeStep(s, t, c, k) && Inv(t) && Apart(t.pc)
    ensures InvU(t)
  {
    hide Find, Placed, LocksOk, PrivateOk, Clock;
    ClockOk(s.ring[k], s.buf, s.hand[k]);
    var w := SweepOf(s, k);
    var v := w.victim.value;
    SweepInv(s.buf, w.buf, s.ring, s.hand, s.home, k, w.hand);
    UnlinkInv(w.buf, s.ring, s.hand[k := w.hand], s.home, t.ring, t.home, k, v, c);
    BitsCounts(s.buf, w.buf);
    MissingSame(s.buf, w.buf, s.ring);
    assert RingOk(w.buf, s.ring[k], w.hand);
    MissingWithout(w.buf, s.ring, k, v);
    hide Missing, Rings, Apart;
    forall c' | 0 <= c' < |t.pc| && WindowOf(t.pc[c']).Some?
      ensures Missing(t.buf, t.ring, WindowOf(t.pc[c']).value)
    {
      assert WindowOf(t.pc[c']) == WindowOf(s.pc[c']);
    }
  }

  lemma MissingWithout(buf: seq<Buf>, ring: seq<seq<nat>>, k: nat, v: nat)
    requires k < |ring| && NoDup(ring[k])
    ensures forall x {:trigger Missing(buf, ring[k := Without(ring[k], v)], x)} ::
      Missing(buf, ring, x) ==> Missing(buf, ring[k := Without(ring[k], v)], x)
  {
    forall x: nat | Missing(buf, ring, x)
      ensures Missing(buf, ring[k := Without(ring[k], v)], x)
    {
      if x % |ring| == k {
        FindWithout(ring[k], buf, x, v);
      }
    }
  }

  lemma InsertU(s: M, t: M, c: nat)
    requires InvU(s) && InsertStep(s, t, c) && Inv(t) && Apart(t.pc)
    ensures InvU(t)
  {
    hide Find, Placed, LocksOk;
    var x, b := s.pc[c].x, s.pc[c].b;
    var k := x % |s.ring|;
    assert PrivOf(s.pc[c]) == Some(b) && WindowOf(s.pc[c]) == Some(x);
    LinkInv(s.buf, s.ring, s.hand, s.home, x, b, t.buf[b]);
    assert b !in s.ring[k];
    forall y: nat | Missing(s.buf, s.ring, y) && y != x
      ensures Missing(t.buf, t.ring, y)
    {
      var j := y % |s.ring|;
      assert b !in s.ring[j];
      FindSame(s.ring[j], s.buf, t.buf, y);
      if j == k {
        FindFront(b, s.ring[k], t.buf, y);
      }
    }
    hide Missing, PrivateOk;
    forall c' | 0 <= c' < |t.pc| && WindowOf(t.pc[c']).Some?
      ensures Missing(t.buf, t.ring, WindowOf(t.pc[c']).value)
    {
      assert c' != c && WindowOf(s.pc[c']) != WindowOf(s.pc[c]);
    }
  }

  /** As long as no two processors are in the window for the same block, live buffers stay unique. */
  lemma StepU(s: M, t: M)
    requires InvU(s) && Step(s, t) && Apart(t.pc)
    ensures InvU(t)
  {
    StepKeeps(s, t);
    hide Inv, HitStep, MissStep, TakeStep, InsertStep, WindowsOk, Apart, RingsInv;
    if c, b :| HitStep(s, t, c, b) {
      HitU(s, t, c, b);
    } else if c :| MissStep(s, t, c) {
      MissU(s, t, c);
    } else if c, k :| TakeStep(s, t, c, k) {
      TakeU(s, t, c, k);
    } else if c :| InsertStep(s, t, c) {
      InsertU(s, t, c);
    } else {
      OtherU(s, t);
    }
  }

  lemma OtherU(s: M, t: M)
    requires InvU(s) && Inv(t) && Apart(t.pc)
    requires
      || (exists c, pc' :: AcquireStep(s, t, c, pc')) || (exists c, k :: FailStep(s, t, c, k))
      || (exists c :: OwnStep(s, t, c)) || (exists c, b :: DropStep(s, t, c, b)) || (exists c :: CountStep(s, t, c))
      || (exists c, b, d :: FillStep(s, t, c, b, d)) || (exists c, buf' :: ClearStep(s, t, c, buf'))
    ensures InvU(t)
  {
    hide Inv, InvU, Apart, AcquireStep, FailStep, OwnStep, DropStep, CountStep, FillStep, ClearStep;
    if c, pc' :| AcquireStep(s, t, c, pc') {
      AcquireU(s, t, c, pc');
    } else if c: nat, k: nat :| FailStep(s, t, c, k) {
      FailU(s, t, c, k);
    } else if c :| OwnStep(s, t, c) {
      OwnU(s, t, c);
    } else if c, b :| DropStep(s, t, c, b) {
      DropU(s, t, c, b);
    } else if c :| CountStep(s, t, c) {
      CountU(s, t, c);
    } else if c, b, d :| FillStep(s, t, c, b, d) {
      FillU(s, t, c, b, d);
    } else {
      var c, buf' :| ClearStep(s, t, c, buf');
      ClearU(s, t, c, buf');
    }
  }

  lemma AcquireU(s: M, t: M, c: nat, pc': Pc)
    requires InvU(s) && AcquireStep(s, t, c, pc') && Inv(t) && Apart(t.pc)
    ensures InvU(t)
  {
    hide Rings, LocksOk, PrivateOk, Placed, Apart, WindowsOk;
    SameU(s, t, c);
  }

  lemma FailU(s: M, t: M, c: nat, k: nat)
    requires InvU(s) && FailStep(s, t, c, k) && Inv(t) && Apart(t.pc)
    ensures InvU(t)
  {
    hide Rings, LocksOk, PrivateOk, Placed, Apart, WindowsOk, Clock;
    ClockOk(s.ring[k], s.buf, s.hand[k]);
    BitsCounts(s.buf, t.buf);
    SameU(s, t, c);
  }

  lemma OwnU(s: M, t: M, c: nat)
    requires InvU(s) && OwnStep(s, t, c) && Inv(t) && Apart(t.pc)
    ensures InvU(t)
  {
    hide Rings, LocksOk, PrivateOk, Placed, Apart, WindowsOk;
    SameU(s, t, c);
  }

  lemma DropU(s: M, t: M, c: nat, b: nat)
    requires InvU(s) && DropStep(s, t, c, b) && Inv(t) && Apart(t.pc)
    ensures InvU(t)
  {
    hide Rings, LocksOk, PrivateOk, Placed, Apart, WindowsOk;
    SameU(s, t, c);
  }

  lemma CountU(s: M, t: M, c: nat)
    requires InvU(s) && CountStep(s, t, c) && Inv(t) && Apart(t.pc)
    ensures InvU(t)
  {
    hide Rings, LocksOk, PrivateOk, Placed, Apart, WindowsOk;
    CountTags(s, t, c);
    SameU(s, t, c);
  }

  lemma ClearU(s: M, t: M, c: nat, buf': seq<Buf>)
    requires InvU(s) && ClearStep(s, t, c, buf') && Inv(t) && Apart(t.pc)
    ensures InvU(t)
  {
    hide Rings, LocksOk, PrivateOk, Placed, Apart, WindowsOk;
    SameU(s, t, c);
  }

  lemma CountTags(s: M, t: M, c: nat)
    requires InvU(s) && CountStep(s, t, c)
    ensures SameTags(s.buf, t.buf)
  {
    hide RingsInv, WindowsOk, Apart;
    assert PcOk(s, c);
    HeldCounted(s, c, s.pc[c].b);
  }

  lemma FillU(s: M, t: M, c: nat, b: nat, d: Data)
    requires InvU(s) && FillStep(s, t, c, b, d) && Inv(t)
    ensures InvU(t)
  {
    hide Find, Placed, LocksOk, PrivateOk;
    assert SleepOk(s, b);
    HeldCounted(s, c, b);
    SameTagsInv(s.buf, t.buf, s.ring, s.hand, s.home);
    MissingSame(s.buf, t.buf, s.ring);
    hide Missing;
    assert WindowsOk(t);
  }

  lemma InitU(s: M)
    requires Init(s)
    ensures InvU(s)
  {
    InitInv(s);
    RingsAny(s);
  }

  /** In every run that keeps the windows apart, at most one live buffer on the rings stands for a block. */
  lemma {:induction false} UniqueInRun(run: seq<M>, i: nat)
    requires IsRun(run) && i < |run| && forall j {:trigger run[j]} :: 0 <= j < |run| ==> Apart(run[j].pc)
    ensures InvU(run[i])
  {
    if i == 0 {
      InitU(run[0]);
    } else {
      UniqueInRun(run, i - 1);
      hide InvU, Step, Init, Apart;
      assert Step(run[i - 1], run[i]) && Apart(run[i].pc);
      StepU(run[i - 1], run[i]);
    }
  }

  lemma UniqueLive(run: seq<M>, i: nat, b: nat, b': nat)
    requires IsRun(run) && i < |run| && forall j {:trigger run[j]} :: 0 <= j < |run| ==> Apart(run[j].pc)
    requires b < |run[i].buf| && b' < |run[i].buf| && |run[i].home| == |run[i].buf| && run[i].home[b].OnRing?
      && run[i].home[b'].OnRing?
    requires Live(run[i].buf[b]) && Live(run[i].buf[b']) && run[i].buf[b].blockno == run[i].buf[b'].blockno
    ensures b == b'
  {
    hide IsRun;
    UniqueInRun(run, i);
    var s := run[i];
    LiveUnique(s.buf, s.ring, s.hand, s.home, b, b');
  }
}
