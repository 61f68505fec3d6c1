/**
 The buffer cache of kernel/fs/bio.c:39-245 with calls one at a time: it behaves like the plain disk.
 There is one device; a call that sleeps on a locked buffer ends in `Asleep` and goes on with `Wake`.
 */
module BufferCache {
  import opened Bytes
  import opened DivMod
  import opened Lists
  import opened BufRing

  /** The bucket that `bget` for bucket `bid` tries in round `i`. */
  function Bucket(bid: nat, i: nat, n: nat): (k: nat)
    requires n > 0
    ensures k < n
  {
    (bid + i) % n
  }

  function Bit(b: bool): nat { if b then 1 else 0 }

  /** Visits of the clock hand before it reaches position `q` of a ring of length `len`. */
  function Dist(i: nat, q: nat, len: nat): int { if i <= q then q - i else if i >= len then q else q - i + len }

  /** Only reference bits changed. */
  ghost predicate BitsOnly(buf: seq<Buf>, buf': seq<Buf>) {
    |buf'| == |buf|
      && forall b {:trigger buf'[b]} :: 0 <= b < |buf| ==> buf'[b].(referenced := buf[b].referenced) == buf[b]
  }

  /** A buffer that holds its block, as it is on disk unless its holder changed it since. */
  ghost predicate Sync(b: Buf, changed: bool, disk: seq<Data>) {
    && (Live(b) ==> b.blockno < |disk|)
    && (b.valid && !changed ==> b.blockno < |disk| && b.data == disk[b.blockno])
  }

  /**
   How far the hand at position `i` is from selecting the unreferenced buffer at position `q`: it
   passes it once to clear its reference bit, and goes round once more.
   */
  function Wait(r: seq<nat>, buf: seq<Buf>, i: nat, q: nat): int
    requires q < |r| && r[q] < |buf|
  {
    Dist(i, q, |r|) + if buf[r[q]].referenced then |r| else 0
  }

  lemma WaitPositive(r: seq<nat>, buf: seq<Buf>, i: nat, q: nat)
    requires forall j :: 0 <= j < |r| ==> r[j] < |buf|
    ensures q < |r| ==> Wait(r, buf, i, q) >= 0
  {
  }

  lemma WaitStart(r: seq<nat>, buf: seq<Buf>)
    requires forall j :: 0 <= j < |r| ==> r[j] < |buf|
    ensures forall i: nat, q: nat {:trigger Wait(r, buf, i, q)} :: i <= |r| && q < |r| ==> Wait(r, buf, i, q) < 2 * |r|
  {
  }

  lemma WaitHead(r: seq<nat>, buf: seq<Buf>, q: nat)
    requires forall j :: 0 <= j < |r| ==> r[j] < |buf|
    ensures q < |r| ==> Wait(r, buf, 0, q) == Wait(r, buf, |r|, q)
  {
  }

  /** A visit brings the hand nearer, whether it passes by, finds a referenced buffer or clears a bit. */
  lemma WaitVisit(r: seq<nat>, buf: seq<Buf>, i: nat, q: nat)
    requires NoDup(r) && i < |r| && forall j :: 0 <= j < |r| ==> r[j] < |buf|
    ensures q < |r| && q != i ==> Wait(r, buf, i + 1, q) == Wait(r, buf, i, q) - 1
    ensures buf[r[i]].referenced && q < |r| ==>
      Wait(r, buf[r[i] := buf[r[i]].(referenced := false)], i + 1, q) == Wait(r, buf, i, q) - 1
  {
  }

  /** A sweep of the clock: the victim, the buffers and the hand afterwards. */
  datatype Sweep = Sweep(victim: Option<nat>, buf: seq<Buf>, hand: nat)

  /** `clock_victim` on the ring `r` with `left` visits to go; the hand is at a buffer or at the head of the ring. */
  ghost function Clock(r: seq<nat>, buf: seq<Buf>, hand: nat, left: nat): Sweep
    requires RingOk(buf, r, hand)
    decreases left, Bit(hand == |buf|)
  {
    if left == 0 then Sweep(None, buf, hand)
    else if hand == |buf| then (if r == [] then Sweep(None, buf, hand) else Clock(r, buf, r[0], left))
    else
      var next := NextOf(r, hand, |buf|);
      if buf[hand].refcnt != 0 then Clock(r, buf, next, left - 1)
      else if buf[hand].referenced then Clock(r, buf[hand := buf[hand].(referenced := false)], next, left - 1)
      else Sweep(Some(hand), buf, next)
  }

  /** A sweep from position `i` on, given that a free buffer at `q` would still be reached. */
  lemma {:induction false} ClockFinds(r: seq<nat>, buf0: seq<Buf>, buf: seq<Buf>, i: nat, left: nat)
    requires RingOk(buf0, r, |buf0|) && BitsOnly(buf0, buf) && i <= |r|
    requires FirstFree(r, buf0) < |r| ==> Wait(r, buf, i, FirstFree(r, buf0)) < left
    ensures RingOk(buf, r, if i < |r| then r[i] else |buf|)
    ensures var w := Clock(r, buf, if i < |r| then r[i] else |buf|, left);
      && BitsOnly(buf0, w.buf) && RingOk(w.buf, r, w.hand)
      && (w.victim.None? <==> FirstFree(r, buf0) == |r|)
      && (w.victim.Some? ==> w.victim.value in r && buf0[w.victim.value].refcnt == 0 && w.hand != w.victim.value)
    decreases left, Bit(i == |r|)
  {
    hide NextOf, NoDup, Wait, Dist;
    var q := FirstFree(r, buf0);
    WaitPositive(r, buf, i, q);
    if left > 0 && i == |r| && r != [] {
      WaitHead(r, buf, q);
      ClockFinds(r, buf0, buf, 0, left);
    } else if left > 0 && i < |r| {
      var b := r[i];
      assert buf[b].(referenced := buf0[b].referenced) == buf0[b];
      NextAt(r, i, |buf|);
      WaitVisit(r, buf, i, q);
      if buf[b].refcnt != 0 {
        ClockFinds(r, buf0, buf, i + 1, left - 1);
      } else if buf[b].referenced {
        ClockFinds(r, buf0, buf[b := buf[b].(referenced := false)], i + 1, left - 1);
      }
    }
  }

  /**
   Two passes over all buffers are always enough: there is no victim exactly when every buffer on the ring is
   referenced.  The hand ends on the ring, and not on the victim; nothing but reference bits changes.
   */
  lemma ClockOk(r: seq<nat>, buf: seq<Buf>, hand: nat)
    requires RingOk(buf, r, hand)
    ensures var w := Clock(r, buf, hand, 2 * |buf|);
      && BitsOnly(buf, w.buf) && RingOk(w.buf, r, w.hand)
      && (w.victim.None? <==> forall b :: b in r ==> buf[b].refcnt > 0)
      && (w.victim.Some? ==>
          w.victim.value in r && w.victim.value < |buf| && buf[w.victim.value].refcnt == 0 && w.hand != w.victim.value)
  {
    hide Clock;
    DistinctBound(r, |buf|);
    WaitStart(r, buf);
    ClockFinds(r, buf, buf, IndexOf(r, hand), 2 * |buf|);
  }

  // ---------- Which buffer it is ----------

  /** Nobody refers to the buffer, and it was not used since the hand last passed it. */
  predicate Stale(e: Buf) { e.refcnt == 0 && !e.referenced }

  /** The buffers after the hand passed those in `bs`: the reference bits of unreferenced ones are cleared. */
  ghost function Passed(buf: seq<Buf>, bs: seq<nat>): (r: seq<Buf>)
    ensures |r| == |buf|
    ensures forall b {:trigger r[b]} :: 0 <= b < |buf| ==>
      r[b] == if b in bs && buf[b].refcnt == 0 then buf[b].(referenced := false) else buf[b]
  {
    seq(|buf|, b requires 0 <= b < |buf| => if b in bs
        && buf[b].refcnt == 0 then buf[b].(referenced := false) else buf[b])
  }

  /** The ring from the hand on; a hand at the head of the ring stands for the first buffer. */
  ghost function FromHand(r: seq<nat>, hand: nat): (rot: seq<nat>)
    ensures |rot| == |r|
  {
    var h := if hand in r then IndexOf(r, hand) else 0;
    r[h..] + r[..h]
  }

  /** The buffer behind position `i` of the ring, which behind the last one is the head, `n`. */
  function Behind(r: seq<nat>, i: nat, n: nat): nat { if i + 1 < |r| then r[i + 1] else n }

  /**
   The second chance: from the hand on, the first stale buffer is taken, and the unreferenced ones before it lose their
   reference bits; if there is no stale one, all lose them and the first unreferenced one is taken; if there is none,
   nothing changes.  The hand ends behind the buffer taken.
   */
  ghost predicate SecondChance(r: seq<nat>, buf: seq<Buf>, rot: seq<nat>, v: Option<nat>, buf': seq<Buf>, hand: nat) {
    && (forall j :: 0 <= j < |rot| ==> rot[j] < |buf|)
    && if v.None? then buf' == buf && forall j :: 0 <= j < |rot| ==> buf[rot[j]].refcnt > 0
       else exists j, i {:trigger rot[j], r[i]} ::
         && 0 <= j < |rot| && 0 <= i < |r| && v.value == rot[j] == r[i] && hand == Behind(r, i, |buf|)
         && Picked(buf, rot, j, buf')
  }

  ghost predicate Picked(buf: seq<Buf>, rot: seq<nat>, j: nat, buf': seq<Buf>)
    requires j < |rot| && forall x :: 0 <= x < |rot| ==> rot[x] < |buf|
  {
    || (Stale(buf[rot[j]]) && (forall x :: 0 <= x < j ==> !Stale(buf[rot[x]])) && buf' == Passed(buf, rot[..j]))
    || (&& buf[rot[j]].refcnt == 0 && (forall x :: 0 <= x < j ==> buf[rot[x]].refcnt > 0)
        && (forall x :: 0 <= x < |rot| ==> !Stale(buf[rot[x]])) && buf' == Passed(buf, rot))
  }

  /** The hand is at buffer `b`, or at the head with `b` first on the ring. */
  predicate AtBuf(r: seq<nat>, hand: nat, n: nat, b: nat) { hand == b || (hand == n && r != [] && b == r[0]) }

  /** What `rot` is to the ring `r`. */
  ghost predicate Turned(r: seq<nat>, h: nat, rot: seq<nat>) { h < |r| && rot == r[h..] + r[..h] && NoDup(r) }

  /** Where position `x` of the turned ring is on the ring, and what comes behind it. */
  lemma TurnedNext(r: seq<nat>, h: nat, rot: seq<nat>, x: nat, n: nat) returns (i: nat)
    requires Turned(r, h, rot) && x < |rot| && forall j :: 0 <= j < |r| ==> r[j] < n
    ensures i < |r| && r[i] == rot[x] && NextOf(r, rot[x], n) == Behind(r, i, n)
    ensures AtBuf(r, Behind(r, i, n), n, rot[if x + 1 < |rot| then x + 1 else 0])
    ensures forall y :: 0 <= y < x ==> rot[y] != rot[x]
  {
    hide NextOf;
    i := if h + x < |r| then h + x else h + x - |r|;
    NextAt(r, i, n);
  }

  lemma PassedMore(buf: seq<Buf>, rot: seq<nat>, x: nat)
    requires x < |rot| && rot[x] < |buf| && forall y :: 0 <= y < x ==> rot[y] != rot[x]
    ensures rot[x] !in rot[..x] && Passed(buf, rot[..x])[rot[x]] == buf[rot[x]]
    ensures Passed(buf, rot[..x + 1]) ==
      if buf[rot[x]].refcnt == 0 then Passed(buf, rot[..x])[rot[x] := buf[rot[x]].(referenced := false)]
      else Passed(buf, rot[..x])
  {
    assert rot[..x + 1] == rot[..x] + [rot[x]];
  }

  /** One visit of the hand. */
  lemma ClockVisit(r: seq<nat>, buf: seq<Buf>, hand: nat, left: nat)
    requires RingOk(buf, r, hand) && left > 0 && hand != |buf|
    ensures hand < |buf| && RingOk(buf, r, NextOf(r, hand, |buf|))
    ensures Clock(r, buf, hand, left) ==
      if buf[hand].refcnt != 0 then Clock(r, buf, NextOf(r, hand, |buf|), left - 1)
      else if buf[hand].referenced then
        Clock(r, buf[hand := buf[hand].(referenced := false)], NextOf(r, hand, |buf|), left - 1)
      else Sweep(Some(hand), buf, NextOf(r, hand, |buf|))
  {
    hide NextOf, NoDup;
  }

  lemma ClockHead(r: seq<nat>, buf: seq<Buf>, left: nat)
    requires RingOk(buf, r, |buf|) && left > 0 && r != []
    ensures RingOk(buf, r, r[0]) && r[0] != |buf| && Clock(r, buf, |buf|, left) == Clock(r, buf, r[0], left)
  {
    hide NoDup;
  }

  /** A visit of the first round that takes nothing. */
  lemma FirstPass(r: seq<nat>, buf: seq<Buf>, rot: seq<nat>, x: nat, left: nat)
    requires x < |rot| && rot[x] < |buf| && RingOk(buf, r, rot[x]) && left > 0 && !Stale(buf[rot[x]])
    requires forall y :: 0 <= y < x ==> rot[y] != rot[x]
    ensures RingOk(buf, r, NextOf(r, rot[x], |buf|))
    ensures Clock(r, Passed(buf, rot[..x]), rot[x], left)
         == Clock(r, Passed(buf, rot[..x + 1]), NextOf(r, rot[x], |buf|), left - 1)
  {
    hide NextOf, NoDup;
    PassedMore(buf, rot, x);
    ClockVisit(r, Passed(buf, rot[..x]), rot[x], left);
    hide Clock;
  }

  /** A visit of the first round that takes the buffer. */
  lemma FirstTake(r: seq<nat>, buf: seq<Buf>, rot: seq<nat>, x: nat, i: nat, left: nat)
    requires x < |rot| && RingOk(buf, r, rot[x]) && left > 0 && (forall y :: 0 <= y < |rot| ==> rot[y] < |buf|)
    requires Stale(buf[rot[x]]) && (forall y :: 0 <= y < x ==> rot[y] != rot[x] && !Stale(buf[rot[y]]))
    requires i < |r| && r[i] == rot[x] && NextOf(r, rot[x], |buf|) == Behind(r, i, |buf|)
    ensures var w := Clock(r, Passed(buf, rot[..x]), rot[x], left); SecondChance(r, buf, rot, w.victim, w.buf, w.hand)
  {
    hide NextOf, NoDup, SecondChance, Behind;
    PassedMore(buf, rot, x);
    ClockVisit(r, Passed(buf, rot[..x]), rot[x], left);
    hide Clock;
    assert Picked(buf, rot, x, Passed(buf, rot[..x]));
    ChosenHere(r, buf, rot, x, i, Passed(buf, rot[..x]));
  }

  /** The first round, with `x` buffers behind it. */
  lemma {:induction false} FirstRound(r: seq<nat>, buf: seq<Buf>, h: nat, rot: seq<nat>, x: nat, hand: nat, left: nat)
    requires RingOk(buf, r, hand) && Turned(r, h, rot) && x < |rot| && left >= 2 * |rot| - x
    requires AtBuf(r, hand, |buf|, rot[x])
    requires (forall y :: 0 <= y < |rot| ==> rot[y] < |buf|) && (forall y :: 0 <= y < x ==> !Stale(buf[rot[y]]))
    requires exists q :: 0 <= q < |rot| && buf[rot[q]].refcnt == 0
    ensures var w := Clock(r, Passed(buf, rot[..x]), hand, left); SecondChance(r, buf, rot, w.victim, w.buf, w.hand)
    decreases |rot| - x, Bit(hand == |buf|)
  {
    hide NextOf, NoDup, Turned, SecondChance, Clock, Behind;
    if hand == |buf| {
      ClockHead(r, Passed(buf, rot[..x]), left);
      FirstRound(r, buf, h, rot, x, r[0], left);
    } else {
      var i := TurnedNext(r, h, rot, x, |buf|);
      if Stale(buf[rot[x]]) {
        FirstTake(r, buf, rot, x, i, left);
      } else {
        FirstPass(r, buf, rot, x, left);
        if x + 1 < |rot| {
          FirstRound(r, buf, h, rot, x + 1, NextOf(r, hand, |buf|), left - 1);
        } else {
          assert rot[..x + 1] == rot;
          SecondRound(r, buf, h, rot, 0, NextOf(r, hand, |buf|), left - 1);
        }
      }
    }
  }

  /** The second round: no reference bit of an unreferenced buffer is left. */
  lemma {:induction false} SecondRound(r: seq<nat>, buf: seq<Buf>, h: nat, rot: seq<nat>, x: nat, hand: nat, left: nat)
    requires RingOk(buf, r, hand) && Turned(r, h, rot) && x < |rot| && left >= |rot| - x
    requires AtBuf(r, hand, |buf|, rot[x])
    requires (forall y :: 0 <= y < |rot| ==> rot[y] < |buf| && !Stale(buf[rot[y]]))
    requires (forall y :: 0 <= y < x ==> buf[rot[y]].refcnt > 0) && exists q ::
      x <= q < |rot| && buf[rot[q]].refcnt == 0
    ensures var w := Clock(r, Passed(buf, rot), hand, left); SecondChance(r, buf, rot, w.victim, w.buf, w.hand)
    decreases |rot| - x, Bit(hand == |buf|)
  {
    hide NextOf, NoDup, Turned, SecondChance;
    var buf' := Passed(buf, rot);
    if hand == |buf| {
      SecondRound(r, buf, h, rot, x, r[0], left);
    } else {
      var i := TurnedNext(r, h, rot, x, |buf|);
      assert rot[x] in rot;
      if buf[rot[x]].refcnt == 0 {
        assert Picked(buf, rot, x, buf');
        ChosenHere(r, buf, rot, x, i, buf');
      } else {
        SecondRound(r, buf, h, rot, x + 1, NextOf(r, hand, |buf|), left - 1);
      }
    }
  }

  lemma ChosenHere(r: seq<nat>, buf: seq<Buf>, rot: seq<nat>, j: nat, i: nat, buf': seq<Buf>)
    requires j < |rot| && i < |r| && rot[j] == r[i] && forall x :: 0 <= x < |rot| ==> rot[x] < |buf|
    requires Picked(buf, rot, j, buf')
    ensures SecondChance(r, buf, rot, Some(rot[j]), buf', Behind(r, i, |buf|))
  {
    hide Picked, Behind;
  }

  /** When all buffers are referenced the hand goes round and changes nothing. */
  lemma {:induction false} AllBusy(r: seq<nat>, buf: seq<Buf>, hand: nat, left: nat)
    requires RingOk(buf, r, hand) && forall b :: b in r ==> b < |buf| && buf[b].refcnt > 0
    ensures var w := Clock(r, buf, hand, left); w.victim == None && w.buf == buf
    decreases left, Bit(hand == |buf|)
  {
    hide NextOf;
    if left > 0 {
      if hand == |buf| {
        if r != [] {
          AllBusy(r, buf, r[0], left);
        }
      } else {
        AllBusy(r, buf, NextOf(r, hand, |buf|), left - 1);
      }
    }
  }

  /** `clock_victim` gives a second chance. */
  lemma ClockChooses(r: seq<nat>, buf: seq<Buf>, hand: nat)
    requires RingOk(buf, r, hand)
    ensures var w := Clock(r, buf, hand, 2 * |buf|); SecondChance(r, buf, FromHand(r, hand), w.victim, w.buf, w.hand)
  {
    var rot := FromHand(r, hand);
    forall j | 0 <= j < |rot|
      ensures rot[j] in r && rot[j] < |buf|
    {
    }
    if q :| 0 <= q < |rot| && buf[rot[q]].refcnt == 0 {
      DistinctBound(r, |buf|);
      var h := if hand in r then IndexOf(r, hand) else 0;
      assert Passed(buf, rot[..0]) == buf;
      hide NoDup, Clock;
      FirstRound(r, buf, h, rot, 0, hand, 2 * |buf|);
    } else {
      forall b | b in r
        ensures b < |buf| && buf[b].refcnt > 0
      {
        InRot(r, hand, b);
      }
      AllBusy(r, buf, hand, 2 * |buf|);
    }
  }

  lemma InRot(r: seq<nat>, hand: nat, b: nat)
    requires b in r
    ensures b in FromHand(r, hand)
  {
    var h := if hand in r then IndexOf(r, hand) else 0;
    assert r == r[..h] + r[h..];
  }

  /** `clock_victim` is this sweep, with `2 * NBUF` visits. */
  method ClockVictim(r: seq<nat>, buf0: seq<Buf>, hand0: nat) returns (v: Option<nat>, buf: seq<Buf>, hand: nat)
    requires RingOk(buf0, r, hand0)
    ensures Sweep(v, buf, hand) == Clock(r, buf0, hand0, 2 * |buf0|)
    ensures BitsOnly(buf0, buf) && RingOk(buf, r, hand)
    ensures SecondChance(r, buf0, FromHand(r, hand0), v, buf, hand)
    ensures v.None? <==> forall b :: b in r ==> buf0[b].refcnt > 0
    ensures v.Some? ==> v.value in r && v.value < |buf0| && buf0[v.value].refcnt == 0 && hand != v.value
  {
    hide NextOf, NoDup, SecondChance, FromHand;
    ClockOk(r, buf0, hand0);
    ClockChooses(r, buf0, hand0);
    var nbuf := |buf0|;
    buf, hand := buf0, hand0;
    var scanned := 0;
    while scanned < 2 * nbuf
      invariant 0 <= scanned <= 2 * nbuf == 2 * |buf| && RingOk(buf, r, hand)
      invariant Clock(r, buf, hand, 2 * nbuf - scanned) == Clock(r, buf0, hand0, 2 * nbuf)
      decreases 2 * nbuf - scanned, Bit(hand == nbuf)
    {
      var b := hand;
      if b == nbuf {
        b := if |r| > 0 then r[0] else nbuf;
        hand := b;
        if b == nbuf {
          return None, buf, hand;
        }
        continue;
      }
      hand := NextOf(r, b, nbuf);
      scanned := scanned + 1;
      if buf[b].refcnt != 0 {
        continue;
      }
      if buf[b].referenced {
        buf := buf[b := buf[b].(referenced := false)];
        continue;
      }
      return Some(b), buf, hand;
    }
    v := None;
  }

  ghost function IndexOf(r: seq<nat>, x: nat): (i: nat)
    ensures i <= |r| && (i < |r| ==> r[i] == x) && (i == |r| <==> x !in r)
  {
    if r == [] then 0 else if r[0] == x then 0 else 1 + IndexOf(r[1..], x)
  }

  /** Position of an unreferenced buffer, if there is one. */
  ghost function FirstFree(r: seq<nat>, buf: seq<Buf>): (q: nat)
    requires forall i :: 0 <= i < |r| ==> r[i] < |buf|
    ensures q <= |r| && (q < |r| ==> buf[r[q]].refcnt == 0) && (q == |r| <==> forall b :: b in r ==> buf[b].refcnt > 0)
  {
    if r == [] then 0 else if buf[r[0]].refcnt == 0 then 0 else 1 + FirstFree(r[1..], buf)
  }

  /** Reference counts are the holder of the lock, plus pins and calls asleep. */
  ghost predicate Counts(buf: seq<Buf>, locked: seq<bool>, pins: seq<nat>, changed: seq<bool>) {
    && |buf| == |locked| == |pins| == |changed|
    && forall b {:trigger buf[b]} :: 0 <= b < |buf| ==> buf[b].refcnt == Bit(locked[b]) + pins[b]
  }

  lemma CountsSet(buf: seq<Buf>, locked: seq<bool>, pins: seq<nat>, changed: seq<bool>, b: nat, e: Buf, l: bool,
                  p: nat, c: bool)
    requires Counts(buf, locked, pins, changed) && b < |buf| && e.refcnt == Bit(l) + p
    ensures Counts(buf[b := e], locked[b := l], pins[b := p], changed[b := c])
  {
  }

  lemma CountsBits(buf: seq<Buf>, buf': seq<Buf>, locked: seq<bool>, pins: seq<nat>, changed: seq<bool>)
    requires Counts(buf, locked, pins, changed) && BitsOnly(buf, buf')
    ensures Counts(buf', locked, pins, changed)
  {
    forall b | 0 <= b < |buf|
      ensures buf'[b].refcnt == buf[b].refcnt
    {
      assert buf'[b].(referenced := buf[b].referenced) == buf[b];
    }
  }

  ghost predicate Synced(buf: seq<Buf>, changed: seq<bool>, disk: seq<Data>) {
    |buf| == |changed|
      && forall b {:trigger Sync(buf[b], changed[b], disk)} :: 0 <= b < |buf| ==> Sync(buf[b], changed[b], disk)
  }

  lemma SyncedSet(buf: seq<Buf>, changed: seq<bool>, disk: seq<Data>, b: nat, e: Buf, c: bool)
    requires Synced(buf, changed, disk) && b < |buf| && Sync(e, c, disk)
    ensures Synced(buf[b := e], changed[b := c], disk)
  {
    var buf', changed' := buf[b := e], changed[b := c];
    forall i | 0 <= i < |buf'|
      ensures Sync(buf'[i], changed'[i], disk)
    {
      assert i != b ==> Sync(buf[i], changed[i], disk);
    }
  }

  lemma SyncedBits(buf: seq<Buf>, buf': seq<Buf>, changed: seq<bool>, disk: seq<Data>)
    requires Synced(buf, changed, disk) && BitsOnly(buf, buf')
    ensures Synced(buf', changed, disk)
  {
    forall c | 0 <= c < |buf|
      ensures Sync(buf'[c], changed[c], disk)
    {
      assert Sync(buf[c], changed[c], disk);
    }
  }

  /** What is known of one buffer. */
  lemma At(buf: seq<Buf>, locked: seq<bool>, pins: seq<nat>, changed: seq<bool>, disk: seq<Data>, b: nat)
    requires Counts(buf, locked, pins, changed) && Synced(buf, changed, disk) && b < |buf|
    ensures buf[b].refcnt == Bit(locked[b]) + pins[b] && Sync(buf[b], changed[b], disk)
  {
    assert Sync(buf[b], changed[b], disk);
  }

  ghost predicate AllOnRings(home: seq<Home>) {
    forall b {:trigger home[b]} :: 0 <= b < |home| ==> home[b].OnRing?
  }

  /** What `bget` returns: a buffer locked for the caller, or one it has to sleep for, or a panic. */
  /**
   Where a victim comes from: from bucket `bid` on, round the table, the first bucket that has an unreferenced buffer,
   and there the one that gets no second chance.
   */
  ghost predicate Hunted(buf: seq<Buf>, ring: seq<seq<nat>>, hand: seq<nat>, bid: nat, v: nat) {
    |ring| == |hand| > 0
    && exists i: nat, buf', h {:trigger HuntedIn(buf, ring, hand, bid, i, v, buf', h)} ::
         HuntedIn(buf, ring, hand, bid, i, v, buf', h)
  }

  ghost predicate HuntedIn(buf: seq<Buf>, ring: seq<seq<nat>>, hand: seq<nat>, bid: nat, i: nat, v: nat,
                           buf': seq<Buf>, h: nat)
    requires |ring| == |hand| > 0
  {
    && i < |ring|
    && (forall j, b {:trigger b in ring[Bucket(bid, j, |ring|)]} ::
          0 <= j < i && 0 <= b < |buf| && b in ring[Bucket(bid, j, |ring|)] ==> buf[b].refcnt > 0)
    && var k := Bucket(bid, i, |ring|);
       SecondChance(ring[k], buf, FromHand(ring[k], hand[k]), Some(v), buf', h)
  }

  lemma HandsCount(buf: seq<Buf>, ring: seq<seq<nat>>, hand: seq<nat>, home: seq<Home>)
    requires RingsInv(buf, ring, hand, home)
    ensures |hand| == |ring|
  {
  }

  lemma HuntedAt(buf: seq<Buf>, ring: seq<seq<nat>>, hand: seq<nat>, bid: nat, i: nat, v: nat, buf': seq<Buf>, h: nat)
    requires |ring| == |hand| > 0 && i < |ring|
    requires forall j, b {:trigger b in ring[Bucket(bid, j, |ring|)]} ::
      0 <= j < i && 0 <= b < |buf| && b in ring[Bucket(bid, j, |ring|)] ==> buf[b].refcnt > 0
    requires var k := Bucket(bid, i, |ring|); SecondChance(ring[k], buf, FromHand(ring[k], hand[k]), Some(v), buf', h)
    ensures Hunted(buf, ring, hand, bid, v)
  {
    hide SecondChance, FromHand;
    assert HuntedIn(buf, ring, hand, bid, i, v, buf', h);
  }

  /** A sweep that finds no victim changes no buffer. */
  lemma Unchanged(r: seq<nat>, buf: seq<Buf>, hand: nat, buf': seq<Buf>, h: nat)
    requires SecondChance(r, buf, FromHand(r, hand), None, buf', h)
    ensures buf' == buf
  {
  }

  /** The hunt begins with the bucket of the block and goes on to the next, from the last to the first. */
  lemma BucketOrder(bid: nat, i: nat, n: nat)
    requires bid < n
    ensures Bucket(bid, 0, n) == bid
    ensures Bucket(bid, i + 1, n) == if Bucket(bid, i, n) + 1 < n then Bucket(bid, i, n) + 1 else 0
  {
    hide Bucket, Quo;
    BucketRem(bid, 0, n);
    BucketRem(bid, i, n);
    BucketRem(bid, i + 1, n);
    RemNext(bid + i, n);
  }

  lemma BucketRem(bid: nat, i: nat, n: nat)
    requires n > 0
    ensures Bucket(bid, i, n) == Rem(bid + i, n)
  {
    AreDivModMul(bid + i, n);
  }

  lemma {:induction false} RemNext(k: nat, n: nat)
    requires n > 0
    ensures Rem(k + 1, n) == if Rem(k, n) + 1 < n then Rem(k, n) + 1 else 0
  {
    if k >= n {
      RemNext(k - n, n);
    }
  }

  lemma BucketInjective(bid: nat, j: nat, j': nat, n: nat)
    requires bid < n && j < n && j' < n && Bucket(bid, j, n) == Bucket(bid, j', n)
    ensures j == j'
  {
    AreDivModMul(bid + j, n);
    AreDivModMul(bid + j', n);
  }

  datatype Got = Buffer(b: nat) | Asleep(b: nat) | NoBuffers

  class Bcache {
    const nbuf: nat
    const nbucket: nat
    var buf: seq<Buf>
    var ring: seq<seq<nat>>
    var hand: seq<nat>
    var locked: seq<bool>
    var disk: seq<Data>
    ghost var home: seq<Home>
    ghost var pins: seq<nat>
    ghost var changed: seq<bool>

    /** Rings, counts and locks fit together. */
    ghost predicate Struct()
      reads this
    {
      && |buf| == |home| == |locked| == |pins| == |changed| == nbuf && |ring| == nbucket > 0
      && RingsInv(buf, ring, hand, home) && AllOnRings(home) && Counts(buf, locked, pins, changed)
    }

    ghost predicate Valid()
      reads this
    {
      Struct() && Synced(buf, changed, disk)
    }

    /** Every holder wrote its changes before it gave the buffer back. */
    ghost predicate Written()
      reads this
    {
      |changed| == |locked| && forall b {:trigger changed[b]} :: 0 <= b < |changed| && changed[b] ==> locked[b]
    }

    /** Nothing that concerns another buffer than `b` differs, except for reference bits. */
    twostate predicate Others(b: nat)
      reads this
    {
      && |buf| == |old(buf)| && disk == old(disk)
      && |pins| == |old(pins)| == |changed| == |old(changed)| == |locked| == |old(locked)| == |buf|
      && (forall c {:trigger buf[c]} ::
          0 <= c < |buf| && c != b ==> buf[c].(referenced := old(buf)[c].referenced) == old(buf)[c])
      && (forall c {:trigger pins[c]} :: 0 <= c < |buf| && c != b ==> pins[c] == old(pins)[c])
      && (forall c {:trigger changed[c]} :: 0 <= c < |buf| && c != b ==> changed[c] == old(changed)[c])
      && (forall c {:trigger locked[c]} :: 0 <= c < |buf| && c != b ==> locked[c] == old(locked)[c])
    }

    /** One more reference to buffer `b`, which was found for block `x`. */
    twostate predicate Referenced(b: nat, x: nat)
      reads this
    {
      && Others(b) && b < |buf| && old(buf)[b].blockno == x && changed == old(changed)
      && buf[b] == old(buf)[b].(refcnt := old(buf)[b].refcnt + 1, referenced := true)
    }

    /** Buffer `b`, which nobody referenced, was taken for block `x` and has yet to be read. */
    twostate predicate Recycled(b: nat, x: nat)
      reads this
    {
      && Others(b) && b < |buf| && old(buf)[b].refcnt == 0 && pins == old(pins) && !changed[b]
      && buf[b].blockno == x && !buf[b].valid && buf[b].refcnt == 1
    }

    /** `binit`: buffers are spread over the buckets in turn, each at the front of its ring. */
    constructor (buffers: nat, buckets: nat, blocks: seq<Data>)
      requires buckets > 0 && |blocks| > 0
      ensures Valid() && nbuf == buffers && nbucket == buckets && disk == blocks
      ensures forall b :: 0 <= b < nbuf ==> !locked[b] && pins[b] == 0
      ensures InTurn(home, nbucket) && hand == seq(nbucket, _ => nbuf)
    {
      nbuf, nbucket, disk := buffers, buckets, blocks;
      buf := seq(buffers, _ => Buf(false, 0, 0, false, []));
      locked, pins, changed := seq(buffers, _ => false), seq(buffers, _ => 0), seq(buffers, _ => false);
      var r, h := Spread(buffers, buckets);
      ring := r;
      hand := seq(buckets, _ => buffers);
      home := h;
      new;
      hide Find;
      assert forall b {:trigger Live(buf[b])} :: 0 <= b < nbuf ==> !Live(buf[b]);
      assert forall k {:trigger ring[k]} :: 0 <= k < |ring| ==> RingOk(buf, ring[k], hand[k]);
    }

    /** The hit loop of `bget`. */
    method Search(k: nat, x: nat) returns (r: Option<nat>)
      requires Struct() && k < nbucket
      ensures r == Find(ring[k], buf, x)
    {
      hide Placed;
      var i := 0;
      assert RingOk(buf, ring[k], hand[k]);
      assert ring[k][0..] == ring[k];
      while i < |ring[k]|
        invariant i <= |ring[k]| && Find(ring[k], buf, x) == Find(ring[k][i..], buf, x)
      {
        assert ring[k][i..][1..] == ring[k][i + 1..];
        if buf[ring[k][i]].blockno == x {
          return Some(ring[k][i]);
        }
        i := i + 1;
      }
      r := None;
    }

    /** One bucket of the loop of `bget`: run the clock and take a victim off the ring. */
    method TryBucket(k: nat) returns (v: Option<nat>)
      requires Struct() && k < nbucket
      modifies this`buf, this`hand, this`ring, this`home
      ensures BitsOnly(old(buf), buf) && RingsInv(buf, ring, hand, home) && |ring| == nbucket
      ensures v.None? ==>
        ring == old(ring) && home == old(home) && forall b :: b in ring[k] && 0 <= b < nbuf ==> buf[b].refcnt > 0
      ensures v.Some? ==> v.value < nbuf && buf[v.value].refcnt == 0 && home == old(home)[v.value := Private(0)]
      ensures k < |hand| && hand == old(hand)[k := hand[k]]
      ensures SecondChance(old(ring)[k], old(buf), FromHand(old(ring)[k], old(hand)[k]), v, buf, hand[k])
    {
      hide Placed, Find, NoDup, SecondChance, FromHand;
      assert RingOk(buf, ring[k], hand[k]);
      var h;
      v, buf, h := ClockVictim(ring[k], buf, hand[k]);
      SweepInv(old(buf), buf, ring, hand, home, k, h);
      hand := hand[k := h];
      if v.Some? {
        ring, home := ring[k := Without(ring[k], v.value)], home[v.value := Private(0)];
        UnlinkInv(buf, old(ring), hand, old(home), ring, home, k, v.value, 0);
      }
    }

    /** The loop of `bget` over the buckets: the first victim found is taken off its ring. */
    method TakeVictim(bid: nat) returns (r: Option<nat>)
      requires Valid() && bid < nbucket
      modifies this`buf, this`hand, this`ring, this`home
      ensures BitsOnly(old(buf), buf)
      ensures r.None? ==> Valid() && forall b :: 0 <= b < nbuf ==> buf[b].refcnt > 0
      ensures r.Some? ==> r.value < nbuf && buf[r.value].refcnt == 0 && home == old(home)[r.value := Private(0)]
      ensures RingsInv(buf, ring, hand, home) && |ring| == nbucket
      ensures r.Some? ==> Hunted(old(buf), old(ring), old(hand), bid, r.value)
    {
      hide RingsInv, Counts, Synced, AllOnRings, SecondChance, FromHand, Hunted;
      assert |hand| == nbucket by { HandsCount(buf, ring, hand, home); }
      var i := 0;
      while i < nbucket
        invariant i <= nbucket && Struct() && ring == old(ring) && home == old(home) && BitsOnly(old(buf), buf)
        invariant buf == old(buf) && |hand| == |old(hand)| == nbucket
        invariant forall j {:trigger Bucket(bid, j, nbucket)} ::
          i <= j < nbucket ==> hand[Bucket(bid, j, nbucket)] == old(hand)[Bucket(bid, j, nbucket)]
        invariant forall j, b :: 0 <= j < i && 0 <= b < nbuf && b in ring[Bucket(bid, j, nbucket)] ==> buf[b].refcnt > 0
      {
        ghost var buf1 := buf;
        r := TryBucket(Bucket(bid, i, nbucket));
        BitsTrans(old(buf), buf1, buf);
        CountsBits(old(buf), buf, locked, pins, changed);
        if r.Some? {
          HuntedAt(old(buf), old(ring), old(hand), bid, i, r.value, buf, hand[Bucket(bid, i, nbucket)]);
          return;
        }
        Unchanged(old(ring)[Bucket(bid, i, nbucket)], buf1, old(hand)[Bucket(bid, i, nbucket)], buf,
                  hand[Bucket(bid, i, nbucket)]);
        forall j | i < j < nbucket
          ensures Bucket(bid, j, nbucket) != Bucket(bid, i, nbucket)
        {
          if Bucket(bid, j, nbucket) == Bucket(bid, i, nbucket) {
            BucketInjective(bid, i, j, nbucket);
          }
        }
        i := i + 1;
      }
      forall b | 0 <= b < nbuf
        ensures buf[b].refcnt > 0
      {
        HomeRing(buf, ring, hand, home, b);
        assert b in ring[home[b].bucket];
        AllBuckets(bid, home[b].bucket, nbucket);
      }
      SyncedBits(old(buf), buf, changed, disk);
      r := None;
    }

    /**
     `bget`: a buffer tagged with block `x`, locked for the caller, or the one for which the caller has to sleep
     because another holds it; a recycled buffer is not valid yet.  It fails, which stops the kernel, only when
     every buffer is referenced and none is tagged with `x`.
     */
    method BGet(x: nat) returns (r: Got)
      requires Valid() && x < |disk|
      modifies this`buf, this`hand, this`ring, this`home, this`locked, this`pins, this`changed
      ensures Valid() && (old(Written()) ==> Written())
      ensures r.NoBuffers? ==> (forall b :: 0 <= b < nbuf ==> buf[b].refcnt > 0 && buf[b].blockno != x) && Others(nbuf)
      ensures !r.NoBuffers? ==> r.b < nbuf && locked[r.b] && buf[r.b].blockno == x
      ensures r.Buffer? ==> !old(locked)[r.b] && pins == old(pins) && (Referenced(r.b, x) || Recycled(r.b, x))
      ensures r.Buffer? && !Referenced(r.b, x) ==> Hunted(old(buf), old(ring), old(hand), x % nbucket, r.b)
      ensures r.Asleep? ==> old(locked)[r.b] && Referenced(r.b, x) && pins[r.b] == old(pins)[r.b] + 1
    {
      hide Hunted;
      hide Find, Placed, RingsInv, Counts, Synced;
      var bid := x % nbucket;
      var hit := Search(bid, x);
      if hit.Some? {
        Ids(buf, ring, hand, home);
        r := if locked[hit.value] then Asleep(hit.value) else Buffer(hit.value);
        SameUpdate(pins, hit.value);
        TakeHit(x, hit.value);
        return;
      }
      var v := TakeVictim(bid);
      if v.Some? {
        FindNothing(old(buf), old(ring), buf, ring, old(hand), hand, old(home), home, bid);
        CountsBits(old(buf), buf, locked, pins, changed);
        SyncedBits(old(buf), buf, changed, disk);
        At(buf, locked, pins, changed, disk, v.value);
        Recycle(x, v.value);
        r := Buffer(v.value);
      } else {
        forall b | 0 <= b < nbuf
          ensures buf[b].blockno != x
        {
          assert buf[b].(referenced := old(buf)[b].referenced) == old(buf)[b];
          NotTagged(old(buf), old(ring), old(hand), old(home), x, b);
        }
        r := NoBuffers;
      }
    }

    /** The hit branch of `bget`: one more reference, and the lock if nobody has it. */
    method TakeHit(x: nat, b: nat)
      requires Valid() && x < |disk| && b < nbuf
      requires (forall k, i :: 0 <= k < |ring| && 0 <= i < |ring[k]| ==> ring[k][i] < |buf|)
      requires Find(ring[x % nbucket], buf, x) == Some(b)
      modifies this`buf, this`locked, this`pins
      ensures Valid() && Referenced(b, x) && locked == old(locked)[b := true]
      ensures pins == old(pins)[b := old(pins)[b] + Bit(old(locked)[b])]
    {
      hide Find, Placed, RingsInv, Counts, Synced, AllOnRings;
      At(buf, locked, pins, changed, disk, b);
      var e := buf[b].(refcnt := buf[b].refcnt + 1, referenced := true);
      ghost var p := pins[b] + Bit(locked[b]);
      HitInv(buf, ring, hand, home, x, b, e);
      CountsSet(buf, locked, pins, changed, b, e, true, p, changed[b]);
      SyncedSet(buf, changed, disk, b, e, changed[b]);
      SameUpdate(changed, b);
      buf := buf[b := e];
      locked, pins := locked[b := true], pins[b := p];
    }

    /** `acquiresleep` at the end of `bget`, when the holder before has given the buffer back. */
    method Wake(b: nat)
      requires Valid() && b < nbuf && pins[b] > 0 && !locked[b]
      modifies this`locked, this`pins
      ensures Valid() && (old(Written()) ==> Written())
      ensures locked == old(locked)[b := true] && pins == old(pins)[b := old(pins)[b] - 1]
    {
      hide Find, Placed, RingsInv, Counts, Synced, AllOnRings;
      At(buf, locked, pins, changed, disk, b);
      Update(b, buf[b], true, pins[b] - 1, changed[b]);
      SameUpdate(buf, b);
      locked, pins := locked[b := true], pins[b := pins[b] - 1];
    }

    /** The end of `bget`: the buffer goes to the front of its new ring, tagged with the block. */
    method Recycle(x: nat, b: nat)
      requires RingsInv(buf, ring, hand, home) && |ring| == nbucket > 0
        && |home| == |buf| == |locked| == |pins| == |changed| == nbuf && b < nbuf && home[b].Private?
      requires (forall c {:trigger home[c]} :: 0 <= c < |home| && c != b ==> home[c].OnRing?)
      requires Counts(buf, locked, pins, changed) && Synced(buf, changed, disk) && buf[b].refcnt == 0 && x < |disk|
      requires Find(ring[x % nbucket], buf, x) == None
      modifies this`buf, this`ring, this`home, this`locked, this`changed
      ensures Valid() && locked == old(locked)[b := true] && changed == old(changed)[b := false]
      ensures buf == old(buf)[b := buf[b]] && buf[b].blockno == x && !buf[b].valid && buf[b].refcnt == 1
    {
      hide Find, Placed, RingsInv, Counts, Synced;
      At(buf, locked, pins, changed, disk, b);
      var bid := x % nbucket;
      var e := buf[b].(blockno := x, valid := false, refcnt := 1, referenced := true);
      LinkInv(buf, ring, hand, home, x, b, e);
      CountsSet(buf, locked, pins, changed, b, e, true, 0, false);
      SyncedSet(buf, changed, disk, b, e, false);
      SameUpdate(pins, b);
      ring := ring[bid := [b] + ring[bid]];
      buf := buf[b := e];
      home := home[b := OnRing(bid)];
      locked, changed := locked[b := true], changed[b := false];
    }

    /** Changing one live buffer in step with its lock, pins and state keeps everything. */
    lemma Update(b: nat, e: Buf, l: bool, p: nat, c: bool)
      requires Valid() && b < nbuf && Live(buf[b]) && e.blockno == buf[b].blockno && e.refcnt == Bit(l) + p
        && Sync(e, c, disk)
      ensures RingsInv(buf[b := e], ring, hand, home)
      ensures Counts(buf[b := e], locked[b := l], pins[b := p], changed[b := c])
      ensures Synced(buf[b := e], changed[b := c], disk)
      ensures locked[b := locked[b]] == locked && pins[b := pins[b]] == pins && changed[b := changed[b]] == changed
    {
      hide Find, Placed, RingsInv, Counts, Synced, AllOnRings;
      At(buf, locked, pins, changed, disk, b);
      SameTagsInv(buf, buf[b := e], ring, hand, home);
      CountsSet(buf, locked, pins, changed, b, e, l, p, c);
      SyncedSet(buf, changed, disk, b, e, c);
      SameUpdate(locked, b);
      SameUpdate(pins, b);
      SameUpdate(changed, b);
    }

    /**
     `bread`: the buffer holds the current contents of the block, unless a holder gave it back without writing
     what it had changed.
     */
    method BRead(x: nat) returns (r: Got)
      requires Valid() && x < |disk|
      modifies this`buf, this`hand, this`ring, this`home, this`locked, this`pins, this`changed
      ensures Valid() && (old(Written()) ==> Written())
      ensures r.NoBuffers? ==> (forall b :: 0 <= b < nbuf ==> buf[b].refcnt > 0 && buf[b].blockno != x) && Others(nbuf)
      ensures !r.NoBuffers? ==> r.b < nbuf && locked[r.b] && buf[r.b].blockno == x && Others(r.b)
      ensures r.Buffer? ==>
        !old(locked)[r.b] && pins == old(pins) && buf[r.b].valid && (!changed[r.b] ==> buf[r.b].data == disk[x])
      ensures r.Buffer? && old(Written()) ==> !changed[r.b]
      ensures r.Asleep? ==> old(locked)[r.b] && Referenced(r.b, x) && pins[r.b] == old(pins)[r.b] + 1
    {
      hide Find, Placed, RingsInv, Counts, Synced, AllOnRings;
      r := BGet(x);
      if r.Buffer? {
        Load(r.b);
      }
    }

    /** The second half of `bread`: a buffer that is not valid is read from the disk. */
    method Load(b: nat)
      requires Valid() && b < nbuf && locked[b]
      modifies this`buf, this`changed
      ensures Valid() && (old(Written()) ==> Written()) && buf[b].valid && buf[b].blockno < |disk|
      ensures !changed[b] ==> buf[b].data == disk[buf[b].blockno]
      ensures buf == old(buf)[b := old(buf)[b].(valid := true, data := buf[b].data)]
      ensures changed == old(changed)[b := changed[b]] && (changed[b] ==> old(changed)[b])
    {
      hide Find, Placed, RingsInv, Counts, Synced, AllOnRings;
      At(buf, locked, pins, changed, disk, b);
      SameUpdate(changed, b);
      SameUpdate(buf, b);
      if !buf[b].valid {
        var e := buf[b].(data := disk[buf[b].blockno], valid := true);
        Update(b, e, locked[b], pins[b], false);
        buf := buf[b := e];
        changed := changed[b := false];
      }
    }

    /** The holder changes the contents of a locked buffer. */
    method SetData(b: nat, d: Data)
      requires Valid() && b < nbuf && locked[b]
      modifies this`buf, this`changed
      ensures old(Written()) ==> Written()
      ensures Valid() && buf == old(buf)[b := old(buf)[b].(data := d)] && changed == old(changed)[b := true]
    {
      hide Find, Placed, RingsInv, Counts, Synced, AllOnRings;
      At(buf, locked, pins, changed, disk, b);
      var e := buf[b].(data := d);
      Update(b, e, locked[b], pins[b], true);
      buf := buf[b := e];
      changed := changed[b := true];
    }

    /** `bwrite`: the disk block becomes the contents of the buffer. */
    method BWrite(b: nat)
      requires Valid() && b < nbuf && locked[b]
      modifies this`disk, this`changed
      ensures old(Written()) ==> Written()
      ensures Valid() && buf[b].blockno < |old(disk)|
      ensures disk == old(disk)[buf[b].blockno := buf[b].data] && changed == old(changed)[b := false]
    {
      hide Find;
      assert Sync(buf[b], changed[b], disk);
      forall c | 0 <= c < nbuf && c != b && buf[c].valid
        ensures buf[c].blockno != buf[b].blockno
      {
        if buf[c].blockno == buf[b].blockno {
          LiveUnique(buf, ring, hand, home, b, c);
        }
      }
      disk := disk[buf[b].blockno := buf[b].data];
      changed := changed[b := false];
      forall c | 0 <= c < nbuf
        ensures Sync(buf[c], changed[c], disk)
      {
        assert Sync(buf[c], old(changed)[c], old(disk));
      }
    }

    /** `brelse`: a holder that wrote its changes before leaves the cache in step with the disk. */
    method BRelse(b: nat)
      requires Valid() && b < nbuf && locked[b]
      modifies this`buf, this`locked
      ensures Valid() && locked == old(locked)[b := false] && (old(Written()) && !changed[b] ==> Written())
      ensures buf == old(buf)[b := old(buf)[b].(refcnt := old(buf)[b].refcnt - 1, referenced := true)]
    {
      hide Find, Placed, RingsInv, Counts, Synced, AllOnRings;
      At(buf, locked, pins, changed, disk, b);
      var e := buf[b].(refcnt := buf[b].refcnt - 1, referenced := true);
      Update(b, e, false, pins[b], changed[b]);
      locked := locked[b := false];
      buf := buf[b := e];
    }

    /** `bpin`, called by a holder. */
    method BPin(b: nat)
      requires Valid() && b < nbuf && buf[b].refcnt > 0
      modifies this`buf, this`pins
      ensures old(Written()) ==> Written()
      ensures Valid() && buf == old(buf)[b := old(buf)[b].(refcnt := old(buf)[b].refcnt + 1)]
        && pins == old(pins)[b := old(pins)[b] + 1]
    {
      hide Find, Placed, RingsInv, Counts, Synced, AllOnRings;
      At(buf, locked, pins, changed, disk, b);
      var e := buf[b].(refcnt := buf[b].refcnt + 1);
      Update(b, e, locked[b], pins[b] + 1, changed[b]);
      buf := buf[b := e];
      pins := pins[b := pins[b] + 1];
    }

    /** `bunpin` of a buffer that was pinned. */
    method BUnpin(b: nat)
      requires Valid() && b < nbuf && pins[b] > 0
      modifies this`buf, this`pins
      ensures old(Written()) ==> Written()
      ensures Valid() && buf == old(buf)[b := old(buf)[b].(refcnt := old(buf)[b].refcnt - 1)]
        && pins == old(pins)[b := old(pins)[b] - 1]
    {
      hide Find, Placed, RingsInv, Counts, Synced, AllOnRings;
      At(buf, locked, pins, changed, disk, b);
      var e := buf[b].(refcnt := buf[b].refcnt - 1);
      Update(b, e, locked[b], pins[b] - 1, changed[b]);
      buf := buf[b := e];
      pins := pins[b := pins[b] - 1];
    }

    /**
     `binvalidate`: after the disk was written behind the cache's back the buffers that nobody
     references may hold anything; afterwards the cache agrees with the disk again.
     */
    method BInvalidate()
      requires Struct()
      requires forall b {:trigger Sync(buf[b], changed[b], disk)} ::
        0 <= b < nbuf && buf[b].refcnt > 0 ==> Sync(buf[b], changed[b], disk)
      modifies this`buf
      ensures Valid() && |buf| == |old(buf)|
      ensures forall b {:trigger buf[b]} :: 0 <= b < nbuf ==>
        buf[b] == if old(buf)[b].refcnt == 0 then old(buf)[b].(valid := false) else old(buf)[b]
    {
      hide Find, Placed;
      var i := 0;
      while i < nbucket
        invariant i <= nbucket && |buf| == nbuf
        invariant forall b {:trigger buf[b]} :: 0 <= b < nbuf ==>
          buf[b] == if old(buf)[b].refcnt == 0 && home[b].bucket < i then old(buf)[b].(valid := false) else old(buf)[b]
      {
        InvalidateRing(i);
        i := i + 1;
      }
      SameTagsInv(old(buf), buf, ring, hand, home);
      forall b | 0 <= b < nbuf
        ensures Sync(buf[b], changed[b], disk)
      {
        assert old(buf)[b].refcnt > 0 ==> Sync(old(buf)[b], changed[b], disk);
      }
    }

    method InvalidateRing(k: nat)
      requires Rings(buf, ring, hand, home) && k < |ring| && |buf| == nbuf
      modifies this`buf
      ensures |buf| == |old(buf)|
      ensures forall b {:trigger buf[b]} :: 0 <= b < nbuf ==>
        buf[b] == if old(buf)[b].refcnt == 0 && home[b] == OnRing(k) then old(buf)[b].(valid := false) else old(buf)[b]
    {
      assert RingOk(buf, ring[k], hand[k]);
      assert forall b :: 0 <= b < nbuf ==> (b in ring[k] <==> home[b] == OnRing(k));
      var j := 0;
      while j < |ring[k]|
        invariant j <= |ring[k]| && |buf| == nbuf
        invariant forall b {:trigger buf[b]} :: 0 <= b < nbuf ==>
          buf[b] == if old(buf)[b].refcnt == 0 && b in ring[k][..j] then old(buf)[b].(valid := false) else old(buf)[b]
      {
        var b := ring[k][j];
        if buf[b].refcnt == 0 {
          buf := buf[b := buf[b].(valid := false)];
        }
        assert ring[k][..j + 1] == ring[k][..j] + [b];
        j := j + 1;
      }
      assert ring[k][..j] == ring[k];
    }
  }

  lemma BitsTrans(a: seq<Buf>, b: seq<Buf>, c: seq<Buf>)
    requires BitsOnly(a, b) && BitsOnly(b, c)
    ensures BitsOnly(a, c)
  {
    forall i | 0 <= i < |a|
      ensures c[i].(referenced := a[i].referenced) == a[i]
    {
      assert b[i].(referenced := a[i].referenced) == a[i];
    }
  }

  lemma HomeRing(buf: seq<Buf>, ring: seq<seq<nat>>, hand: seq<nat>, home: seq<Home>, b: nat)
    requires RingsInv(buf, ring, hand, home) && b < |buf| == |home| && AllOnRings(home)
    ensures home[b].OnRing? && home[b].bucket < |ring| && b in ring[home[b].bucket]
  {
    assert home[b].bucket < |ring|;
  }

  /** A live buffer is not tagged with a block that the hit loop did not find. */
  lemma NotTagged(buf: seq<Buf>, ring: seq<seq<nat>>, hand: seq<nat>, home: seq<Home>, x: nat, b: nat)
    requires RingsInv(buf, ring, hand, home) && Find(ring[x % |ring|], buf, x) == None && b < |buf|
      && home[b].OnRing? && Live(buf[b])
    ensures buf[b].blockno != x
  {
    hide Find;
    assert Find(ring[buf[b].blockno % |ring|], buf, buf[b].blockno) == Some(b);
  }

  lemma Ids(buf: seq<Buf>, ring: seq<seq<nat>>, hand: seq<nat>, home: seq<Home>)
    requires RingsInv(buf, ring, hand, home)
    ensures forall k, i :: 0 <= k < |ring| && 0 <= i < |ring[k]| ==> ring[k][i] < |buf|
  {
  }

  lemma SameUpdate<T>(s: seq<T>, i: nat)
    requires i < |s|
    ensures s[i := s[i]] == s
  {
  }

  /** A sweep of the clock keeps the rings. */
  lemma SweepInv(buf: seq<Buf>, buf': seq<Buf>, ring: seq<seq<nat>>, hand: seq<nat>, home: seq<Home>, k: nat, h: nat)
    requires RingsInv(buf, ring, hand, home) && BitsOnly(buf, buf') && k < |ring| && RingOk(buf', ring[k], h)
    ensures RingsInv(buf', ring, hand[k := h], home)
  {
    hide Find, Placed;
    SameTagsInv(buf, buf', ring, hand, home);
    HandInv(buf', ring, hand, home, k, h);
  }

  /** Taking a buffer away brings no block onto a ring. */
  lemma FindNothing(buf: seq<Buf>, ring: seq<seq<nat>>, buf': seq<Buf>, ring': seq<seq<nat>>, hand: seq<nat>,
                    hand': seq<nat>,
                    home: seq<Home>, home': seq<Home>, k: nat)
    requires RingsInv(buf, ring, hand, home) && RingsInv(buf', ring', hand', home') && BitsOnly(buf, buf')
      && k < |ring| == |ring'|
    requires |home'| == |home| && forall b :: 0 <= b < |home| && home'[b] == OnRing(k) ==> home[b] == OnRing(k)
    ensures forall x :: Find(ring[k], buf, x) == None ==> Find(ring'[k], buf', x) == None
  {
    hide Placed;
    forall b | b in ring'[k]
      ensures b < |buf| && b in ring[k] && buf'[b].blockno == buf[b].blockno
    {
      assert RingOk(buf', ring'[k], hand'[k]);
      assert home'[b] == OnRing(k);
    }
  }

  /** Starting anywhere, all buckets are visited. */
  lemma AllBuckets(bid: nat, k: nat, n: nat)
    requires bid < n && k < n
    ensures exists j :: 0 <= j < n && Bucket(bid, j, n) == k
  {
    var j := if k >= bid then k - bid else k - bid + n;
    assert Bucket(bid, j, n) == k;
  }

  function NextBucket(k: nat, n: nat): nat { if k + 1 < n then k + 1 else 0 }

  lemma NextIsMod(k: nat, n: nat)
    requires k < n
    ensures (k + 1) % n == NextBucket(k, n)
  {
  }

  /** The first buffer is in bucket 0, and each further one in the bucket behind that of the one before. */
  ghost predicate InTurn(home: seq<Home>, n: nat) {
    && (home != [] ==> home[0] == OnRing(0))
    && forall b {:trigger Follows(home, b, n)} :: 0 < b < |home| ==> Follows(home, b, n)
  }

  ghost predicate Follows(home: seq<Home>, b: nat, n: nat)
    requires 0 < b < |home|
  {
    home[b - 1].OnRing? && home[b] == OnRing(NextBucket(home[b - 1].bucket, n))
  }

  ghost function NextOfHome(h: Home, n: nat): int { if h.OnRing? then NextBucket(h.bucket, n) else -1 }

  /** The bucket for the next buffer. */
  ghost function Following(home: seq<Home>, n: nat): int { if home == [] then 0 else NextOfHome(home[|home| - 1], n) }

  lemma TurnOn(home: seq<Home>, bid: nat, n: nat)
    requires InTurn(home, n) && bid == Following(home, n) && (home != [] ==> home[|home| - 1].OnRing?)
    ensures InTurn(home + [OnRing(bid)], n) && Following(home + [OnRing(bid)], n) == NextBucket(bid, n)
  {
    var h := home + [OnRing(bid)];
    forall b | 0 < b < |h|
      ensures Follows(h, b, n)
    {
      assert b < |home| ==> Follows(home, b, n);
    }
  }

  method Spread(buffers: nat, buckets: nat) returns (ring: seq<seq<nat>>, ghost home: seq<Home>)
    requires buckets > 0
    ensures |ring| == buckets && |home| == buffers
    ensures forall k {:trigger ring[k]} :: 0 <= k < buckets ==> NoDup(ring[k]) && forall i ::
      0 <= i < |ring[k]| ==> ring[k][i] < buffers
    ensures forall k, b {:trigger b in ring[k]} ::
      0 <= k < buckets && 0 <= b < buffers ==> (b in ring[k] <==> home[b] == OnRing(k))
    ensures forall b {:trigger home[b]} :: 0 <= b < buffers ==> home[b].OnRing? && home[b].bucket < buckets
    ensures InTurn(home, buckets)
  {
    assert InTurn([], buckets);
    hide InTurn;
    ring, home := seq(buckets, _ => []), [];
    var b, bid := 0, 0;
    while b < buffers
      invariant b <= buffers && |ring| == buckets && |home| == b && 0 <= bid < buckets
      invariant forall k {:trigger ring[k]} :: 0 <= k < buckets ==> NoDup(ring[k]) && forall i ::
        0 <= i < |ring[k]| ==> ring[k][i] < b
      invariant forall k, c {:trigger c in ring[k]} ::
        0 <= k < buckets && 0 <= c < b ==> (c in ring[k] <==> home[c] == OnRing(k))
      invariant forall c {:trigger home[c]} :: 0 <= c < b ==> home[c].OnRing? && home[c].bucket < buckets
      invariant InTurn(home, buckets) && bid == Following(home, buckets)
    {
      NextIsMod(bid, buckets);
      TurnOn(home, bid, buckets);
      NoDupPush(b, ring[bid]);
      ring := ring[bid := [b] + ring[bid]];
      home := home + [OnRing(bid)];
      bid := (bid + 1) % buckets;
      b := b + 1;
    }
  }
}
