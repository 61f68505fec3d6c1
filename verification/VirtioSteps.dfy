/**
 The protocol between the requesters of virtio disk transfers, the device and the interrupt handler
 (kernel/driver/virtio_disk.c:198-311), after sections 2.6 and 5.2 of virtio v1.1.  What runs under
 the driver's lock is one step; the device takes its own steps at any time and in any order, and
 reports success.  A requester is known by the buffer it transfers.
 */
module VirtioSteps {
  import opened Bytes
  import opened DivMod
  import opened Lists
  import opened VirtioDesc

  const WRAP := 65536

  /** How far the transfer of a buffer has come. */
  datatype Stage = Off | Queued(k: nat) | InDevice | Completed(k: nat) | Handled

  /**
   `req[b]` are the descriptors of the transfer of buffer `b` and `disk[b]` its flag; `lastAvail` and
   `dev` are the device's own.  The last six components are not in memory: the owner of each descriptor,
   stages, and all transfers ever submitted, consumed by the device, completed by it and handled.
   */
  datatype V = V(
    desc: seq<Desc>, free: seq<bool>, info: seq<Option<nat>>, status: seq<nat>,
    avail: seq<nat>, availIdx: nat, used: seq<nat>, usedDev: nat, usedIdx: nat,
    req: seq<Option<seq<nat>>>, disk: seq<bool>, lastAvail: nat, dev: set<nat>,
    owner: seq<Option<nat>>, stage: seq<Stage>, sub: seq<nat>, taken: nat, fin: seq<nat>, done: nat)

  // ---------- Indices that wrap ----------

  lemma {:induction false} RemAdd(a: nat, q: nat, b: nat)
    requires b > 0
    ensures Rem(a + Cap(q, b), b) == Rem(a, b)
  {
    if q > 0 {
      RemAdd(a, q - 1, b);
    }
  }

  lemma {:induction false} RemWrap(r: nat, q: nat, m: nat, n: nat)
    requires n > 0 && WRAP == Cap(m, n)
    ensures Rem(r + q * WRAP, n) == Rem(r, n)
    decreases q
  {
    if q > 0 {
      RemWrap(r, q - 1, m, n);
      RemAdd(r + (q - 1) * WRAP, m, n);
    }
  }

  /** A 16-bit index selects the same slot as the number it was counted from. */
  lemma SlotOf(k: nat, n: nat)
    requires n > 0 && WRAP % n == 0
    ensures (k % WRAP) % n == k % n
  {
    hide Rem, Cap, Quo;
    AreDivModMul(k, n);
    AreDivModMul(k % WRAP, n);
    AreDivModMul(WRAP, n);
    QuoRem(WRAP, n);
    RemWrap(k % WRAP, k / WRAP, Quo(WRAP, n), n);
  }

  /** Numbers less than `n` apart use different slots. */
  lemma SlotsApart(k: nat, k': nat, n: nat)
    requires k < k' < k + n
    ensures k % n != k' % n
  {
    var q, q' := k / n, k' / n;
    assert k == q * n + k % n && k' == q' * n + k' % n;
    if k % n == k' % n {
      assert k' - k == (q' - q) * n by { MulSub(q', q, n); }
      Multiple(q' - q, n, k' - k);
    }
  }

  lemma MulSub(a: int, b: int, c: int)
    ensures (a - b) * c == a * c - b * c
  {
  }

  lemma Multiple(m: int, n: nat, d: int)
    requires d == m * n && 0 < d
    ensures d >= n
  {
    assert m <= 0 ==> m * n <= 0;
    assert m >= 1 ==> m * n >= 1 * n;
  }

  /** Counters less than a wrap apart are equal exactly when their 16-bit images are. */
  lemma WrapEq(a: nat, b: nat)
    requires a <= b < a + WRAP
    ensures a % WRAP == b % WRAP <==> a == b
  {
  }

  lemma WrapNext(a: nat)
    ensures (a + 1) % WRAP == (a % WRAP + 1) % WRAP
  {
  }

  lemma RingSmall(n: nat)
    requires n > 0 && WRAP % n == 0
    ensures n <= WRAP
  {
  }

  // ---------- The invariant ----------

  ghost predicate Sized(s: V) {
    && |s.desc| >= 3 && WRAP % |s.desc| == 0
    && |s.free| == |s.info| == |s.status| == |s.avail| == |s.used| == |s.owner| == |s.desc|
    && |s.disk| == |s.stage| == |s.req|
    && s.taken <= |s.sub| && s.done <= |s.fin|
    && s.availIdx == |s.sub| % WRAP && s.lastAvail == s.taken % WRAP
    && s.usedDev == |s.fin| % WRAP && s.usedIdx == s.done % WRAP
  }

  ghost predicate Active(s: V, b: nat) {
    b < |s.req| && s.req[b].Some? && |s.req[b].value| == 3
  }

  ghost function Head(s: V, b: nat): nat
    requires Active(s, b)
  {
    s.req[b].value[0]
  }

  /** A descriptor is free, or in the chain of exactly its owner. */
  ghost predicate DescOk(s: V, d: nat) {
    && d < |s.free| && d < |s.owner|
    && (s.free[d] <==> s.owner[d].None?)
    && (s.owner[d].Some? ==> Active(s, s.owner[d].value) && d in s.req[s.owner[d].value].value)
  }

  /** A transfer under way has a chain of three descriptors of its own, and is what `info` names at its head. */
  ghost predicate ReqOk(s: V, b: nat) {
    b < |s.req| && s.req[b].Some? ==>
      && |s.req[b].value| == 3 && IsChain(s.desc, s.free, s.req[b].value)
      && (forall j {:trigger s.req[b].value[j]} ::
          0 <= j < 3 ==> s.req[b].value[j] < |s.owner| && s.owner[s.req[b].value[j]] == Some(b))
      && s.req[b].value[0] < |s.info| && s.info[s.req[b].value[0]] == Some(b)
  }

  ghost predicate StageOk(s: V, b: nat) {
    && b < |s.stage| && b < |s.disk| && b < |s.req|
    && (s.stage[b].Off? <==> s.req[b].None?)
    && (s.disk[b] <==> s.stage[b].Queued? || s.stage[b].InDevice? || s.stage[b].Completed?)
    && match s.stage[b]
       case Queued(k) => s.taken <= k < |s.sub| && s.sub[k] == b
       case InDevice => Active(s, b) && Head(s, b) in s.dev
       case Completed(k) => s.done <= k < |s.fin| && s.fin[k] == b
       case _ => true
  }

  /** An avail entry that the device has not consumed still holds the head of its transfer. */
  ghost predicate AvailOk(s: V, k: nat) {
    s.taken <= k < |s.sub| ==>
      && Active(s, s.sub[k]) && s.sub[k] < |s.stage| && s.stage[s.sub[k]] == Queued(k)
      && |s.desc| > 0 && |s.avail| == |s.desc| && s.avail[k % |s.desc|] == Head(s, s.sub[k])
  }

  ghost predicate DevOk(s: V, h: nat) {
    h in s.dev ==>
      h < |s.owner| && s.owner[h].Some? && s.owner[h].value < |s.stage| && s.stage[s.owner[h].value].InDevice?
                   && Active(s, s.owner[h].value) && Head(s, s.owner[h].value) == h
  }

  /** A used entry not yet handled holds the head of a transfer that completed with success. */
  ghost predicate UsedOk(s: V, k: nat) {
    s.done <= k < |s.fin| ==>
      && Active(s, s.fin[k]) && s.fin[k] < |s.stage| && s.stage[s.fin[k]] == Completed(k)
      && |s.desc| > 0 && |s.used| == |s.desc| && s.used[k % |s.desc|] == Head(s, s.fin[k])
      && Head(s, s.fin[k]) < |s.status| && s.status[Head(s, s.fin[k])] == 0
  }

  /** Every submission of `b` is matched by one handled completion, except the one under way. */
  ghost predicate CountOk(s: V, b: nat) {
    && b < |s.disk| && s.done <= |s.fin|
    && multiset(s.sub)[b] == multiset(s.fin[..s.done])[b] + if s.disk[b] then 1 else 0
  }

  ghost predicate Inv(s: V) {
    && Sized(s)
    && (forall d {:trigger DescOk(s, d)} :: 0 <= d < |s.desc| ==> DescOk(s, d))
    && (forall b {:trigger ReqOk(s, b)} :: 0 <= b < |s.req| ==> ReqOk(s, b))
    && (forall b {:trigger StageOk(s, b)} :: 0 <= b < |s.req| ==> StageOk(s, b))
    && (forall k {:trigger AvailOk(s, k)} :: 0 <= k < |s.sub| ==> AvailOk(s, k))
    && (forall h {:trigger DevOk(s, h)} :: h in s.dev ==> DevOk(s, h))
    && (forall k {:trigger UsedOk(s, k)} :: 0 <= k < |s.fin| ==> UsedOk(s, k))
    && (forall b {:trigger CountOk(s, b)} :: 0 <= b < |s.req| ==> CountOk(s, b))
  }

  ghost predicate Init(s: V) {
    && Sized(s) && s.sub == [] && s.fin == [] && s.dev == {}
    && (forall d {:trigger s.free[d]} :: 0 <= d < |s.desc| ==> s.free[d] && s.owner[d] == None)
    && (forall b {:trigger s.req[b]} :: 0 <= b < |s.req| ==> s.req[b] == None && s.stage[b] == Off && !s.disk[b])
  }

  lemma InitInv(s: V)
    requires Init(s)
    ensures Inv(s)
  {
    forall d | 0 <= d < |s.desc|
      ensures DescOk(s, d)
    {
      assert s.free[d];
    }
    assert s.fin[..s.done] == [];
    forall b | 0 <= b < |s.req|
      ensures StageOk(s, b) && ReqOk(s, b) && CountOk(s, b)
    {
      assert s.req[b] == None;
    }
  }

  // ---------- Steps ----------

  /** `virtio_disk_rw` up to the notification: three free descriptors become the chain of the transfer of `b`. */
  ghost predicate Submit(s: V, t: V, b: nat, i: seq<nat>) {
    && Sized(s) && b < |s.req| && s.req[b].None? && |i| == 3 && NoDup(i)
    && (forall j :: 0 <= j < 3 ==> i[j] < |s.desc| && s.free[i[j]])
    && t == s.(
         free := s.free[i[0] := false][i[1] := false][i[2] := false],
         desc := s.desc[i[0] := Desc(true, i[1])][i[1] := Desc(true, i[2])][i[2] := Desc(false, 0)],
         status := s.status[i[0] := 0xff], disk := s.disk[b := true], info := s.info[i[0] := Some(b)],
         avail := s.avail[s.availIdx % |s.desc| := i[0]], availIdx := (s.availIdx + 1) % WRAP,
         req := s.req[b := Some(i)],
         owner := s.owner[i[0] := Some(b)][i[1] := Some(b)][i[2] := Some(b)],
         stage := s.stage[b := Queued(|s.sub|)], sub := s.sub + [b])
  }

  /** The device consumes the next avail entry. */
  ghost predicate DevTake(s: V, t: V) {
    && Sized(s) && s.lastAvail != s.availIdx && s.taken < |s.sub| && s.sub[s.taken] < |s.stage|
    && t == s.(lastAvail := (s.lastAvail + 1) % WRAP, dev := s.dev + {s.avail[s.lastAvail % |s.desc|]},
               stage := s.stage[s.sub[s.taken] := InDevice], taken := s.taken + 1)
  }

  /** The device finishes one of the transfers it works on and puts it on the used ring. */
  ghost predicate DevDone(s: V, t: V, h: nat) {
    && Sized(s) && h in s.dev && h < |s.desc| && s.owner[h].Some? && s.owner[h].value < |s.stage|
    && t == s.(status := s.status[h := 0], used := s.used[s.usedDev % |s.desc| := h],
               usedDev := (s.usedDev + 1) % WRAP, dev := s.dev - {h},
               stage := s.stage[s.owner[h].value := Completed(|s.fin|)], fin := s.fin + [s.owner[h].value])
  }

  /** One round of the loop of `virtio_disk_intr`. */
  ghost predicate Intr(s: V, t: V) {
    && Sized(s) && s.usedIdx != s.usedDev && s.done < |s.fin|
    && var id := s.used[s.usedIdx % |s.desc|];
       && id < |s.desc| && s.status[id] == 0 && s.info[id].Some? && s.info[id].value < |s.disk|
       && t == s.(disk := s.disk[s.info[id].value := false], usedIdx := (s.usedIdx + 1) % WRAP,
                  stage := s.stage[s.info[id].value := Handled], done := s.done + 1)
  }

  /** The requester of `b` sees its flag cleared and frees the chain. */
  ghost predicate Finish(s: V, t: V, b: nat, desc': seq<Desc>, free': seq<bool>) {
    && Sized(s) && Active(s, b) && b < |s.disk| && !s.disk[b]
    && (forall j :: 0 <= j < 3 ==> s.req[b].value[j] < |s.desc|)
    && Freed(s.desc, s.free, desc', free', s.req[b].value)
    && var i := s.req[b].value;
       t == s.(info := s.info[i[0] := None], desc := desc', free := free', req := s.req[b := None],
               owner := s.owner[i[0] := None][i[1] := None][i[2] := None], stage := s.stage[b := Off])
  }

  ghost predicate Step(s: V, t: V) {
    || (exists b, i :: Submit(s, t, b, i))
    || DevTake(s, t)
    || (exists h :: DevDone(s, t, h))
    || Intr(s, t)
    || (exists b, desc', free' :: Finish(s, t, b, desc', free'))
  }

  // ---------- Slots are never overwritten early ----------

  /** Different transfers have different heads. */
  lemma HeadsDiffer(s: V, b: nat, b': nat)
    requires Inv(s) && Active(s, b) && Active(s, b') && b != b'
    ensures Head(s, b) != Head(s, b') && Head(s, b) < |s.desc| && s.owner[Head(s, b)] == Some(b)
  {
    assert ReqOk(s, b) && ReqOk(s, b');
  }

  lemma HeadOk(s: V, b: nat)
    requires Inv(s) && Active(s, b)
    ensures Head(s, b) < |s.desc| && s.owner[Head(s, b)] == Some(b) && s.info[Head(s, b)] == Some(b)
      && !s.free[Head(s, b)]
  {
    assert ReqOk(s, b);
  }

  /** Different transfers under way, none with head `d`, are fewer than descriptors. */
  lemma ActiveBound(s: V, who: seq<nat>, d: nat)
    requires Inv(s) && NoDup(who) && d < |s.desc|
    requires forall j {:trigger who[j]} :: 0 <= j < |who| ==> Active(s, who[j]) && Head(s, who[j]) != d
    ensures |who| < |s.desc|
  {
    var heads: seq<nat> := seq(|who|, j requires 0 <= j < |who| && Active(s, who[j]) => Head(s, who[j]));
    forall i, j | 0 <= i < j < |heads|
      ensures heads[i] != heads[j]
    {
      HeadsDiffer(s, who[i], who[j]);
    }
    forall j | 0 <= j < |heads|
      ensures heads[j] < |s.desc| && heads[j] != d
    {
      HeadOk(s, who[j]);
    }
    hide Inv;
    NoDupEnd(heads, d);
    DistinctBound(heads + [d], |s.desc|);
  }

  /** While a descriptor is free, the avail ring has a slot that holds no entry the device still has to consume. */
  lemma AvailRoom(s: V, d: nat)
    requires Inv(s) && d < |s.desc| && s.free[d]
    ensures |s.sub| - s.taken < |s.desc|
  {
    var who := s.sub[s.taken..];
    forall j | 0 <= j < |who|
      ensures Active(s, who[j]) && Head(s, who[j]) != d && s.stage[who[j]] == Queued(s.taken + j)
    {
      assert who[j] == s.sub[s.taken + j] && AvailOk(s, s.taken + j);
      HeadOk(s, who[j]);
    }
    ActiveBound(s, who, d);
  }

  /** While the device works on a transfer, the used ring has a slot that holds no entry still to be handled. */
  lemma UsedRoom(s: V, h: nat)
    requires Inv(s) && h in s.dev
    ensures |s.fin| - s.done < |s.desc|
  {
    var who := s.fin[s.done..];
    assert DevOk(s, h);
    forall j | 0 <= j < |who|
      ensures Active(s, who[j]) && Head(s, who[j]) != h && s.stage[who[j]] == Completed(s.done + j)
    {
      assert who[j] == s.fin[s.done + j] && UsedOk(s, s.done + j);
      HeadsDiffer(s, who[j], s.owner[h].value);
    }
    ActiveBound(s, who, h);
  }

  /** The slot that a new avail entry is written to holds no entry the device still has to consume. */
  lemma AvailSlotFree(s: V, t: V, b: nat, i: seq<nat>, k: nat)
    requires Inv(s) && Submit(s, t, b, i) && s.taken <= k < |s.sub|
    ensures s.availIdx % |s.desc| == |s.sub| % |s.desc| && k % |s.desc| != s.availIdx % |s.desc|
  {
    AvailRoom(s, i[0]);
    SlotOf(|s.sub|, |s.desc|);
    SlotsApart(k, |s.sub|, |s.desc|);
  }

  /** The slot that the device writes to holds no entry the handler still has to see. */
  lemma UsedSlotFree(s: V, t: V, h: nat, k: nat)
    requires Inv(s) && DevDone(s, t, h) && s.done <= k < |s.fin|
    ensures s.usedDev % |s.desc| == |s.fin| % |s.desc| && k % |s.desc| != s.usedDev % |s.desc|
  {
    UsedRoom(s, h);
    SlotOf(|s.fin|, |s.desc|);
    SlotsApart(k, |s.fin|, |s.desc|);
  }

  /** The second descriptor of a chain is nobody's head. */
  lemma SecondIsNoHead(s: V, b: nat, c: nat)
    requires Inv(s) && Active(s, b) && Active(s, c)
    ensures s.req[b].value[1] < |s.desc| && Head(s, c) != s.req[b].value[1]
  {
    assert ReqOk(s, b) && ReqOk(s, c);
    HeadOk(s, c);
  }

  /** Equal indices mean that nothing is outstanding: a handler that stops has handled every completion. */
  lemma HandlerMissesNothing(s: V)
    requires Inv(s)
    ensures s.usedIdx == s.usedDev <==> s.done == |s.fin|
  {
    var who := s.fin[s.done..];
    if who != [] {
      forall j | 0 <= j < |who|
        ensures Active(s, who[j]) && s.stage[who[j]] == Completed(s.done + j)
      {
        assert who[j] == s.fin[s.done + j] && UsedOk(s, s.done + j);
      }
      forall j | 0 <= j < |who|
        ensures Head(s, who[j]) != s.req[who[0]].value[1]
      {
        SecondIsNoHead(s, who[0], who[j]);
      }
      SecondIsNoHead(s, who[0], who[0]);
      ActiveBound(s, who, s.req[who[0]].value[1]);
      RingSmall(|s.desc|);
      WrapEq(s.done, |s.fin|);
    }
  }

  /** Likewise the device finds every submitted transfer. */
  lemma DeviceMissesNothing(s: V)
    requires Inv(s)
    ensures s.lastAvail == s.availIdx <==> s.taken == |s.sub|
  {
    var who := s.sub[s.taken..];
    if who != [] {
      forall j | 0 <= j < |who|
        ensures Active(s, who[j]) && s.stage[who[j]] == Queued(s.taken + j)
      {
        assert who[j] == s.sub[s.taken + j] && AvailOk(s, s.taken + j);
      }
      forall j | 0 <= j < |who|
        ensures Head(s, who[j]) != s.req[who[0]].value[1]
      {
        SecondIsNoHead(s, who[0], who[j]);
      }
      SecondIsNoHead(s, who[0], who[0]);
      ActiveBound(s, who, s.req[who[0]].value[1]);
      RingSmall(|s.desc|);
      WrapEq(s.taken, |s.sub|);
    }
  }

  // ---------- Every step keeps the invariant ----------

  lemma SubmitDesc(s: V, t: V, b: nat, i: seq<nat>, d: nat)
    requires Inv(s) && Submit(s, t, b, i) && d < |s.desc|
    ensures DescOk(t, d)
  {
    assert DescOk(s, d);
    assert i[0] in i && i[1] in i && i[2] in i;
  }

  lemma SubmitReq(s: V, t: V, b: nat, i: seq<nat>, c: nat)
    requires Inv(s) && Submit(s, t, b, i) && c < |s.req|
    ensures ReqOk(t, c)
  {
    assert ReqOk(s, c);
    if c != b && s.req[c].Some? {
      var ids := s.req[c].value;
      forall j | 0 <= j < 3
        ensures ids[j] != i[0] && ids[j] != i[1] && ids[j] != i[2]
      {
        assert !s.free[ids[j]];
      }
    }
  }

  lemma SubmitRest(s: V, t: V, b: nat, i: seq<nat>)
    requires Inv(s) && Submit(s, t, b, i)
    ensures forall k {:trigger AvailOk(t, k)} :: 0 <= k < |t.sub| ==> AvailOk(t, k)
    ensures forall h {:trigger DevOk(t, h)} :: h in t.dev ==> DevOk(t, h)
    ensures forall k {:trigger UsedOk(t, k)} :: 0 <= k < |t.fin| ==> UsedOk(t, k)
  {
    assert StageOk(s, b);
    forall k | 0 <= k < |t.sub|
      ensures AvailOk(t, k)
    {
      SlotOf(|s.sub|, |s.desc|);
      if s.taken <= k < |s.sub| {
        AvailSlotFree(s, t, b, i, k);
        assert AvailOk(s, k);
      }
    }
    forall h | h in t.dev
      ensures DevOk(t, h)
    {
      assert DevOk(s, h) && DescOk(s, h);
    }
    forall k | 0 <= k < |t.fin|
      ensures UsedOk(t, k)
    {
      assert UsedOk(s, k);
      if s.done <= k {
        HeadOk(s, s.fin[k]);
      }
    }
  }

  lemma SubmitKeeps(s: V, t: V, b: nat, i: seq<nat>)
    requires Inv(s) && Submit(s, t, b, i)
    ensures Inv(t)
  {
    WrapNext(|s.sub|);
    assert StageOk(s, b);
    forall d | 0 <= d < |t.desc|
      ensures DescOk(t, d)
    {
      SubmitDesc(s, t, b, i, d);
    }
    SubmitRest(s, t, b, i);
    forall c | 0 <= c < |t.req|
      ensures ReqOk(t, c) && StageOk(t, c) && CountOk(t, c)
    {
      SubmitReq(s, t, b, i, c);
      assert StageOk(s, c) && CountOk(s, c);
    }
  }

  /** What the device consumes next is the transfer submitted earliest of those still queued. */
  lemma DevTakeRight(s: V)
    requires Inv(s) && s.lastAvail != s.availIdx
    ensures s.taken < |s.sub| && Active(s, s.sub[s.taken]) && s.avail[s.lastAvail % |s.desc|] == Head(s, s.sub[s.taken])
    ensures s.stage[s.sub[s.taken]] == Queued(s.taken)
  {
    assert AvailOk(s, s.taken);
    SlotOf(s.taken, |s.desc|);
  }

  lemma DevTakeKeeps(s: V, t: V)
    requires Inv(s) && DevTake(s, t)
    ensures Inv(t)
  {
    DevTakeRight(s);
    WrapNext(s.taken);
    var b := s.sub[s.taken];
    HeadOk(s, b);
    SameReqs(s, t);
    forall c | 0 <= c < |t.req|
      ensures StageOk(t, c) && CountOk(t, c)
    {
      assert StageOk(s, c) && CountOk(s, c);
      assert s.stage[c].Queued? ==> s.sub[s.stage[c].k] == c;
    }
    forall k | 0 <= k < |t.sub|
      ensures AvailOk(t, k)
    {
      assert AvailOk(s, k);
    }
    forall h | h in t.dev
      ensures DevOk(t, h)
    {
      assert h in s.dev ==> DevOk(s, h);
    }
    forall k | 0 <= k < |t.fin|
      ensures UsedOk(t, k)
    {
      assert UsedOk(s, k);
    }
  }

  /** Descriptors and chains of a step that does not touch them. */
  lemma SameReqs(s: V, t: V)
    requires Inv(s) && t.desc == s.desc && t.free == s.free && t.owner == s.owner && t.req == s.req && t.info == s.info
    ensures forall d {:trigger DescOk(t, d)} :: 0 <= d < |t.desc| ==> DescOk(t, d)
    ensures forall b {:trigger ReqOk(t, b)} :: 0 <= b < |t.req| ==> ReqOk(t, b)
  {
    forall d | 0 <= d < |t.desc|
      ensures DescOk(t, d)
    {
      assert DescOk(s, d);
    }
    forall b | 0 <= b < |t.req|
      ensures ReqOk(t, b)
    {
      assert ReqOk(s, b);
    }
  }

  lemma DevDoneKeeps(s: V, t: V, h: nat)
    requires Inv(s) && DevDone(s, t, h)
    ensures Inv(t)
  {
    WrapNext(|s.fin|);
    assert DevOk(s, h);
    var b := s.owner[h].value;
    SameReqs(s, t);
    SlotOf(|s.fin|, |s.desc|);
    assert t.fin[..t.done] == s.fin[..s.done];
    forall c | 0 <= c < |t.req|
      ensures StageOk(t, c) && CountOk(t, c)
    {
      assert StageOk(s, c) && CountOk(s, c);
      if s.stage[c].InDevice? && c != b {
        HeadsDiffer(s, b, c);
      }
    }
    forall k | 0 <= k < |t.sub|
      ensures AvailOk(t, k)
    {
      assert AvailOk(s, k);
    }
    forall g | g in t.dev
      ensures DevOk(t, g)
    {
      assert DevOk(s, g);
    }
    DevDoneUsed(s, t, h);
  }

  lemma DevDoneUsed(s: V, t: V, h: nat)
    requires Inv(s) && DevDone(s, t, h)
    ensures forall k {:trigger UsedOk(t, k)} :: 0 <= k < |t.fin| ==> UsedOk(t, k)
  {
    assert DevOk(s, h);
    SlotOf(|s.fin|, |s.desc|);
    forall k | 0 <= k < |t.fin|
      ensures UsedOk(t, k)
    {
      if s.done <= k < |s.fin| {
        UsedSlotFree(s, t, h, k);
        assert UsedOk(s, k);
        HeadsDiffer(s, s.fin[k], s.owner[h].value);
      }
    }
  }

  /**
   Whenever the handler sees a new used entry, its status is success, and the buffer it clears is the one
   that was submitted with that chain, whose flag is still set.
   */
  lemma IntrRight(s: V)
    requires Inv(s) && s.usedIdx != s.usedDev
    ensures s.done < |s.fin| && Active(s, s.fin[s.done])
    ensures var id, b := s.used[s.usedIdx % |s.desc|], s.fin[s.done];
      id == Head(s, b) < |s.desc| && s.status[id] == 0 && s.info[id] == Some(b) && b < |s.disk| && s.disk[b]
        && s.stage[b] == Completed(s.done)
  {
    assert UsedOk(s, s.done);
    SlotOf(s.done, |s.desc|);
    HeadOk(s, s.fin[s.done]);
    assert StageOk(s, s.fin[s.done]);
  }

  lemma IntrKeeps(s: V, t: V)
    requires Inv(s) && Intr(s, t)
    ensures Inv(t)
  {
    IntrRight(s);
    WrapNext(s.done);
    var b := s.fin[s.done];
    SameReqs(s, t);
    assert s.fin[..s.done + 1] == s.fin[..s.done] + [b];
    forall c | 0 <= c < |t.req|
      ensures StageOk(t, c) && CountOk(t, c)
    {
      assert StageOk(s, c) && CountOk(s, c);
      assert s.stage[c].Completed? ==> s.fin[s.stage[c].k] == c;
    }
    forall k | 0 <= k < |t.sub|
      ensures AvailOk(t, k)
    {
      assert AvailOk(s, k);
    }
    forall h | h in t.dev
      ensures DevOk(t, h)
    {
      assert DevOk(s, h);
    }
    forall k | 0 <= k < |t.fin|
      ensures UsedOk(t, k)
    {
      assert UsedOk(s, k);
    }
  }

  /** A requester that wakes up frees a chain of allocated descriptors: `free_desc` cannot panic. */
  lemma FinishRight(s: V, b: nat)
    requires Inv(s) && Active(s, b) && b < |s.disk| && !s.disk[b]
    ensures IsChain(s.desc, s.free, s.req[b].value) && s.stage[b] == Handled
  {
    assert ReqOk(s, b) && StageOk(s, b);
  }

  lemma FinishReq(s: V, t: V, b: nat, desc': seq<Desc>, free': seq<bool>, c: nat)
    requires Inv(s) && Finish(s, t, b, desc', free') && c < |s.req|
    ensures ReqOk(t, c)
  {
    assert ReqOk(s, b) && ReqOk(s, c);
    if c != b && s.req[c].Some? {
      var ids, i := s.req[c].value, s.req[b].value;
      forall j | 0 <= j < 3
        ensures ids[j] !in i && ids[j] != i[0] && ids[j] != i[1] && ids[j] != i[2]
      {
        assert s.owner[ids[j]] == Some(c);
        assert s.owner[i[0]] == s.owner[i[1]] == s.owner[i[2]] == Some(b);
      }
      assert forall j {:trigger ids[j]} ::
        0 <= j < 3 ==> desc'[ids[j]] == s.desc[ids[j]] && free'[ids[j]] == s.free[ids[j]];
    }
  }

  lemma FinishDesc(s: V, t: V, b: nat, desc': seq<Desc>, free': seq<bool>, d: nat)
    requires Inv(s) && Finish(s, t, b, desc', free') && d < |s.desc|
    ensures DescOk(t, d)
  {
    assert DescOk(s, d) && ReqOk(s, b);
    var i := s.req[b].value;
    assert d in i <==> d == i[0] || d == i[1] || d == i[2];
    assert free'[d] == (s.free[d] || d in i);
  }

  lemma FinishKeeps(s: V, t: V, b: nat, desc': seq<Desc>, free': seq<bool>)
    requires Inv(s) && Finish(s, t, b, desc', free')
    ensures Inv(t)
  {
    FinishRight(s, b);
    forall d | 0 <= d < |t.desc|
      ensures DescOk(t, d)
    {
      FinishDesc(s, t, b, desc', free', d);
    }
    forall c | 0 <= c < |t.req|
      ensures ReqOk(t, c) && StageOk(t, c) && CountOk(t, c)
    {
      FinishReq(s, t, b, desc', free', c);
      assert StageOk(s, c) && CountOk(s, c);
    }
    FinishRest(s, t, b, desc', free');
  }

  lemma FinishRest(s: V, t: V, b: nat, desc': seq<Desc>, free': seq<bool>)
    requires Inv(s) && Finish(s, t, b, desc', free') && s.stage[b] == Handled
    ensures forall k {:trigger AvailOk(t, k)} :: 0 <= k < |t.sub| ==> AvailOk(t, k)
    ensures forall h {:trigger DevOk(t, h)} :: h in t.dev ==> DevOk(t, h)
    ensures forall k {:trigger UsedOk(t, k)} :: 0 <= k < |t.fin| ==> UsedOk(t, k)
  {
    forall k | 0 <= k < |t.sub|
      ensures AvailOk(t, k)
    {
      assert AvailOk(s, k);
    }
    forall h | h in t.dev
      ensures DevOk(t, h)
    {
      assert DevOk(s, h) && ReqOk(s, b);
    }
    forall k | 0 <= k < |t.fin|
      ensures UsedOk(t, k)
    {
      assert UsedOk(s, k);
    }
  }

  lemma StepKeeps(s: V, t: V)
    requires Inv(s) && Step(s, t)
    ensures Inv(t)
  {
    hide Inv, Submit, DevTake, DevDone, Intr, Finish;
    if b, i :| Submit(s, t, b, i) {
      SubmitKeeps(s, t, b, i);
    } else if DevTake(s, t) {
      DevTakeKeeps(s, t);
    } else if h :| DevDone(s, t, h) {
      DevDoneKeeps(s, t, h);
    } else if Intr(s, t) {
      IntrKeeps(s, t);
    } else {
      var b, desc', free' :| Finish(s, t, b, desc', free');
      FinishKeeps(s, t, b, desc', free');
    }
  }

  // ---------- Whole runs ----------

  ghost predicate IsRun(run: seq<V>) {
    run != [] && Init(run[0]) && forall i {:trigger run[i]} :: 0 < i < |run| ==> Step(run[i - 1], run[i])
  }

  lemma {:induction false} RunKeeps(run: seq<V>, i: nat)
    requires IsRun(run) && i < |run|
    ensures Inv(run[i])
  {
    hide Step, Inv, Init;
    if i == 0 {
      InitInv(run[0]);
    } else {
      RunKeeps(run, i - 1);
      StepKeeps(run[i - 1], run[i]);
    }
  }

  /** `b` has a transfer under way and `d` is one of its three descriptors. */
  ghost predicate InChain(s: V, b: nat, d: nat) {
    Active(s, b) && d in s.req[b].value && IsChain(s.desc, s.free, s.req[b].value)
  }

  /** In every run each descriptor is free or in exactly one chain of three. */
  lemma DescInOneChain(run: seq<V>, i: nat, d: nat)
    requires IsRun(run) && i < |run| && d < |run[i].desc|
    ensures var s := run[i];
      && d < |s.free|
      && (s.free[d] <==> forall b: nat :: !InChain(s, b, d))
      && (forall b: nat, b': nat :: InChain(s, b, d) && InChain(s, b', d) ==> b == b')
  {
    RunKeeps(run, i);
    var s := run[i];
    assert DescOk(s, d);
    forall b: nat | InChain(s, b, d)
      ensures s.owner[d] == Some(b)
    {
      assert ReqOk(s, b);
    }
    if s.owner[d].Some? {
      assert ReqOk(s, s.owner[d].value);
      assert InChain(s, s.owner[d].value, d);
    }
  }

  /** In every run each submission of a buffer was matched by one clearing of its flag, or is under way, flag set. */
  lemma ClearedOnce(run: seq<V>, i: nat, b: nat)
    requires IsRun(run) && i < |run| && b < |run[i].req|
    ensures var s := run[i];
      b < |s.disk| && s.done <= |s.fin|
        && multiset(s.sub)[b] == multiset(s.fin[..s.done])[b] + if s.disk[b] then 1 else 0
  {
    RunKeeps(run, i);
    assert CountOk(run[i], b);
  }

  /** In every run the four indices are sixteen-bit counters of what was submitted, consumed, completed and handled. */
  lemma IndicesCount(run: seq<V>, i: nat)
    requires IsRun(run) && i < |run|
    ensures var s := run[i];
      && s.availIdx == |s.sub| % 65536 && s.lastAvail == s.taken % 65536
      && s.usedDev == |s.fin| % 65536 && s.usedIdx == s.done % 65536
      && s.done <= |s.fin| && s.taken <= |s.sub|
  {
    RunKeeps(run, i);
  }
}
