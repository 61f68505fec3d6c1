/**
 The submission of a transfer write by write (kernel/driver/virtio_disk.c:211-261): the device runs outside the
 driver's lock and may take steps between any two of the writes.  Until the index of the avail ring is raised it
 sees nothing of them, so every run at this grain is a run of `VirtioSteps`.
 */
module VirtioDraft {
  import opened Bytes
  import opened Lists
  import opened VirtioDesc
  import opened VirtioSteps

  /** The requester of `b` holds the lock and has done `n` of the eight writes for the descriptors `i`. */
  datatype Draft = Draft(b: nat, i: seq<nat>, n: nat)

  /** Memory, and the submission that is being written. */
  datatype C = C(mem: V, draft: Option<Draft>)

  /** What a requester finds before it begins: no transfer of `b` under way, and three free descriptors. */
  ghost predicate Ready(s: V, b: nat, i: seq<nat>) {
    && Sized(s) && b < |s.req| && s.req[b].None? && |i| == 3 && NoDup(i)
    && (forall j :: 0 <= j < 3 ==> i[j] < |s.desc| && s.free[i[j]])
  }

  predicate Fits(m: V, b: nat, i: seq<nat>) {
    && |i| == 3 && b < |m.disk| && |m.desc| > 0
    && i[0] < |m.desc| && i[1] < |m.desc| && i[2] < |m.desc|
    && |m.free| == |m.info| == |m.status| == |m.avail| == |m.desc|
  }

  /** Write number `n`, in the order of lines 211 to 255. */
  function Write(m: V, b: nat, i: seq<nat>, n: nat): V
    requires Fits(m, b, i)
  {
    if n == 0 then m.(free := m.free[i[0] := false][i[1] := false][i[2] := false])
    else if n == 1 then m.(desc := m.desc[i[0] := Desc(true, i[1])])
    else if n == 2 then m.(desc := m.desc[i[1] := Desc(true, i[2])])
    else if n == 3 then m.(status := m.status[i[0] := 0xff])
    else if n == 4 then m.(desc := m.desc[i[2] := Desc(false, 0)])
    else if n == 5 then m.(disk := m.disk[b := true])
    else if n == 6 then m.(info := m.info[i[0] := Some(b)])
    else m.(avail := m.avail[m.availIdx % |m.desc| := i[0]])
  }

  /** Raising the index; the last three components say that the transfer is submitted now. */
  function Publish(m: V, b: nat, i: seq<nat>): V
    requires Fits(m, b, i) && b < |m.req| == |m.stage| && |m.owner| == |m.desc|
  {
    m.(availIdx := (m.availIdx + 1) % WRAP, req := m.req[b := Some(i)],
       owner := m.owner[i[0] := Some(b)][i[1] := Some(b)][i[2] := Some(b)],
       stage := m.stage[b := Queued(|m.sub|)], sub := m.sub + [b])
  }

  // ---------- Steps ----------

  ghost predicate BeginStep(c: C, c': C, b: nat, i: seq<nat>) {
    c.draft == None && Ready(c.mem, b, i) && c' == C(c.mem, Some(Draft(b, i, 0)))
  }

  ghost predicate WriteStep(c: C, c': C) {
    && c.draft.Some? && c.draft.value.n < 8
    && var d := c.draft.value;
       Fits(c.mem, d.b, d.i) && c' == C(Write(c.mem, d.b, d.i, d.n), Some(d.(n := d.n + 1)))
  }

  ghost predicate PublishStep(c: C, c': C) {
    && c.draft.Some? && c.draft.value.n == 8
    && var d := c.draft.value;
       && Fits(c.mem, d.b, d.i) && d.b < |c.mem.req| == |c.mem.stage| && |c.mem.owner| == |c.mem.desc|
       && c' == C(Publish(c.mem, d.b, d.i), None)
  }

  /** The device takes its steps at any time. */
  ghost predicate DeviceStep(c: C, c': C) {
    c'.draft == c.draft && (DevTake(c.mem, c'.mem) || exists h :: DevDone(c.mem, c'.mem, h))
  }

  /** What needs the lock waits until no submission is being written. */
  ghost predicate LockedStep(c: C, c': C) {
    && c.draft == None && c'.draft == None
    && (Intr(c.mem, c'.mem) || exists b, desc', free' :: Finish(c.mem, c'.mem, b, desc', free'))
  }

  ghost predicate CStep(c: C, c': C) {
    || (exists b, i :: BeginStep(c, c', b, i))
    || WriteStep(c, c') || PublishStep(c, c') || DeviceStep(c, c') || LockedStep(c, c')
  }

  // ---------- Memory with a submission half written ----------

  /** State `s` with the first `n` writes done. */
  function Drafted(s: V, b: nat, i: seq<nat>, n: nat): V
    requires Fits(s, b, i)
  {
    s.(free := if n >= 1 then s.free[i[0] := false][i[1] := false][i[2] := false] else s.free,
       desc := if n >= 5 then s.desc[i[0] := Desc(true, i[1])][i[1] := Desc(true, i[2])][i[2] := Desc(false, 0)]
               else if n >= 3 then s.desc[i[0] := Desc(true, i[1])][i[1] := Desc(true, i[2])]
               else if n >= 2 then s.desc[i[0] := Desc(true, i[1])] else s.desc,
       status := if n >= 4 then s.status[i[0] := 0xff] else s.status,
       disk := if n >= 6 then s.disk[b := true] else s.disk,
       info := if n >= 7 then s.info[i[0] := Some(b)] else s.info,
       avail := if n >= 8 then s.avail[s.availIdx % |s.desc| := i[0]] else s.avail)
  }

  /** What `s` is to the memory of `c`: the state without the submission that is being written. */
  ghost predicate Shows(c: C, s: V) {
    match c.draft
    case None => c.mem == s
    case Some(d) => Ready(s, d.b, d.i) && Fits(s, d.b, d.i) && d.n <= 8 && c.mem == Drafted(s, d.b, d.i, d.n)
  }

  lemma ReadyFits(s: V, b: nat, i: seq<nat>)
    requires Ready(s, b, i)
    ensures Fits(s, b, i)
  {
  }

  lemma DraftedNext(s: V, b: nat, i: seq<nat>, n: nat)
    requires Fits(s, b, i) && n < 8
    ensures Fits(Drafted(s, b, i, n), b, i) && Write(Drafted(s, b, i, n), b, i, n) == Drafted(s, b, i, n + 1)
  {
  }

  /** All writes and then the index are the submission. */
  lemma PublishSubmits(s: V, b: nat, i: seq<nat>)
    requires Ready(s, b, i) && Fits(s, b, i)
    ensures Submit(s, Publish(Drafted(s, b, i, 8), b, i), b, i)
  {
  }

  /** The device finds the same avail entry with and without the submission that is being written. */
  lemma SameEntry(s: V, b: nat, i: seq<nat>, n: nat)
    requires Inv(s) && Ready(s, b, i) && Fits(s, b, i) && s.taken < |s.sub|
    ensures Drafted(s, b, i, n).avail[s.lastAvail % |s.desc|] == s.avail[s.lastAvail % |s.desc|]
  {
    assert s.free[i[0]];
    AvailRoom(s, i[0]);
    hide Inv;
    SlotOf(s.taken, |s.desc|);
    SlotOf(|s.sub|, |s.desc|);
    SlotsApart(s.taken, |s.sub|, |s.desc|);
  }

  /** A step of the device on memory is its step on the state without the draft. */
  lemma TakeShows(s: V, b: nat, i: seq<nat>, n: nat, m: V) returns (t: V)
    requires Inv(s) && Ready(s, b, i) && Fits(s, b, i) && DevTake(Drafted(s, b, i, n), m)
    ensures DevTake(s, t) && Ready(t, b, i) && Fits(t, b, i) && m == Drafted(t, b, i, n)
  {
    SameEntry(s, b, i, n);
    hide Inv;
    WrapNext(s.taken);
    t := s.(lastAvail := (s.lastAvail + 1) % WRAP, dev := s.dev + {s.avail[s.lastAvail % |s.desc|]},
            stage := s.stage[s.sub[s.taken] := InDevice], taken := s.taken + 1);
  }

  lemma DoneShows(s: V, b: nat, i: seq<nat>, n: nat, m: V, h: nat) returns (t: V)
    requires Inv(s) && Ready(s, b, i) && Fits(s, b, i) && DevDone(Drafted(s, b, i, n), m, h)
    ensures DevDone(s, t, h) && Ready(t, b, i) && Fits(t, b, i) && m == Drafted(t, b, i, n)
  {
    assert s.free[i[0]] && DescOk(s, i[0]) && DevOk(s, h);
    assert h != i[0];
    hide Inv;
    WrapNext(|s.fin|);
    t := s.(status := s.status[h := 0], used := s.used[s.usedDev % |s.desc| := h],
            usedDev := (s.usedDev + 1) % WRAP, dev := s.dev - {h},
            stage := s.stage[s.owner[h].value := Completed(|s.fin|)], fin := s.fin + [s.owner[h].value]);
    assert s.status[i[0] := 0xff][h := 0] == s.status[h := 0][i[0] := 0xff];
  }

  /** Every step at this grain is a step of `VirtioSteps`, or none. */
  lemma StepShows(c: C, c': C, s: V) returns (t: V)
    requires Inv(s) && Shows(c, s) && CStep(c, c')
    ensures Shows(c', t) && (t == s || Step(s, t))
  {
    hide Inv, Submit, DevTake, DevDone, Intr, Finish, Ready, Drafted, Write, Publish, Fits;
    t := s;
    if b, i :| BeginStep(c, c', b, i) {
      ReadyFits(s, b, i);
      DraftedNone(s, b, i);
    } else if WriteStep(c, c') {
      var d := c.draft.value;
      DraftedNext(s, d.b, d.i, d.n);
    } else if PublishStep(c, c') {
      var d := c.draft.value;
      PublishSubmits(s, d.b, d.i);
      t := c'.mem;
    } else if DeviceStep(c, c') {
      t := DeviceShows(c, c', s);
    } else {
      t := c'.mem;
    }
  }

  lemma DraftedNone(s: V, b: nat, i: seq<nat>)
    requires Fits(s, b, i)
    ensures Drafted(s, b, i, 0) == s
  {
  }

  lemma DeviceShows(c: C, c': C, s: V) returns (t: V)
    requires Inv(s) && Shows(c, s) && DeviceStep(c, c')
    ensures Shows(c', t) && Step(s, t)
  {
    hide Inv, Submit, DevTake, DevDone, Intr, Finish, Ready, Drafted, Fits;
    if c.draft == None {
      t := c'.mem;
    } else {
      var d := c.draft.value;
      if DevTake(c.mem, c'.mem) {
        t := TakeShows(s, d.b, d.i, d.n, c'.mem);
      } else {
        var h :| DevDone(c.mem, c'.mem, h);
        t := DoneShows(s, d.b, d.i, d.n, c'.mem, h);
      }
    }
  }

  // ---------- Whole runs ----------

  ghost predicate IsDraftRun(run: seq<C>) {
    && run != [] && Init(run[0].mem) && run[0].draft == None
    && forall i {:trigger run[i]} :: 0 < i < |run| ==> CStep(run[i - 1], run[i])
  }

  /** In every run at this grain the memory is a state of the protocol, but for the submission being written. */
  lemma {:induction false} RunShows(run: seq<C>, i: nat) returns (s: V)
    requires IsDraftRun(run) && i < |run|
    ensures Inv(s) && Shows(run[i], s)
  {
    hide CStep, Inv, Init, Shows, Step;
    if i == 0 {
      InitInv(run[0].mem);
      s := run[0].mem;
      NoDraft(run[0]);
    } else {
      var s0 := RunShows(run, i - 1);
      s := StepShows(run[i - 1], run[i], s0);
      if s != s0 {
        StepKeeps(s0, s);
      }
    }
  }

  lemma NoDraft(c: C)
    requires c.draft == None
    ensures Shows(c, c.mem)
  {
  }

  /**
   Whenever the device finds a new avail entry, whatever the driver is writing meanwhile, it is the head of a complete
   chain of three descriptors, of the transfer submitted next.
   */
  lemma DeviceSeesWhole(run: seq<C>, i: nat)
    requires IsDraftRun(run) && i < |run| && run[i].mem.lastAvail != run[i].mem.availIdx
    ensures var m := run[i].mem;
      && m.taken < |m.sub| && Active(m, m.sub[m.taken]) && |m.desc| > 0 && |m.avail| == |m.desc|
      && m.avail[m.lastAvail % |m.desc|] == Head(m, m.sub[m.taken])
      && IsChain(m.desc, m.free, m.req[m.sub[m.taken]].value)
  {
    var s := RunShows(run, i);
    hide IsDraftRun, IsChain, Inv;
    SameRings(run[i], s);
    NextWhole(s);
    if run[i].draft.Some? {
      var d := run[i].draft.value;
      SameEntry(s, d.b, d.i, d.n);
      ChainKept(s, d.b, d.i, d.n, s.sub[s.taken]);
    }
  }

  /** The writes leave alone what the device goes by. */
  lemma SameRings(c: C, s: V)
    requires Shows(c, s)
    ensures var m := c.mem;
      && m.lastAvail == s.lastAvail && m.availIdx == s.availIdx && m.taken == s.taken && m.sub == s.sub
      && m.req == s.req && |m.desc| == |s.desc| && |m.avail| == |s.avail|
  {
  }

  lemma NextWhole(s: V)
    requires Inv(s) && s.lastAvail != s.availIdx
    ensures s.taken < |s.sub| && Active(s, s.sub[s.taken]) && |s.desc| > 0 && |s.avail| == |s.desc|
    ensures s.avail[s.lastAvail % |s.desc|] == Head(s, s.sub[s.taken])
    ensures IsChain(s.desc, s.free, s.req[s.sub[s.taken]].value)
  {
    assert s.taken < |s.sub|;
    assert AvailOk(s, s.taken) && ReqOk(s, s.sub[s.taken]);
    SlotOf(s.taken, |s.desc|);
  }

  /** The writes touch no chain of a transfer under way. */
  lemma ChainKept(s: V, b: nat, i: seq<nat>, n: nat, c: nat)
    requires Inv(s) && Ready(s, b, i) && Fits(s, b, i) && Active(s, c)
    ensures var m := Drafted(s, b, i, n); IsChain(m.desc, m.free, s.req[c].value)
  {
    assert ReqOk(s, c);
    var ids := s.req[c].value;
    forall j, l | 0 <= j < 3 && 0 <= l < 3
      ensures ids[j] != i[l]
    {
      assert s.free[i[l]] && DescOk(s, i[l]);
    }
  }
}
