/**
 The DATA phase of tools/burn.py:621-704: stop-and-wait transfer of an image, one 512-byte sector per
 frame, with at most five retries.  A checksum error, a timeout and every message are responses; the
 board's program is not part of the repository and appears through what it stores and answers.
 */
module Burn {
  import opened Bytes

  const SECTOR_SIZE := 512
  const MAX_RETRY := 5

  datatype Response = Timeout | BadCrc | Ack(seqno: nat) | Nak(seqno: nat) | Other(seqno: nat)

  datatype Event = Sent(k: nat, data: seq<byte>) | Stored(k: nat, data: seq<byte>) | Got(r: Response)

  /** Between a send and the host's next receive: what the board stores, and what the host then receives. */
  datatype Turn = Turn(board: seq<Event>, r: Response)

  /** Sector `k` of the image, padded with zeros. */
  function Chunk(image: seq<byte>, k: nat): (c: seq<byte>)
    ensures |c| == SECTOR_SIZE
  {
    var lo := k * SECTOR_SIZE;
    var c := if lo >= |image| then [] else if lo + SECTOR_SIZE <= |image| then image[lo..lo + SECTOR_SIZE]
      else image[lo..];
    c + Zeros(SECTOR_SIZE - |c|)
  }

  function Sectors(image: seq<byte>): nat { (|image| + SECTOR_SIZE - 1) / SECTOR_SIZE }

  // ---------- The host ----------

  /** Everything that happened, whether the host got through, and how many turns it took. */
  datatype Run = Run(log: seq<Event>, ok: bool, turns: nat)

  function TurnLog(k: nat, data: seq<byte>, t: Turn): seq<Event> { [Sent(k, data)] + t.board + [Got(t.r)] }

  /** Sending one sector, from attempt `a` on; `env` is long enough for all attempts. */
  function SendSector(k: nat, data: seq<byte>, a: nat, env: seq<Turn>): (r: Run)
    requires a <= MAX_RETRY && |env| >= MAX_RETRY + 1 - a
    ensures r.turns <= |env| && r.turns <= MAX_RETRY + 1 - a
    decreases MAX_RETRY - a
  {
    var l := TurnLog(k, data, env[0]);
    if env[0].r == Ack(k) then Run(l, true, 1)
    else if a >= MAX_RETRY then Run(l, false, 1)
    else
      var r := SendSector(k, data, a + 1, env[1..]);
      Run(l + r.log, r.ok, r.turns + 1)
  }

  /** Sending sectors `k` to `n - 1`; the host dies at the first one it does not get through. */
  function SendAll(image: seq<byte>, k: nat, n: nat, env: seq<Turn>): (r: Run)
    requires k <= n && |env| >= (n - k) * (MAX_RETRY + 1)
    ensures r.turns <= |env|
    decreases n - k
  {
    if k == n then Run([], true, 0)
    else
      var s := SendSector(k, Chunk(image, k), 0, env);
      if !s.ok then s
      else
        var r := SendAll(image, k + 1, n, env[s.turns..]);
        Run(s.log + r.log, r.ok, s.turns + r.turns)
  }

  /** The inner loop of `main`. */
  method Attempts(k: nat, data: seq<byte>, env: seq<Turn>) returns (ok: bool, turns: nat, log: seq<Event>)
    requires |env| >= MAX_RETRY + 1
    ensures Run(log, ok, turns) == SendSector(k, data, 0, env)
  {
    log, turns, ok := [], 0, false;
    var a := 0;
    assert env[0..] == env;
    while a < MAX_RETRY + 1
      invariant 0 <= a <= MAX_RETRY + 1 && turns == a
      invariant a <= MAX_RETRY ==>
        var r := SendSector(k, data, a, env[a..]);
        SendSector(k, data, 0, env) == Run(log + r.log, r.ok, r.turns + a)
      invariant a == MAX_RETRY + 1 ==> SendSector(k, data, 0, env) == Run(log, false, a)
    {
      var r := env[a].r;
      var l := TurnLog(k, data, env[a]);
      assert env[a..][1..] == env[a + 1..];
      turns := turns + 1;
      if r == Ack(k) {
        log := log + l;
        return true, turns, log;
      }
      ghost var log0 := log;
      log := log + l;
      if a >= MAX_RETRY {
        return false, turns, log;
      }
      assert forall x: seq<Event> :: log0 + (l + x) == log + x;
      a := a + 1;
    }
  }

  /** The DATA phase of `main`: `ok` when the host reaches DONE, exactly when every sector is acknowledged in time. */
  method Transfer(image: seq<byte>, env: seq<Turn>) returns (ok: bool, log: seq<Event>)
    requires |env| >= Sectors(image) * (MAX_RETRY + 1)
    ensures var r := SendAll(image, 0, Sectors(image), env); r.ok == ok && r.log == log
    ensures ok <==> AllServed(env, Sectors(image))
  {
    hide SendAll, Sectors, AllServed;
    ThroughExactly(image, env);
    ok, log := SendSectors(image, env);
  }

  /** The outer loop of `main`. */
  method SendSectors(image: seq<byte>, env: seq<Turn>) returns (ok: bool, log: seq<Event>)
    requires |env| >= Sectors(image) * (MAX_RETRY + 1)
    ensures var r := SendAll(image, 0, Sectors(image), env); r.ok == ok && r.log == log
  {
    hide SendAll, SendSector, Chunk, Sectors;
    var n, k, used := Sectors(image), 0, 0;
    log := [];
    assert env[0..] == env;
    assert [] + SendAll(image, 0, n, env).log == SendAll(image, 0, n, env).log;
    while k < n
      invariant 0 <= k <= n && 0 <= used <= |env| && |env[used..]| >= (n - k) * (MAX_RETRY + 1)
      invariant var r := SendAll(image, k, n, env[used..]);
        var all := SendAll(image, 0, n, env); all.ok == r.ok && all.log == log + r.log
    {
      var got, turns, l := Attempts(k, Chunk(image, k), env[used..]);
      SendAllStep(image, k, n, env[used..]);
      if !got {
        return false, log + l;
      }
      assert env[used..][turns..] == env[used + turns..];
      ghost var r := SendAll(image, k + 1, n, env[used + turns..]);
      assert log + (l + r.log) == log + l + r.log;
      log := log + l;
      used, k := used + turns, k + 1;
    }
    SendAllEnd(image, n, env[used..]);
    assert log + [] == log;
    ok := true;
  }

  lemma SendAllStep(image: seq<byte>, k: nat, n: nat, env: seq<Turn>)
    requires k < n && |env| >= (n - k) * (MAX_RETRY + 1)
    ensures var s := SendSector(k, Chunk(image, k), 0, env);
      && |env| - s.turns >= (n - k - 1) * (MAX_RETRY + 1)
      && SendAll(image, k, n, env) ==
         if !s.ok then s
         else var r := SendAll(image, k + 1, n, env[s.turns..]); Run(s.log + r.log, r.ok, s.turns + r.turns)
  {
    hide SendSector, Chunk;
  }

  lemma SendAllEnd(image: seq<byte>, n: nat, env: seq<Turn>)
    ensures SendAll(image, n, n, env) == Run([], true, 0)
  {
  }

  // ---------- What the host does, whatever it receives ----------

  function CountSent(log: seq<Event>, k: nat): nat {
    if log == [] then 0 else (if log[0].Sent? && log[0].k == k then 1 else 0) + CountSent(log[1..], k)
  }

  lemma {:induction false} CountConcat(a: seq<Event>, b: seq<Event>, k: nat)
    ensures CountSent(a + b, k) == CountSent(a, k) + CountSent(b, k)
  {
    if a == [] {
      assert a + b == b;
    } else {
      CountConcat(a[1..], b, k);
      assert (a + b)[1..] == a[1..] + b;
    }
  }

  /** The board only stores; it neither sends frames nor receives responses. */
  ghost predicate BoardOnly(env: seq<Turn>) {
    forall i, j {:trigger env[i].board[j]} :: 0 <= i < |env| && 0 <= j < |env[i].board| ==> env[i].board[j].Stored?
  }

  lemma {:induction false} NoSent(b: seq<Event>, k: nat)
    requires forall j {:trigger b[j]} :: 0 <= j < |b| ==> b[j].Stored?
    ensures CountSent(b, k) == 0
  {
    if b != [] {
      NoSent(b[1..], k);
    }
  }

  lemma TurnCount(k: nat, data: seq<byte>, env: seq<Turn>, j: nat)
    requires env != [] && BoardOnly(env)
    ensures CountSent(TurnLog(k, data, env[0]), j) == if j == k then 1 else 0
  {
    var t := env[0];
    NoSent(t.board, j);
    CountConcat([Sent(k, data)] + t.board, [Got(t.r)], j);
    CountConcat([Sent(k, data)], t.board, j);
    CountOne(Got(t.r), j);
    CountOne(Sent(k, data), j);
  }

  lemma CountOne(e: Event, k: nat)
    ensures CountSent([e], k) == if e.Sent? && e.k == k then 1 else 0
  {
    assert [e][1..] == [];
  }

  lemma {:induction false} SectorCount(k: nat, data: seq<byte>, a: nat, env: seq<Turn>, j: nat)
    requires a <= MAX_RETRY && |env| >= MAX_RETRY + 1 - a && BoardOnly(env)
    ensures CountSent(SendSector(k, data, a, env).log, j) == if j == k then SendSector(k, data, a, env).turns else 0
    decreases MAX_RETRY - a
  {
    hide CountSent, TurnLog;
    TurnCount(k, data, env, j);
    if env[0].r != Ack(k) && a < MAX_RETRY {
      SectorCount(k, data, a + 1, env[1..], j);
      CountConcat(TurnLog(k, data, env[0]), SendSector(k, data, a + 1, env[1..]).log, j);
    }
  }

  /** Each sector is sent at most six times. */
  lemma {:induction false} SentAtMostSix(image: seq<byte>, k: nat, n: nat, env: seq<Turn>, j: nat)
    requires k <= n && |env| >= (n - k) * (MAX_RETRY + 1) && BoardOnly(env)
    ensures CountSent(SendAll(image, k, n, env).log, j) <= if k <= j < n then 6 else 0
    decreases n - k
  {
    hide SendSector, Chunk, BoardOnly;
    if k < n {
      var s := SendSector(k, Chunk(image, k), 0, env);
      SectorCount(k, Chunk(image, k), 0, env, j);
      SendAllStep(image, k, n, env);
      if s.ok {
        SuffixBoard(env, s.turns);
        SentAtMostSix(image, k + 1, n, env[s.turns..], j);
        CountConcat(s.log, SendAll(image, k + 1, n, env[s.turns..]).log, j);
      }
    }
  }

  lemma SuffixBoard(env: seq<Turn>, i: nat)
    requires BoardOnly(env) && i <= |env|
    ensures BoardOnly(env[i..])
  {
  }

  // ---------- How often it tries ----------

  /** The response number `p`, of six at most, is the first that acknowledges sector `k`. */
  ghost predicate AckedAt(env: seq<Turn>, k: nat, p: nat) {
    p < 6 && p < |env| && env[p].r == Ack(k) && forall j {:trigger env[j]} :: 0 <= j < p ==> env[j].r != Ack(k)
  }

  /** None of the next six responses acknowledges sector `k`. */
  ghost predicate Unacked(env: seq<Turn>, k: nat) {
    |env| >= 6 && forall j {:trigger env[j]} :: 0 <= j < 6 ==> env[j].r != Ack(k)
  }

  /** From sector `k` on, as many sectors as `pos` has are acknowledged, each at its position. */
  ghost predicate Served(env: seq<Turn>, k: nat, pos: seq<nat>)
    decreases |pos|
  {
    pos == [] || (AckedAt(env, k, pos[0]) && Served(env[pos[0] + 1..], k + 1, pos[1..]))
  }

  /** So many are, and then six responses in a row do not acknowledge the next one. */
  ghost predicate Stuck(env: seq<Turn>, k: nat, pos: seq<nat>)
    decreases |pos|
  {
    if pos == [] then Unacked(env, k) else AckedAt(env, k, pos[0]) && Stuck(env[pos[0] + 1..], k + 1, pos[1..])
  }

  lemma {:induction false} SectorTries(k: nat, data: seq<byte>, a: nat, env: seq<Turn>, p: nat)
    requires a <= 5 && |env| >= 6 - a && a + p <= 5 && env[p].r == Ack(k)
    requires forall j {:trigger env[j]} :: 0 <= j < p ==> env[j].r != Ack(k)
    ensures var r := SendSector(k, data, a, env); r.ok && r.turns == p + 1
    decreases p
  {
    hide TurnLog;
    if p > 0 {
      assert env[0].r != Ack(k);
      assert forall j {:trigger env[1..][j]} :: 0 <= j < p - 1 ==> env[1..][j] == env[j + 1];
      SectorTries(k, data, a + 1, env[1..], p - 1);
    }
  }

  lemma {:induction false} SectorFails(k: nat, data: seq<byte>, a: nat, env: seq<Turn>)
    requires a <= 5 && |env| >= 6 - a && forall j {:trigger env[j]} :: 0 <= j < 6 - a ==> env[j].r != Ack(k)
    ensures var r := SendSector(k, data, a, env); !r.ok && r.turns == 6 - a
    decreases 5 - a
  {
    hide TurnLog;
    assert env[0].r != Ack(k);
    if a < 5 {
      assert forall j {:trigger env[1..][j]} :: 0 <= j < 6 - a - 1 ==> env[1..][j] == env[j + 1];
      SectorFails(k, data, a + 1, env[1..]);
    }
  }

  /** When each sector is acknowledged within six responses, the host gets through, and sends each so often. */
  lemma {:induction false} GetsThrough(image: seq<byte>, k: nat, n: nat, env: seq<Turn>, pos: seq<nat>)
    requires k <= n && |env| >= (n - k) * (MAX_RETRY + 1) && |pos| == n - k && Served(env, k, pos)
    ensures SendAll(image, k, n, env).ok
    ensures BoardOnly(env) ==> forall j {:trigger CountSent(SendAll(image, k, n, env).log, j)} ::
      k <= j < n ==> CountSent(SendAll(image, k, n, env).log, j) == pos[j - k] + 1
    decreases n - k
  {
    hide SendSector, SendAll, Chunk, BoardOnly, CountSent;
    if k < n {
      SectorTries(k, Chunk(image, k), 0, env, pos[0]);
      SendAllStep(image, k, n, env);
      var s, rest := SendSector(k, Chunk(image, k), 0, env), env[pos[0] + 1..];
      GetsThrough(image, k + 1, n, rest, pos[1..]);
      if BoardOnly(env) {
        SuffixBoard(env, s.turns);
        forall j | k <= j < n
          ensures CountSent(SendAll(image, k, n, env).log, j) == pos[j - k] + 1
        {
          SectorCount(k, Chunk(image, k), 0, env, j);
          SentAtMostSix(image, k + 1, n, rest, j);
          CountConcat(s.log, SendAll(image, k + 1, n, rest).log, j);
        }
      }
    } else {
      SendAllEnd(image, n, env);
    }
  }

  /** When six responses in a row do not acknowledge a sector, the host gives up. */
  lemma {:induction false} GivesUp(image: seq<byte>, k: nat, n: nat, env: seq<Turn>, pos: seq<nat>)
    requires k <= n && |env| >= (n - k) * (MAX_RETRY + 1) && |pos| < n - k && Stuck(env, k, pos)
    ensures !SendAll(image, k, n, env).ok
    decreases n - k
  {
    hide SendSector, SendAll, Chunk;
    SendAllStep(image, k, n, env);
    if pos == [] {
      SectorFails(k, Chunk(image, k), 0, env);
    } else {
      SectorTries(k, Chunk(image, k), 0, env, pos[0]);
      GivesUp(image, k + 1, n, env[pos[0] + 1..], pos[1..]);
    }
  }

  /** It has then sent that sector six times, those before as often as it took, and none behind it. */
  lemma {:induction false} GivesUpAfterSix(image: seq<byte>, k: nat, n: nat, env: seq<Turn>, pos: seq<nat>, j: nat)
    requires k <= n && |env| >= (n - k) * (MAX_RETRY + 1) && |pos| < n - k && Stuck(env, k, pos) && BoardOnly(env)
    requires j >= k
    ensures CountSent(SendAll(image, k, n, env).log, j)
         == if j - k < |pos| then pos[j - k] + 1 else if j - k == |pos| then 6 else 0
    decreases n - k
  {
    hide SendSector, SendAll, Chunk, BoardOnly, CountSent;
    SendAllStep(image, k, n, env);
    SectorCount(k, Chunk(image, k), 0, env, j);
    if pos == [] {
      SectorFails(k, Chunk(image, k), 0, env);
    } else {
      SectorTries(k, Chunk(image, k), 0, env, pos[0]);
      var s, rest := SendSector(k, Chunk(image, k), 0, env), env[pos[0] + 1..];
      SuffixBoard(env, pos[0] + 1);
      CountConcat(s.log, SendAll(image, k + 1, n, rest).log, j);
      if j > k {
        GivesUpAfterSix(image, k + 1, n, rest, pos[1..], j);
      } else {
        SentAtMostSix(image, k + 1, n, rest, j);
      }
    }
  }

  /** One of the two is always the case. */
  lemma {:induction false} ServedOrStuck(env: seq<Turn>, k: nat, n: nat) returns (pos: seq<nat>)
    requires k <= n && |env| >= 6 * (n - k)
    ensures (|pos| == n - k && Served(env, k, pos)) || (|pos| < n - k && Stuck(env, k, pos))
    decreases n - k
  {
    pos := [];
    if k < n && !Unacked(env, k) {
      var p := FirstAck(env, k, 0);
      var rest := ServedOrStuck(env[p + 1..], k + 1, n);
      pos := [p] + rest;
      assert pos[1..] == rest;
    }
  }

  lemma {:induction false} FirstAck(env: seq<Turn>, k: nat, from: nat) returns (p: nat)
    requires from < 6 && |env| >= 6 && !Unacked(env, k)
    requires forall j {:trigger env[j]} :: 0 <= j < from ==> env[j].r != Ack(k)
    ensures AckedAt(env, k, p)
    decreases 6 - from
  {
    p := from;
    if env[from].r != Ack(k) && from < 5 {
      p := FirstAck(env, k, from + 1);
    }
  }

  ghost predicate AllServed(env: seq<Turn>, n: nat) { exists pos :: |pos| == n && Served(env, 0, pos) }

  /** The host gets through exactly when each sector is acknowledged within six responses. */
  lemma ThroughExactly(image: seq<byte>, env: seq<Turn>)
    requires |env| >= Sectors(image) * (MAX_RETRY + 1)
    ensures SendAll(image, 0, Sectors(image), env).ok <==> AllServed(env, Sectors(image))
  {
    hide SendAll, Sectors, Served, Stuck;
    var n := Sectors(image);
    if pos :| |pos| == n && Served(env, 0, pos) {
      GetsThrough(image, 0, n, env, pos);
    } else {
      var pos := ServedOrStuck(env, 0, n);
      GivesUp(image, 0, n, env, pos);
    }
  }

  /** A sector succeeds exactly when its last turn brings the acknowledgement with its own number. */
  lemma {:induction false} SectorAcked(k: nat, data: seq<byte>, a: nat, env: seq<Turn>)
    requires a <= MAX_RETRY && |env| >= MAX_RETRY + 1 - a
    ensures var r := SendSector(k, data, a, env);
      r.log != [] && r.log[0] == Sent(k, data) && r.turns > 0 && r.log[|r.log| - 1] == Got(env[r.turns - 1].r)
        && (r.ok <==> env[r.turns - 1].r == Ack(k))
    decreases MAX_RETRY - a
  {
    if env[0].r != Ack(k) && a < MAX_RETRY {
      SectorAcked(k, data, a + 1, env[1..]);
    }
  }

  /** Frames sent for a number carry that sector of the image. */
  ghost predicate SendsChunks(log: seq<Event>, image: seq<byte>, k: nat, n: nat) {
    forall i {:trigger log[i]} ::
      0 <= i < |log| && log[i].Sent? ==> k <= log[i].k < n && log[i].data == Chunk(image, log[i].k)
  }

  lemma {:induction false} SectorSends(image: seq<byte>, k: nat, a: nat, env: seq<Turn>)
    requires a <= MAX_RETRY && |env| >= MAX_RETRY + 1 - a && BoardOnly(env)
    ensures SendsChunks(SendSector(k, Chunk(image, k), a, env).log, image, k, k + 1)
    decreases MAX_RETRY - a
  {
    hide Chunk;
    var l := TurnLog(k, Chunk(image, k), env[0]);
    assert forall i {:trigger l[i]} :: 0 < i < |l| - 1 ==> l[i] == env[0].board[i - 1];
    if env[0].r != Ack(k) && a < MAX_RETRY {
      SectorSends(image, k, a + 1, env[1..]);
    }
  }

  lemma {:induction false} AllSends(image: seq<byte>, k: nat, n: nat, env: seq<Turn>)
    requires k <= n && |env| >= (n - k) * (MAX_RETRY + 1) && BoardOnly(env)
    ensures SendsChunks(SendAll(image, k, n, env).log, image, k, n)
    decreases n - k
  {
    hide SendSector, Chunk, BoardOnly;
    if k < n {
      var s := SendSector(k, Chunk(image, k), 0, env);
      SectorSends(image, k, 0, env);
      SendAllStep(image, k, n, env);
      if s.ok {
        SuffixBoard(env, s.turns);
        AllSends(image, k + 1, n, env[s.turns..]);
      }
    }
  }

  /** Before anything is sent for sector `j` the host received the acknowledgement with number `j - 1`. */
  ghost predicate InOrder(log: seq<Event>, k: nat) {
    forall i {:trigger log[i]} :: 0 <= i < |log| && log[i].Sent? && log[i].k > k ==> AckedBefore(log, i, log[i].k - 1)
  }

  ghost predicate AckedBefore(log: seq<Event>, i: nat, k: nat) {
    exists j {:trigger log[j]} :: 0 <= j < i && j < |log| && log[j] == Got(Ack(k))
  }

  lemma {:induction false} SendsInOrder(image: seq<byte>, k: nat, n: nat, env: seq<Turn>)
    requires k <= n && |env| >= (n - k) * (MAX_RETRY + 1) && BoardOnly(env)
    ensures InOrder(SendAll(image, k, n, env).log, k)
    ensures SendAll(image, k, n, env).ok ==>
      forall j: nat :: k <= j < n ==> AckedBefore(SendAll(image, k, n, env).log, |SendAll(image, k, n, env).log|, j)
    decreases n - k
  {
    hide SendSector, Chunk, BoardOnly, SendsChunks;
    if k < n {
      var s := SendSector(k, Chunk(image, k), 0, env);
      SectorSends(image, k, 0, env);
      SectorAcked(k, Chunk(image, k), 0, env);
      SendAllStep(image, k, n, env);
      OnlyOwn(s.log, image, k);
      if s.ok {
        SuffixBoard(env, s.turns);
        var rest := SendAll(image, k + 1, n, env[s.turns..]);
        SendsInOrder(image, k + 1, n, env[s.turns..]);
        AllSends(image, k + 1, n, env[s.turns..]);
        Sequence(s.log, rest.log, image, k, n, rest.ok);
      }
    }
  }

  lemma OnlyOwn(log: seq<Event>, image: seq<byte>, k: nat)
    requires SendsChunks(log, image, k, k + 1)
    ensures InOrder(log, k)
  {
  }

  lemma Sequence(a: seq<Event>, b: seq<Event>, image: seq<byte>, k: nat, n: nat, ok: bool)
    requires a != [] && a[|a| - 1] == Got(Ack(k)) && SendsChunks(a, image, k, k + 1)
      && SendsChunks(b, image, k + 1, n) && InOrder(b, k + 1)
    requires ok ==> forall j: nat :: k + 1 <= j < n ==> AckedBefore(b, |b|, j)
    ensures InOrder(a + b, k)
    ensures ok ==> forall j: nat :: k <= j < n ==> AckedBefore(a + b, |a + b|, j)
  {
    hide Chunk;
    var log := a + b;
    assert log[|a| - 1] == Got(Ack(k));
    forall i | 0 <= i < |log| && log[i].Sent? && log[i].k > k
      ensures AckedBefore(log, i, log[i].k - 1)
    {
      assert i >= |a| && log[i] == b[i - |a|];
      if log[i].k > k + 1 {
        var j :| 0 <= j < i - |a| && j < |b| && b[j] == Got(Ack(log[i].k - 1));
        assert log[|a| + j] == b[j];
      }
    }
    forall j: nat | ok && k <= j < n
      ensures AckedBefore(log, |log|, j)
    {
      if j > k {
        assert AckedBefore(b, |b|, j);
        var i :| 0 <= i < |b| && b[i] == Got(Ack(j));
        assert log[|a| + i] == b[i];
      }
    }
  }

  // ---------- What reaches the card ----------

  /**
   The board acknowledges a number only after it stored a frame with that number, it stores only frames
   that arrived intact, and no acknowledgement is left over from before the DATA phase.
   */
  ghost predicate Honest(log: seq<Event>) {
    AcksStores(log) && Intact(log)
  }

  ghost predicate AcksStores(log: seq<Event>) {
    forall i {:trigger log[i]} ::
      0 <= i < |log| && log[i].Got? && log[i].r.Ack? ==> StoredBefore(log, i, log[i].r.seqno)
  }

  ghost predicate Intact(log: seq<Event>) {
    forall i {:trigger log[i]} :: 0 <= i < |log| && log[i].Stored? ==> SentBefore(log, i, log[i].k, log[i].data)
  }

  ghost predicate StoredBefore(log: seq<Event>, i: nat, k: nat) {
    exists j {:trigger log[j]} :: 0 <= j < i && j < |log| && log[j].Stored? && log[j].k == k
  }

  ghost predicate SentBefore(log: seq<Event>, i: nat, k: nat, data: seq<byte>) {
    exists j {:trigger log[j]} :: 0 <= j < i && j < |log| && log[j] == Sent(k, data)
  }

  /** What the card holds in sector `k` in the end: what was stored there last. */
  function Card(log: seq<Event>, k: nat): Option<seq<byte>> {
    if log == [] then None
    else
      var e := log[|log| - 1];
      if e.Stored? && e.k == k then Some(e.data) else Card(log[..|log| - 1], k)
  }

  lemma {:induction false} CardIs(log: seq<Event>, k: nat, d: seq<byte>, i: nat)
    requires i < |log| && log[i].Stored? && log[i].k == k
    requires forall j {:trigger log[j]} :: 0 <= j < |log| && log[j].Stored? && log[j].k == k ==> log[j].data == d
    ensures Card(log, k) == Some(d)
    decreases |log|
  {
    var n := |log| - 1;
    if !(log[n].Stored? && log[n].k == k) {
      CardIs(log[..n], k, d, i);
    }
  }

  lemma {:induction false} CardNone(log: seq<Event>, k: nat)
    requires Card(log, k).Some?
    ensures StoredBefore(log, |log|, k)
    decreases |log|
  {
    var n := |log| - 1;
    if !(log[n].Stored? && log[n].k == k) {
      CardNone(log[..n], k);
      var j :| 0 <= j < n && log[..n][j].Stored? && log[..n][j].k == k;
      assert log[j].Stored? && log[j].k == k;
    }
  }

  /** Whatever is stored for a number is that sector, so the card is right exactly where something was stored. */
  lemma StoredExactly(image: seq<byte>, env: seq<Turn>, k: nat)
    requires |env| >= Sectors(image) * (MAX_RETRY + 1) && BoardOnly(env)
      && Intact(SendAll(image, 0, Sectors(image), env).log)
    ensures var log := SendAll(image, 0, Sectors(image), env).log;
      Card(log, k) == Some(Chunk(image, k)) <==> StoredBefore(log, |log|, k)
  {
    hide SendAll, Chunk, Sectors, BoardOnly, Card;
    var log := SendAll(image, 0, Sectors(image), env).log;
    AllSends(image, 0, Sectors(image), env);
    if StoredBefore(log, |log|, k) {
      var j :| 0 <= j < |log| && log[j].Stored? && log[j].k == k;
      forall m | 0 <= m < |log| && log[m].Stored? && log[m].k == k
        ensures log[m].data == Chunk(image, k)
      {
        assert SentBefore(log, m, k, log[m].data);
      }
      CardIs(log, k, Chunk(image, k), j);
    } else if Card(log, k).Some? {
      CardNone(log, k);
    }
  }

  /** When the host reaches DONE, every sector on the card is that sector of the image padded with zeros. */
  lemma DoneMeansStored(image: seq<byte>, env: seq<Turn>, k: nat)
    requires |env| >= Sectors(image) * (MAX_RETRY + 1) && BoardOnly(env) && k < Sectors(image)
    requires SendAll(image, 0, Sectors(image), env).ok && Honest(SendAll(image, 0, Sectors(image), env).log)
    ensures Card(SendAll(image, 0, Sectors(image), env).log, k) == Some(Chunk(image, k))
  {
    hide SendAll, Chunk, Sectors, BoardOnly, Card, Intact;
    var log := SendAll(image, 0, Sectors(image), env).log;
    SendsInOrder(image, 0, Sectors(image), env);
    hide InOrder;
    assert AckedBefore(log, |log|, k);
    var i :| 0 <= i < |log| && log[i] == Got(Ack(k));
    assert StoredBefore(log, i, k);
    StoredExactly(image, env, k);
  }

  /** The sectors put together are the image and then zeros. */
  lemma ChunksAreImage(image: seq<byte>, i: nat)
    requires i < 512 * Sectors(image)
    ensures Chunk(image, i / 512)[i % 512] == if i < |image| then image[i] else 0
    ensures |image| <= 512 * Sectors(image) < |image| + 512
  {
    var k := i / SECTOR_SIZE;
    assert i == k * SECTOR_SIZE + i % SECTOR_SIZE;
  }

  // ---------- Responses left over from before the DATA phase ----------

  /** The responses `left` are still in the host's receive buffer, and are delivered before any other. */
  function Deliver(left: seq<Response>, env: seq<Turn>): (r: seq<Turn>)
    ensures |r| == |env|
    ensures forall i {:trigger r[i]} ::
      0 <= i < |r| ==> r[i] == if i < |left| then Turn(env[i].board, left[i]) else env[i]
  {
    seq(|env|, i requires 0 <= i < |env| => if i < |left| then Turn(env[i].board, left[i]) else env[i])
  }

  function CountGot(log: seq<Event>): nat {
    if log == [] then 0 else CountGot(log[..|log| - 1]) + if log[|log| - 1].Got? then 1 else 0
  }

  /** From the response number `m` on, acknowledgements are honest. */
  ghost predicate LaterHonest(log: seq<Event>, m: nat) {
    forall i {:trigger log[i]} :: 0 <= i < |log| && log[i].Got? && log[i].r.Ack? && CountGot(log[..i]) >= m ==>
      StoredBefore(log, i, log[i].r.seqno)
  }

  /** With these leftovers the host reaches DONE although a sector is missing on the card. */
  ghost predicate Loses(image: seq<byte>, left: seq<Response>, env: seq<Turn>) {
    && |env| >= Sectors(image) * (MAX_RETRY + 1) && |env| >= |left| && BoardOnly(env)
    && var r := SendAll(image, 0, Sectors(image), Deliver(left, env));
       && r.ok && Intact(r.log) && LaterHonest(r.log, |left|)
       && exists k: nat :: k < Sectors(image) && Card(r.log, k) != Some(Chunk(image, k))
  }

  lemma {:induction false} CountGotConcat(a: seq<Event>, b: seq<Event>)
    ensures CountGot(a + b) == CountGot(a) + CountGot(b)
    decreases |b|
  {
    if b == [] {
      assert a + b == a;
    } else {
      CountGotConcat(a, b[..|b| - 1]);
      assert (a + b)[..|a + b| - 1] == a + b[..|b| - 1];
    }
  }

  lemma {:induction false} NoGot(b: seq<Event>)
    requires forall j {:trigger b[j]} :: 0 <= j < |b| ==> !b[j].Got?
    ensures CountGot(b) == 0
  {
    if b != [] {
      NoGot(b[..|b| - 1]);
    }
  }

  /** One turn brings one response. */
  lemma TurnGots(k: nat, data: seq<byte>, env: seq<Turn>)
    requires env != [] && BoardOnly(env)
    ensures var l := TurnLog(k, data, env[0]); CountGot(l) == 1 && CountGot(l[..|l| - 1]) == 0
  {
    var l := TurnLog(k, data, env[0]);
    var head := [Sent(k, data)] + env[0].board;
    assert l[..|l| - 1] == head;
    assert forall j {:trigger head[j]} :: 0 < j < |head| ==> head[j] == env[0].board[j - 1];
    NoGot(head);
  }

  lemma {:induction false} SectorGots(k: nat, data: seq<byte>, a: nat, env: seq<Turn>)
    requires a <= MAX_RETRY && |env| >= MAX_RETRY + 1 - a && BoardOnly(env)
    ensures var r := SendSector(k, data, a, env);
      CountGot(r.log) == r.turns && r.log != [] && CountGot(r.log[..|r.log| - 1]) == r.turns - 1
    decreases MAX_RETRY - a
  {
    hide TurnLog, CountGot;
    TurnGots(k, data, env);
    var l := TurnLog(k, data, env[0]);
    TurnLast(k, data, env[0]);
    if env[0].r != Ack(k) && a < MAX_RETRY {
      SuffixBoard(env, 1);
      SectorGots(k, data, a + 1, env[1..]);
      var r := SendSector(k, data, a + 1, env[1..]);
      CountGotConcat(l, r.log);
      CountGotConcat(l, r.log[..|r.log| - 1]);
      assert (l + r.log)[..|l + r.log| - 1] == l + r.log[..|r.log| - 1];
    }
  }

  lemma TurnLast(k: nat, data: seq<byte>, t: Turn)
    ensures TurnLog(k, data, t) != [] && TurnLog(k, data, t)[|TurnLog(k, data, t)| - 1] == Got(t.r)
  {
  }

  /** The acknowledgement of `k` was received, as response number `m` or later. */
  ghost predicate AckedLate(log: seq<Event>, m: nat, k: nat) {
    exists i {:trigger log[i]} :: 0 <= i < |log| && log[i] == Got(Ack(k)) && CountGot(log[..i]) >= m
  }

  /** When the first `m` responses do not acknowledge the first sector, all acknowledgements come after them. */
  lemma {:induction false} LateAcks(image: seq<byte>, k: nat, n: nat, env: seq<Turn>, m: nat, j: nat)
    requires k <= j < n && |env| >= (n - k) * (MAX_RETRY + 1) && BoardOnly(env) && SendAll(image, k, n, env).ok
    requires forall i {:trigger env[i]} :: 0 <= i < m && i < |env| ==> env[i].r != Ack(k)
    ensures AckedLate(SendAll(image, k, n, env).log, m, j)
    decreases n - k
  {
    hide SendAll, SendSector, Chunk, BoardOnly, CountGot;
    var s := SendSector(k, Chunk(image, k), 0, env);
    SendAllStep(image, k, n, env);
    SectorAcked(k, Chunk(image, k), 0, env);
    SectorGots(k, Chunk(image, k), 0, env);
    var rest := SendAll(image, k + 1, n, env[s.turns..]);
    var log := s.log + rest.log;
    if j == k {
      var i := |s.log| - 1;
      assert log[i] == Got(Ack(k)) && log[..i] == s.log[..i];
    } else {
      SuffixBoard(env, s.turns);
      LateAcks(image, k + 1, n, env[s.turns..], 0, j);
      var i :| 0 <= i < |rest.log| && rest.log[i] == Got(Ack(j)) && CountGot(rest.log[..i]) >= 0;
      assert log[|s.log| + i] == Got(Ack(j)) && log[..|s.log| + i] == s.log + rest.log[..i];
      CountGotConcat(s.log, rest.log[..i]);
    }
  }

  /** Without an acknowledgement of sector 0 among the leftovers, DONE means that every sector is stored. */
  lemma NoLeftoverSafe(image: seq<byte>, left: seq<Response>, env: seq<Turn>, k: nat)
    requires |env| >= Sectors(image) * (MAX_RETRY + 1) && |env| >= |left| && BoardOnly(env) && Ack(0) !in left
      && k < Sectors(image)
    requires var r := SendAll(image, 0, Sectors(image), Deliver(left, env));
      r.ok && Intact(r.log) && LaterHonest(r.log, |left|)
    ensures Card(SendAll(image, 0, Sectors(image), Deliver(left, env)).log, k) == Some(Chunk(image, k))
  {
    var env' := Deliver(left, env);
    DeliverBoard(left, env);
    hide SendAll, Chunk, Sectors, BoardOnly, Card, Intact, CountGot;
    var log := SendAll(image, 0, Sectors(image), env').log;
    LateAcks(image, 0, Sectors(image), env', |left|, k);
    var i :| 0 <= i < |log| && log[i] == Got(Ack(k)) && CountGot(log[..i]) >= |left|;
    assert StoredBefore(log, i, k);
    StoredExactly(image, env', k);
  }

  lemma DeliverBoard(left: seq<Response>, env: seq<Turn>)
    requires BoardOnly(env)
    ensures BoardOnly(Deliver(left, env))
  {
    var d := Deliver(left, env);
    forall i, j | 0 <= i < |d| && 0 <= j < |d[i].board|
      ensures d[i].board[j].Stored?
    {
      assert d[i].board == env[i].board;
    }
  }

  // ---------- How a leftover acknowledgement loses a sector ----------

  /** The board in the bad run: idle while leftovers are delivered, then it stores and acknowledges at once. */
  function BadTurn(image: seq<byte>, k: nat, left: seq<Response>): Turn {
    if left != [] then Turn([], left[0]) else Turn([Stored(k, Chunk(image, k))], Ack(k))
  }

  function Rest(left: seq<Response>): seq<Response> { if left == [] then [] else left[1..] }

  /** The next response acknowledges sector `k`. */
  predicate Accepts(k: nat, left: seq<Response>) { left == [] || left[0] == Ack(k) }

  /** The turns of that run, with the host at sector `k`. */
  function Plan(image: seq<byte>, k: nat, n: nat, left: seq<Response>): seq<Turn>
    requires k <= n
    decreases n - k, |left|
  {
    if k == n then [] else [BadTurn(image, k, left)] + Plan(image, if Accepts(k, left) then k + 1 else k, n, Rest(left))
  }

  /** The log of that run. */
  function PlanLog(image: seq<byte>, k: nat, n: nat, left: seq<Response>): seq<Event>
    requires k <= n
    decreases n - k, |left|
  {
    if k == n then []
    else TurnLog(k, Chunk(image, k), BadTurn(image, k, left))
         + PlanLog(image, if Accepts(k, left) then k + 1 else k, n, Rest(left))
  }

  /**
   The host, at attempt `a` for sector `k` of `n`, gets through the leftovers: each sector it comes to is acknowledged
   by one of them before its attempts are used up, until they or the sectors are at an end.
   */
  predicate Survives(k: nat, a: nat, n: nat, left: seq<Response>)
    decreases |left|
  {
    k >= n || left == []
    || if left[0] == Ack(k) then Survives(k + 1, 0, n, left[1..])
       else a < MAX_RETRY && Survives(k, a + 1, n, left[1..])
  }

  /** The rest of a transfer, from attempt `a` for sector `k` on. */
  function SendFrom(image: seq<byte>, k: nat, a: nat, n: nat, env: seq<Turn>): Run
    requires k < n && a <= MAX_RETRY && |env| >= MAX_RETRY + 1 - a + (n - k - 1) * (MAX_RETRY + 1)
  {
    var s := SendSector(k, Chunk(image, k), a, env);
    if !s.ok then s
    else
      var r := SendAll(image, k + 1, n, env[s.turns..]);
      Run(s.log + r.log, r.ok, s.turns + r.turns)
  }

  lemma FromRetry(image: seq<byte>, k: nat, a: nat, n: nat, env: seq<Turn>)
    requires k < n && a < MAX_RETRY && |env| >= MAX_RETRY + 1 - a + (n - k - 1) * (MAX_RETRY + 1) && env[0].r != Ack(k)
    ensures var r := SendFrom(image, k, a + 1, n, env[1..]);
      SendFrom(image, k, a, n, env).ok == r.ok
        && SendFrom(image, k, a, n, env).log == TurnLog(k, Chunk(image, k), env[0]) + r.log
  {
    hide Chunk, TurnLog, SendAll;
    var l, s := TurnLog(k, Chunk(image, k), env[0]), SendSector(k, Chunk(image, k), a + 1, env[1..]);
    assert SendSector(k, Chunk(image, k), a, env) == Run(l + s.log, s.ok, s.turns + 1);
    if s.ok {
      assert env[1..][s.turns..] == env[s.turns + 1..];
      var r := SendAll(image, k + 1, n, env[s.turns + 1..]);
      assert (l + s.log) + r.log == l + (s.log + r.log);
    }
  }

  lemma FromAck(image: seq<byte>, k: nat, a: nat, n: nat, env: seq<Turn>)
    requires k < n && a <= MAX_RETRY && |env| >= MAX_RETRY + 1 - a + (n - k - 1) * (MAX_RETRY + 1) && env[0].r == Ack(k)
    ensures var r := SendAll(image, k + 1, n, env[1..]);
      SendFrom(image, k, a, n, env).ok == r.ok
        && SendFrom(image, k, a, n, env).log == TurnLog(k, Chunk(image, k), env[0]) + r.log
  {
    hide Chunk, TurnLog, SendAll;
  }

  /** The host's run over that plan. */
  lemma {:induction false} PlanRun(image: seq<byte>, k: nat, a: nat, n: nat, left: seq<Response>, env: seq<Turn>)
    requires k < n && a <= MAX_RETRY && Survives(k, a, n, left)
    requires |env| >= MAX_RETRY + 1 - a + (n - k - 1) * (MAX_RETRY + 1) && Plan(image, k, n, left) <= env
    ensures var r := SendFrom(image, k, a, n, env); r.ok && r.log == PlanLog(image, k, n, left)
    decreases n - k, |left|
  {
    hide Chunk, SendFrom, SendAll, SendSector, BadTurn, TurnLog;
    BadResponse(image, k, left);
    var k' := if Accepts(k, left) then k + 1 else k;
    var plan := Plan(image, k, n, left);
    assert plan[0] == BadTurn(image, k, left) == env[0];
    assert plan[1..] == Plan(image, k', n, Rest(left));
    PlanPrefix(plan, env, Plan(image, k', n, Rest(left)));
    if Accepts(k, left) {
      FromAck(image, k, a, n, env);
      if k + 1 < n {
        PlanRun(image, k + 1, 0, n, Rest(left), env[1..]);
        SendAllIsFrom(image, k + 1, n, env[1..]);
      } else {
        SendAllEnd(image, n, env[1..]);
      }
    } else {
      FromRetry(image, k, a, n, env);
      PlanRun(image, k, a + 1, n, left[1..], env[1..]);
    }
  }

  lemma BadResponse(image: seq<byte>, k: nat, left: seq<Response>)
    ensures BadTurn(image, k, left).r == Ack(k) <==> Accepts(k, left)
    ensures left != [] ==> BadTurn(image, k, left) == Turn([], left[0])
  {
  }

  lemma PlanPrefix(plan: seq<Turn>, env: seq<Turn>, rest: seq<Turn>)
    requires plan <= env && plan != [] && plan[1..] == rest
    ensures rest <= env[1..]
  {
  }

  lemma SendAllIsFrom(image: seq<byte>, k: nat, n: nat, env: seq<Turn>)
    requires k < n && |env| >= (n - k) * (MAX_RETRY + 1)
    ensures SendAll(image, k, n, env) == SendFrom(image, k, 0, n, env)
  {
    SendAllStep(image, k, n, env);
  }

  /** In that log frames are stored only as sent, and only leftovers are acknowledged without being stored. */
  lemma {:induction false} PlanHonest(image: seq<byte>, k: nat, n: nat, left: seq<Response>)
    requires k <= n
    ensures Intact(PlanLog(image, k, n, left)) && LaterHonest(PlanLog(image, k, n, left), |left|)
    ensures forall i {:trigger PlanLog(image, k, n, left)[i]} ::
      0 <= i < |PlanLog(image, k, n, left)| && PlanLog(image, k, n, left)[i].Stored? ==>
      PlanLog(image, k, n, left)[i].k >= k && (left != [] && left[0] == Ack(k) ==> PlanLog(image, k, n, left)[i].k > k)
    decreases n - k, |left|
  {
    hide Chunk, Intact, LaterHonest, CountGot;
    if k == n {
      EmptyHonest(|left|);
    } else {
      var k' := if Accepts(k, left) then k + 1 else k;
      PlanHonest(image, k', n, Rest(left));
      var l, rest := TurnLog(k, Chunk(image, k), BadTurn(image, k, left)), PlanLog(image, k', n, Rest(left));
      BadTurnLog(image, k, left);
      IntactJoin(l, rest);
      if left == [] {
        HonestJoin(l, rest);
      } else {
        LaterJoin(l, rest, |Rest(left)|);
      }
    }
  }

  lemma EmptyHonest(m: nat)
    ensures Intact([]) && LaterHonest([], m)
  {
  }

  /** A turn of the bad run by itself: its frame is stored as sent; it is honest unless it delivers a leftover. */
  lemma BadTurnLog(image: seq<byte>, k: nat, left: seq<Response>)
    ensures var l := TurnLog(k, Chunk(image, k), BadTurn(image, k, left));
      && Intact(l) && CountGot(l) == 1
      && (left == [] ==> l == [Sent(k, Chunk(image, k)), Stored(k, Chunk(image, k)), Got(Ack(k))] && AcksStores(l))
      && (left != [] ==> l == [Sent(k, Chunk(image, k)), Got(left[0])])
  {
    hide Chunk, CountGot;
    var c := Chunk(image, k);
    var l := TurnLog(k, c, BadTurn(image, k, left));
    assert BoardOnly([BadTurn(image, k, left)]);
    TurnGots(k, c, [BadTurn(image, k, left)]);
    if left == [] {
      assert l == [Sent(k, c), Stored(k, c), Got(Ack(k))];
      assert l[0] == Sent(k, c) && l[1] == Stored(k, c) && l[2] == Got(Ack(k));
      assert SentBefore(l, 1, k, c) && StoredBefore(l, 2, k);
    }
  }

  lemma IntactJoin(a: seq<Event>, b: seq<Event>)
    requires Intact(a) && Intact(b)
    ensures Intact(a + b)
  {
    var log := a + b;
    forall i | 0 <= i < |log| && log[i].Stored?
      ensures SentBefore(log, i, log[i].k, log[i].data)
    {
      if i < |a| {
        assert SentBefore(a, i, a[i].k, a[i].data);
        var j :| 0 <= j < i && j < |a| && a[j] == Sent(a[i].k, a[i].data);
        assert log[j] == a[j];
      } else {
        assert SentBefore(b, i - |a|, b[i - |a|].k, b[i - |a|].data);
        var j :| 0 <= j < i - |a| && j < |b| && b[j] == Sent(b[i - |a|].k, b[i - |a|].data);
        assert log[|a| + j] == b[j];
      }
    }
  }

  lemma HonestJoin(a: seq<Event>, b: seq<Event>)
    requires AcksStores(a) && LaterHonest(b, 0)
    ensures LaterHonest(a + b, 0)
  {
    hide CountGot;
    var log := a + b;
    forall i | 0 <= i < |log| && log[i].Got? && log[i].r.Ack?
      ensures StoredBefore(log, i, log[i].r.seqno)
    {
      var c, d := if i < |a| then a else b, if i < |a| then 0 else |a|;
      assert c[i - d] == log[i] && StoredBefore(c, i - d, log[i].r.seqno);
      var j :| 0 <= j < i - d && j < |c| && c[j].Stored? && c[j].k == log[i].r.seqno;
      assert log[d + j] == c[j];
    }
  }

  /** One response before a log that is honest from response `m` on. */
  lemma LaterJoin(a: seq<Event>, b: seq<Event>, m: nat)
    requires CountGot(a) == 1 && LaterHonest(b, m)
    ensures LaterHonest(a + b, m + 1)
  {
    hide CountGot;
    var log := a + b;
    forall i | |a| <= i < |log| && log[i].Got? && log[i].r.Ack? && CountGot(log[..i]) >= m + 1
      ensures StoredBefore(log, i, log[i].r.seqno)
    {
      assert log[..i] == a + b[..i - |a|];
      CountGotConcat(a, b[..i - |a|]);
      assert StoredBefore(b, i - |a|, b[i - |a|].r.seqno);
      var j :| 0 <= j < i - |a| && j < |b| && b[j].Stored? && b[j].k == b[i - |a|].r.seqno;
      assert log[|a| + j] == b[j];
    }
    forall i | 0 <= i < |a| && log[i].Got?
      ensures CountGot(log[..i]) < 1
    {
      assert log[..i] == a[..i];
      GotBound(a, i);
    }
  }

  lemma GotBound(a: seq<Event>, i: nat)
    requires i < |a| && a[i].Got?
    ensures CountGot(a[..i]) < CountGot(a)
  {
    assert a == a[..i] + [a[i]] + a[i + 1..];
    CountGotConcat(a[..i] + [a[i]], a[i + 1..]);
    CountGotConcat(a[..i], [a[i]]);
    assert [a[i]][..0] == [];
    assert CountGot([a[i]]) == 1;
  }

  lemma {:induction false} NotStored(log: seq<Event>, k: nat)
    requires forall i {:trigger log[i]} :: 0 <= i < |log| && log[i].Stored? ==> log[i].k != k
    ensures Card(log, k) == None
    decreases |log|
  {
    if log != [] {
      NotStored(log[..|log| - 1], k);
    }
  }

  /** The turns of the plan deliver the leftovers. */
  lemma {:induction false} PlanDelivers(image: seq<byte>, k: nat, n: nat, left: seq<Response>, i: nat)
    requires k <= n && i < |Plan(image, k, n, left)|
    ensures i < |left| ==> Plan(image, k, n, left)[i].r == left[i]
    ensures forall j {:trigger Plan(image, k, n, left)[i].board[j]} ::
      0 <= j < |Plan(image, k, n, left)[i].board| ==> Plan(image, k, n, left)[i].board[j].Stored?
    decreases n - k, |left|
  {
    hide Chunk;
    if i > 0 {
      PlanDelivers(image, if Accepts(k, left) then k + 1 else k, n, Rest(left), i - 1);
    }
  }

  /** The stored frames of the bad run: a sector that a leftover acknowledged is not among them. */
  lemma {:induction false} PlanMisses(image: seq<byte>, n: nat, left: seq<Response>, p: nat, i: nat)
    requires 0 < n && p < |left| && left[p] == Ack(0) && i < |PlanLog(image, 0, n, left)|
      && PlanLog(image, 0, n, left)[i].Stored?
    ensures PlanLog(image, 0, n, left)[i].k > 0
    decreases |left|
  {
    hide Chunk;
    PlanHonest(image, 0, n, left);
    BadTurnLog(image, 0, left);
    if left[0] != Ack(0) {
      PlanMisses(image, n, left[1..], p - 1, i - 2);
    }
  }

  /** A run in which the first sector is lost, for any leftovers that acknowledge it. */
  lemma LeftoverLoses(image: seq<byte>, left: seq<Response>) returns (env: seq<Turn>)
    requires image != [] && Ack(0) in left && Survives(0, 0, Sectors(image), left)
    ensures Loses(image, left, env)
  {
    var n := Sectors(image);
    assert n > 0;
    var plan := Plan(image, 0, n, left);
    var pad := seq(n * (MAX_RETRY + 1) + |left|, _ => Turn([], Timeout));
    env := plan + pad;
    var env' := Deliver(left, env);
    hide Chunk, Sectors, SendAll, Plan, PlanLog, Intact, LaterHonest, Card;
    forall i | 0 <= i < |plan|
      ensures env'[i] == plan[i]
        && forall j {:trigger plan[i].board[j]} :: 0 <= j < |plan[i].board| ==> plan[i].board[j].Stored?
    {
      PlanDelivers(image, 0, n, left, i);
    }
    assert BoardOnly(env);
    assert plan <= env';
    var p :| 0 <= p < |left| && left[p] == Ack(0);
    PlanRun(image, 0, 0, n, left, env');
    SendAllIsFrom(image, 0, n, env');
    PlanHonest(image, 0, n, left);
    var log := PlanLog(image, 0, n, left);
    forall i | 0 <= i < |log| && log[i].Stored?
      ensures log[i].k != 0
    {
      PlanMisses(image, n, left, p, i);
    }
    NotStored(log, 0);
    assert 0 < n && Card(log, 0) != Some(Chunk(image, 0));
  }

  /** A host that gets through got through the leftovers. */
  lemma {:induction false} OkSurvives(image: seq<byte>, k: nat, a: nat, n: nat, left: seq<Response>, env: seq<Turn>)
    requires k < n && a <= MAX_RETRY && |env| >= MAX_RETRY + 1 - a + (n - k - 1) * (MAX_RETRY + 1)
    requires |env| >= |left| && forall i {:trigger env[i]} :: 0 <= i < |left| ==> env[i].r == left[i]
    requires SendFrom(image, k, a, n, env).ok
    ensures Survives(k, a, n, left)
    decreases |left|
  {
    hide Chunk, SendAll, TurnLog;
    if left != [] {
      assert forall i {:trigger env[1..][i]} :: 0 <= i < |left| - 1 ==> env[1..][i].r == left[1..][i];
      if left[0] != Ack(k) {
        assert a < MAX_RETRY;
        hide SendFrom;
        FromRetry(image, k, a, n, env);
        OkSurvives(image, k, a + 1, n, left[1..], env[1..]);
      } else if k + 1 < n {
        FromAck(image, k, a, n, env);
        hide SendFrom;
        SendAllIsFrom(image, k + 1, n, env[1..]);
        OkSurvives(image, k + 1, 0, n, left[1..], env[1..]);
      }
    }
  }

  /**
   The exact condition under which DONE can be reached with a sector missing, although the board acknowledges only
   what it stored: among the responses left over when the DATA phase begins is an acknowledgement of sector 0, and
   the others do not make the host give up.
   */
  lemma LeftoverExactly(image: seq<byte>, left: seq<Response>)
    requires image != []
    ensures (exists env :: Loses(image, left, env)) <==> Ack(0) in left && Survives(0, 0, Sectors(image), left)
  {
    if Ack(0) in left && Survives(0, 0, Sectors(image), left) {
      var env := LeftoverLoses(image, left);
    }
    if env :| Loses(image, left, env) {
      var n, env' := Sectors(image), Deliver(left, env);
      assert n > 0;
      hide Sectors, SendAll, Chunk, Survives, Intact, LaterHonest, Card;
      if Ack(0) !in left {
        var k: nat :| k < n && Card(SendAll(image, 0, n, env').log, k) != Some(Chunk(image, k));
        NoLeftoverSafe(image, left, env, k);
      }
      SendAllIsFrom(image, 0, n, env');
      OkSurvives(image, 0, 0, n, left, env');
    }
  }

  /** Six leftovers or fewer, of which one acknowledges sector 0, never make the host give up. */
  lemma FewLeftovers(n: nat, left: seq<Response>)
    requires |left| <= MAX_RETRY + 1 && Ack(0) in left
    ensures Survives(0, 0, n, left)
  {
    FewSurvive(0, 0, n, left);
  }

  lemma {:induction false} FewSurvive(k: nat, a: nat, n: nat, left: seq<Response>)
    requires a + |left| <= MAX_RETRY || (a + |left| == MAX_RETRY + 1 && Ack(k) in left)
    ensures Survives(k, a, n, left)
    decreases |left|
  {
    if left != [] && k < n {
      assert left == [left[0]] + left[1..];
      if left[0] == Ack(k) {
        FewSurvive(k + 1, 0, n, left[1..]);
      } else {
        FewSurvive(k, a + 1, n, left[1..]);
      }
    }
  }

  /** For instance a one-byte image and the acknowledgement of the handshake. */
  lemma LeftoverExample() returns (env: seq<Turn>)
    ensures Loses([7], [Ack(0)], env)
  {
    FewLeftovers(1, [Ack(0)]);
    env := LeftoverLoses([7], [Ack(0)]);
  }
}
