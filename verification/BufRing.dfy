/**
 Buffers and bucket rings of kernel/fs/bio.c as values: a ring is the sequence of buffers from
 `head.next` on, `home` says which ring each buffer is on.
 */
module BufRing {
  import opened Bytes
  import opened Lists

  type Data = seq<byte>

  datatype Buf = Buf(valid: bool, blockno: nat, refcnt: nat, referenced: bool, data: Data)

  /** The buffer is referenced or holds the contents of its block. */
  predicate Live(b: Buf) { b.valid || b.refcnt > 0 }

  /** On the ring of a bucket, or taken off every ring by the processor that is about to reuse it. */
  datatype Home = OnRing(bucket: nat) | Private(cpu: nat)

  // ---------- Rings ----------

  /** The buffer after `b`, or `head`. */
  function NextOf(r: seq<nat>, b: nat, head: nat): (n: nat)
    ensures n == head || n in r
  {
    if r == [] then head
    else if r[0] == b then (if |r| > 1 then r[1] else head)
    else NextOf(r[1..], b, head)
  }

  lemma {:induction false} NextAt(r: seq<nat>, i: nat, head: nat)
    requires i < |r| && NoDup(r)
    ensures NextOf(r, r[i], head) == if i + 1 < |r| then r[i + 1] else head
    ensures i + 1 < |r| ==> r[i + 1] != r[i]
  {
    if i > 0 {
      NextAt(r[1..], i - 1, head);
    }
  }

  /** The first buffer on the ring that is tagged with block `x`: what the hit loop of `bget` finds. */
  function Find(r: seq<nat>, buf: seq<Buf>, x: nat): (f: Option<nat>)
    requires forall i :: 0 <= i < |r| ==> r[i] < |buf|
    ensures f.Some? ==> f.value in r && f.value < |buf| && buf[f.value].blockno == x
    ensures f.None? ==> forall b :: b in r ==> buf[b].blockno != x
  {
    if r == [] then None
    else if buf[r[0]].blockno == x then Some(r[0])
    else Find(r[1..], buf, x)
  }

  /** Unlinking another buffer does not change what is found. */
  lemma {:induction false} FindWithout(r: seq<nat>, buf: seq<Buf>, x: nat, b: nat)
    requires NoDup(r) && (forall i :: 0 <= i < |r| ==> r[i] < |buf|) && Find(r, buf, x) != Some(b)
    ensures forall i :: 0 <= i < |Without(r, b)| ==> Without(r, b)[i] < |buf|
    ensures Find(Without(r, b), buf, x) == Find(r, buf, x)
  {
    WithoutIs(r, b);
    assert forall i :: 0 <= i < |Without(r, b)| ==> Without(r, b)[i] in r;
    if r != [] && r[0] != b && buf[r[0]].blockno != x {
      FindWithout(r[1..], buf, x, b);
    }
  }

  /** What is found depends on the tags of the buffers on the ring only. */
  lemma {:induction false} FindSame(r: seq<nat>, buf: seq<Buf>, buf': seq<Buf>, x: nat)
    requires |buf'| == |buf| && forall i :: 0 <= i < |r| ==> r[i] < |buf|
    requires forall b {:trigger buf'[b]} :: b in r ==> buf'[b].blockno == buf[b].blockno
    ensures Find(r, buf', x) == Find(r, buf, x)
  {
    if r != [] {
      assert r[0] in r;
      FindSame(r[1..], buf, buf', x);
    }
  }

  // ---------- The invariant of rings ----------

  /** Every buffer is on exactly the ring its `home` names, once, or private; hands point into their rings. */
  ghost predicate Rings(buf: seq<Buf>, ring: seq<seq<nat>>, hand: seq<nat>, home: seq<Home>) {
    && |ring| == |hand| > 0 && |home| == |buf|
    && (forall k {:trigger ring[k]} :: 0 <= k < |ring| ==> RingOk(buf, ring[k], hand[k]))
    && (forall k, b {:trigger b in ring[k]} ::
        0 <= k < |ring| && 0 <= b < |buf| ==> (b in ring[k] <==> home[b] == OnRing(k)))
    && (forall b {:trigger home[b]} :: 0 <= b < |buf| && home[b].OnRing? ==> home[b].bucket < |ring|)
  }

  ghost predicate RingOk(buf: seq<Buf>, r: seq<nat>, hand: nat) {
    NoDup(r) && (forall i :: 0 <= i < |r| ==> r[i] < |buf|) && (hand == |buf| || hand in r)
  }

  /** A live buffer that is on a ring is on the ring of its block, and is the one the hit loop finds there. */
  ghost predicate Placed(buf: seq<Buf>, ring: seq<seq<nat>>, home: seq<Home>)
    requires |home| == |buf| && |ring| > 0
      && forall k, i :: 0 <= k < |ring| && 0 <= i < |ring[k]| ==> ring[k][i] < |buf|
  {
    forall b {:trigger Live(buf[b])} :: 0 <= b < |buf| && home[b].OnRing? && Live(buf[b]) ==>
      Find(ring[buf[b].blockno % |ring|], buf, buf[b].blockno) == Some(b)
  }

  ghost predicate RingsInv(buf: seq<Buf>, ring: seq<seq<nat>>, hand: seq<nat>, home: seq<Home>) {
    && Rings(buf, ring, hand, home)
    && (forall k, i :: 0 <= k < |ring| && 0 <= i < |ring[k]| ==> ring[k][i] < |buf|)
    && Placed(buf, ring, home)
  }

  /** At most one live buffer exists per block, not counting those just taken off their rings. */
  lemma LiveUnique(buf: seq<Buf>, ring: seq<seq<nat>>, hand: seq<nat>, home: seq<Home>, b: nat, b': nat)
    requires RingsInv(buf, ring, hand, home)
    requires b < |buf| && b' < |buf| && home[b].OnRing? && home[b'].OnRing? && Live(buf[b]) && Live(buf[b'])
      && buf[b].blockno == buf[b'].blockno
    ensures b == b'
  {
    assert Live(buf[b]) && Live(buf[b']);
  }

  // ---------- Steps ----------

  /** Only reference bits and counts changed, and counts only of buffers that stay on their rings. */
  ghost predicate SameTags(buf: seq<Buf>, buf': seq<Buf>) {
    |buf'| == |buf|
      && forall b {:trigger buf'[b]} ::
         0 <= b < |buf| ==> buf'[b].blockno == buf[b].blockno && (Live(buf'[b]) ==> Live(buf[b]))
  }

  lemma SameTagsInv(buf: seq<Buf>, buf': seq<Buf>, ring: seq<seq<nat>>, hand: seq<nat>, home: seq<Home>)
    requires RingsInv(buf, ring, hand, home) && SameTags(buf, buf')
    ensures RingsInv(buf', ring, hand, home)
  {
    hide Find;
    forall b | 0 <= b < |buf'| && home[b].OnRing? && Live(buf'[b])
      ensures Find(ring[buf'[b].blockno % |ring|], buf', buf'[b].blockno) == Some(b)
    {
      var r := ring[buf[b].blockno % |ring|];
      assert Live(buf[b]);
      assert forall c :: c in r ==> 0 <= c < |buf|;
      FindSame(r, buf, buf', buf[b].blockno);
    }
  }

  /** A hand that moves along its ring. */
  lemma HandInv(buf: seq<Buf>, ring: seq<seq<nat>>, hand: seq<nat>, home: seq<Home>, k: nat, h: nat)
    requires RingsInv(buf, ring, hand, home) && k < |ring| && (h == |buf| || h in ring[k])
    ensures RingsInv(buf, ring, hand[k := h], home)
  {
    hide Find;
  }

  /** The buffer found for block `x` becomes live. */
  lemma HitInv(buf: seq<Buf>, ring: seq<seq<nat>>, hand: seq<nat>, home: seq<Home>, x: nat, b: nat, e: Buf)
    requires RingsInv(buf, ring, hand, home) && Find(ring[x % |ring|], buf, x) == Some(b) && e.blockno == x
    ensures b < |buf| && RingsInv(buf[b := e], ring, hand, home)
  {
    hide Find;
    var buf' := buf[b := e];
    forall c | 0 <= c < |buf'| && home[c].OnRing? && Live(buf'[c])
      ensures Find(ring[buf'[c].blockno % |ring|], buf', buf'[c].blockno) == Some(c)
    {
      assert c != b ==> Live(buf[c]);
      FindSame(ring[buf'[c].blockno % |ring|], buf, buf', buf'[c].blockno);
    }
  }

  /** Unlinking the victim `v` from ring `k`. */
  ghost predicate Unlinked(ring: seq<seq<nat>>, home: seq<Home>, ring': seq<seq<nat>>, home': seq<Home>, k: nat,
                           v: nat, cpu: nat) {
    && k < |ring| && v < |home| && v in ring[k]
    && ring' == ring[k := Without(ring[k], v)] && home' == home[v := Private(cpu)]
  }

  lemma UnlinkRings(buf: seq<Buf>, ring: seq<seq<nat>>, hand: seq<nat>, home: seq<Home>, ring': seq<seq<nat>>,
                    home': seq<Home>, k: nat, v: nat, cpu: nat)
    requires Rings(buf, ring, hand, home) && Unlinked(ring, home, ring', home', k, v, cpu) && hand[k] != v
    ensures Rings(buf, ring', hand, home')
  {
    WithoutIs(ring[k], v);
    assert home[v] == OnRing(k);
    assert RingOk(buf, ring[k], hand[k]);
    forall i | 0 <= i < |ring'[k]|
      ensures ring'[k][i] < |buf|
    {
      assert ring'[k][i] in ring[k];
    }
    forall j, b | 0 <= j < |ring'| && 0 <= b < |buf|
      ensures b in ring'[j] <==> home'[b] == OnRing(j)
    {
      assert b in ring[j] <==> home[b] == OnRing(j);
    }
  }

  /** Every live buffer left on a ring stays where it is found. */
  lemma UnlinkInv(buf: seq<Buf>, ring: seq<seq<nat>>, hand: seq<nat>, home: seq<Home>, ring': seq<seq<nat>>,
                  home': seq<Home>, k: nat, v: nat, cpu: nat)
    requires RingsInv(buf, ring, hand, home) && Unlinked(ring, home, ring', home', k, v, cpu) && hand[k] != v
    ensures RingsInv(buf, ring', hand, home')
  {
    hide Find;
    UnlinkRings(buf, ring, hand, home, ring', home', k, v, cpu);
    forall j, i | 0 <= j < |ring'| && 0 <= i < |ring'[j]|
      ensures ring'[j][i] < |buf|
    {
      assert RingOk(buf, ring'[j], hand[j]);
    }
    forall b | 0 <= b < |buf| && home'[b].OnRing? && Live(buf[b])
      ensures Find(ring'[buf[b].blockno % |ring|], buf, buf[b].blockno) == Some(b)
    {
      assert b != v && home[b].OnRing?;
      var j, x := buf[b].blockno % |ring|, buf[b].blockno;
      assert Find(ring[j], buf, x) == Some(b);
      assert RingOk(buf, ring[j], hand[j]);
      if j == k {
        FindWithout(ring[k], buf, x, v);
      }
    }
  }

  /** Linking the private buffer `v` in at the front of the ring of block `x`, where `x` is not found. */
  lemma LinkInv(buf: seq<Buf>, ring: seq<seq<nat>>, hand: seq<nat>, home: seq<Home>, x: nat, v: nat, e: Buf)
    requires RingsInv(buf, ring, hand, home) && v < |buf| && home[v].Private? && e.blockno == x
    requires Find(ring[x % |ring|], buf, x) == None
    ensures var k := x % |ring|; RingsInv(buf[v := e], ring[k := [v] + ring[k]], hand, home[v := OnRing(k)])
  {
    hide Find;
    var k := x % |ring|;
    var buf', ring', home' := buf[v := e], ring[k := [v] + ring[k]], home[v := OnRing(k)];
    LinkRings(buf, ring, hand, home, k, v, e);
    forall b | 0 <= b < |buf'| && home'[b].OnRing? && Live(buf'[b])
      ensures Find(ring'[buf'[b].blockno % |ring|], buf', buf'[b].blockno) == Some(b)
    {
      var y := buf'[b].blockno;
      var j := y % |ring|;
      if b == v {
        FindFront(v, ring[k], buf', x);
      } else {
        assert Live(buf[b]);
        assert v !in ring[j] by { assert v in ring[j] <==> home[v] == OnRing(j); }
        FindSame(ring[j], buf, buf', y);
        if j == k {
          assert y != x;
          FindFront(v, ring[k], buf', y);
        }
      }
    }
  }

  lemma LinkRings(buf: seq<Buf>, ring: seq<seq<nat>>, hand: seq<nat>, home: seq<Home>, k: nat, v: nat, e: Buf)
    requires Rings(buf, ring, hand, home) && v < |buf| && home[v].Private? && k < |ring|
    ensures Rings(buf[v := e], ring[k := [v] + ring[k]], hand, home[v := OnRing(k)])
    ensures var ring' := ring[k := [v] + ring[k]];
      forall j, i :: 0 <= j < |ring'| && 0 <= i < |ring'[j]| ==> ring'[j][i] < |buf|
  {
    var buf', ring', home' := buf[v := e], ring[k := [v] + ring[k]], home[v := OnRing(k)];
    assert v in ring[k] <==> home[v] == OnRing(k);
    assert RingOk(buf, ring[k], hand[k]);
    NoDupPush(v, ring[k]);
    forall j | 0 <= j < |ring'|
      ensures RingOk(buf', ring'[j], hand[j])
    {
      assert RingOk(buf, ring[j], hand[j]);
    }
    forall j, b | 0 <= j < |ring'| && 0 <= b < |buf'|
      ensures b in ring'[j] <==> home'[b] == OnRing(j)
    {
      assert b in ring[j] <==> home[b] == OnRing(j);
    }
  }

  lemma FindFront(v: nat, r: seq<nat>, buf: seq<Buf>, x: nat)
    requires v < |buf| && forall i :: 0 <= i < |r| ==> r[i] < |buf|
    ensures forall i :: 0 <= i < |[v] + r| ==> ([v] + r)[i] < |buf|
    ensures Find([v] + r, buf, x) == if buf[v].blockno == x then Some(v) else Find(r, buf, x)
  {
    assert ([v] + r)[1..] == r;
  }
}
