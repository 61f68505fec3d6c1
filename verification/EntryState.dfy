/**
 The state of the entry cache of kernel/fs/fat32.c:60-65 as a value, the invariant that every
 operation keeps, and the lemmas about single steps.  Slot `n` is the root entry, which is not in
 the LRU list; slots below `n` are `ecache.entries`.
 */
module EntryState {
  import opened Bytes
  import opened DirCodec
  import opened DirModel

  datatype Entry = Entry(
    name: seq<byte>, attr: byte, firstClus: nat, fileSize: nat,
    valid: int, ref: int, dirty: bool, parent: nat, off: nat)

  predicate IsDir(attr: byte) { attr as int / 0x10 % 2 == 1 }

  /** The entry names its parent for good: it is cached, or removed but still referenced. */
  predicate Attached(e: Entry) { e.valid == 1 || (e.valid == -1 && e.ref > 0) }

  /**
   The fields of the cache and of the disk, and what proofs track beside them:
   `pos` inverts the LRU list, `holders` counts references from outside, `rank` orders parents before children.
   */
  datatype S = S(
    n: nat, ent: seq<Entry>, lru: seq<nat>, dirs: map<nat, seq<Slot>>,
    pos: seq<nat>, holders: seq<int>, rank: seq<nat>)

  ghost predicate Shape(s: S) {
    && |s.ent| == s.n + 1 && |s.lru| == s.n && |s.pos| == s.n && |s.holders| == s.n + 1 && |s.rank| == s.n + 1
    && (forall k :: 0 <= k < s.n ==> s.pos[k] < s.n && s.lru[s.pos[k]] == k)
    && (forall i :: 0 <= i < s.n ==> s.lru[i] < s.n && s.pos[s.lru[i]] == i)
    && (forall k :: 0 <= k <= s.n ==> s.holders[k] >= 0)
    && s.ent[s.n].valid == 1
  }

  /** Parents of attached entries are themselves cached, and come earlier in `rank`. */
  ghost predicate Parents(s: S)
    requires Shape(s)
  {
    forall c {:trigger s.ent[c]} :: 0 <= c < s.n && Attached(s.ent[c]) ==>
      && s.ent[c].parent <= s.n
      && s.rank[s.ent[c].parent] < s.rank[c]
      && (s.ent[s.ent[c].parent].valid == 1 || (s.ent[c].valid == -1 && s.ent[s.ent[c].parent].valid == -1))
  }

  predicate Holding(e: Entry, p: nat) { Attached(e) && e.ref > 0 && e.parent == p }

  /** How many of the first `n` entries hold a reference to `p` as their parent. */
  function Kids(ent: seq<Entry>, n: nat, p: nat): nat
    requires n <= |ent|
  {
    if n == 0 then 0 else Kids(ent, n - 1, p) + if Holding(ent[n - 1], p) then 1 else 0
  }

  /** A reference count is the outside holders plus the referenced cached children. */
  ghost predicate Refs(s: S)
    requires Shape(s)
  {
    forall p {:trigger s.holders[p]} :: 0 <= p <= s.n ==> s.ent[p].ref == s.holders[p] + Kids(s.ent, s.n, p)
  }

  /** An unreferenced child lies nearer the tail of the list than its unreferenced parent. */
  ghost predicate Lru(s: S)
    requires Shape(s)
  {
    forall c {:trigger s.ent[c]} ::
      0 <= c < s.n && s.ent[c].valid == 1 && s.ent[c].ref == 0 && s.ent[c].parent < s.n
        && s.ent[s.ent[c].parent].ref == 0
      ==> s.pos[s.ent[c].parent] < s.pos[c]
  }

  lemma {:induction false} KidsHolds(ent: seq<Entry>, n: nat, c: nat)
    requires c < n <= |ent| && Attached(ent[c]) && ent[c].ref > 0
    ensures Kids(ent, n, ent[c].parent) > 0
  {
    if c < n - 1 {
      KidsHolds(ent, n - 1, c);
    }
  }

  function Bit(b: bool): int { if b then 1 else 0 }

  /** Replacing one entry changes the count by that entry alone. */
  lemma {:induction false} KidsSet(ent: seq<Entry>, n: nat, k: nat, e: Entry, p: nat)
    requires n <= |ent| && k < |ent|
    ensures Kids(ent[k := e], n, p) == Kids(ent, n, p) + if k < n then Bit(Holding(e, p)) - Bit(Holding(ent[k], p))
      else 0
  {
    if n > 0 {
      KidsSet(ent, n - 1, k, e, p);
    }
  }

  /** A referenced entry keeps its parent referenced. */
  lemma ParentRef(s: S, c: nat)
    requires Shape(s) && Parents(s) && Refs(s) && c < s.n && Attached(s.ent[c]) && s.ent[c].ref > 0
    ensures s.ent[c].parent <= s.n && s.ent[s.ent[c].parent].ref > 0
  {
    KidsHolds(s.ent, s.n, c);
    var p := s.ent[c].parent;
    assert s.holders[p] >= 0;
  }

  /** The slot nearest the tail with no references: what the second loop of `eget` picks. */
  ghost predicate IsVictim(s: S, v: nat)
    requires Shape(s)
  {
    && v < s.n && s.ent[v].ref == 0
    && forall i {:trigger s.lru[i]} :: s.pos[v] < i < s.n ==> s.ent[s.lru[i]].ref != 0
  }

  /** A slot chosen for recycling is the parent of no cached entry. */
  lemma VictimHasNoChild(s: S, v: nat, c: nat)
    requires Shape(s) && Parents(s) && Refs(s) && Lru(s) && IsVictim(s, v)
    requires c < s.n && Attached(s.ent[c])
    ensures s.ent[c].parent != v
  {
    if s.ent[c].parent == v {
      if s.ent[c].ref > 0 {
        ParentRef(s, c);
      } else {
        var i := s.pos[c];
        assert s.lru[i] == c;
        KidsOrHolders(s, c);
      }
    }
  }

  /** Reference counts are never negative. */
  lemma KidsOrHolders(s: S, p: nat)
    requires Shape(s) && Refs(s) && p <= s.n
    ensures s.ent[p].ref >= 0
  {
    assert s.holders[p] >= 0;
  }

  // ---------- Steps, structural part ----------

  /** What reference counts, parents and the LRU list have to satisfy. */
  ghost predicate Core(s: S) {
    Shape(s) && Parents(s) && Refs(s) && Lru(s)
  }

  /** The miss path of `eget`: take slot `v` out of use for the caller. */
  function Taken(s: S, v: nat): S
    requires v < |s.ent| && v < |s.holders|
  {
    s.(ent := s.ent[v := s.ent[v].(ref := 1, valid := 0, off := 0, dirty := false)], holders := s.holders[v := 1])
  }

  /** Slot `v` is nobody's parent. */
  ghost predicate Childless(s: S, v: nat) {
    forall c {:trigger s.ent[c]} :: 0 <= c < |s.ent| - 1 && Attached(s.ent[c]) ==> s.ent[c].parent != v
  }

  lemma TakenCore(s: S, v: nat)
    requires Core(s) && IsVictim(s, v)
    ensures Core(Taken(s, v)) && Childless(s, v) && Childless(Taken(s, v), v)
    ensures s.holders[v] == 0
  {
    var t := Taken(s, v);
    forall c | 0 <= c < s.n && Attached(s.ent[c])
      ensures s.ent[c].parent != v
    {
      VictimHasNoChild(s, v, c);
    }
    assert Shape(t) && Parents(t) && Lru(t);
    hide Lru, Parents, IsVictim;
    forall p | 0 <= p <= s.n
      ensures t.ent[p].ref == t.holders[p] + Kids(t.ent, t.n, p)
    {
      KidsSet(s.ent, s.n, v, t.ent[v], p);
      assert s.ent[p].ref == s.holders[p] + Kids(s.ent, s.n, p);
    }
    assert s.ent[v].ref == s.holders[v] + Kids(s.ent, s.n, v);
  }

  /** More references to entries in use leave parents and the order of the list as they are. */
  lemma RefsUp(s: S, t: S)
    requires Shape(s) && Parents(s) && Lru(s) && |t.ent| == |s.ent| && |t.holders| == |s.holders|
    requires t.n == s.n && t.lru == s.lru && t.pos == s.pos && t.rank == s.rank
    requires forall c {:trigger t.ent[c]} :: 0 <= c <= s.n ==>
      && t.ent[c].valid == s.ent[c].valid && t.ent[c].parent == s.ent[c].parent && t.ent[c].ref >= s.ent[c].ref >= 0
      && (t.ent[c].ref == s.ent[c].ref || c == s.n || s.ent[c].ref > 0 || s.ent[c].valid == 1)
    requires forall c {:trigger t.holders[c]} :: 0 <= c <= s.n ==> t.holders[c] >= 0
    ensures Shape(t) && Parents(t) && Lru(t)
  {
  }

  lemma RefsPositive(s: S)
    requires Shape(s) && Refs(s)
    ensures forall c {:trigger s.ent[c]} :: 0 <= c <= s.n ==> s.ent[c].ref >= 0
  {
    forall c | 0 <= c <= s.n
      ensures s.ent[c].ref >= 0
    {
      KidsOrHolders(s, c);
    }
  }

  /** One more outside reference to `p`. */
  function Dupped(s: S, p: nat): S
    requires p < |s.ent| && p < |s.holders|
  {
    s.(ent := s.ent[p := s.ent[p].(ref := s.ent[p].ref + 1)], holders := s.holders[p := s.holders[p] + 1])
  }

  lemma DuppedCore(s: S, p: nat)
    requires Core(s) && p <= s.n && (s.ent[p].ref > 0 || p == s.n)
    ensures Core(Dupped(s, p))
  {
    hide Lru, Parents;
    var t := Dupped(s, p);
    RefsPositive(s);
    RefsUp(s, t);
    forall q | 0 <= q <= s.n
      ensures t.ent[q].ref == t.holders[q] + Kids(t.ent, t.n, q)
    {
      KidsSet(s.ent, s.n, p, t.ent[p], q);
      assert s.ent[q].ref == s.holders[q] + Kids(s.ent, s.n, q);
    }
  }

  /** The hit path of `eget`: the first outside reference also references the parent. */
  function HitOn(s: S, c: nat): S
    requires c < |s.ent| && c < |s.holders| && s.ent[c].parent < |s.ent|
  {
    var ent := s.ent[c := s.ent[c].(ref := s.ent[c].ref + 1)];
    var p := s.ent[c].parent;
    s.(ent := if s.ent[c].ref == 0 then ent[p := ent[p].(ref := ent[p].ref + 1)] else ent,
       holders := s.holders[c := s.holders[c] + 1])
  }

  lemma HitOnCore(s: S, c: nat)
    requires Core(s) && c < s.n && s.ent[c].valid == 1 && s.ent[c].parent <= s.n
    requires s.ent[c].parent == s.n || s.ent[s.ent[c].parent].ref > 0
    ensures s.ent[c].parent != c && Core(HitOn(s, c))
  {
    assert s.rank[s.ent[c].parent] < s.rank[c];
    KidsOrHolders(s, c);
    if s.ent[c].ref > 0 {
      DuppedCore(s, c);
      assert HitOn(s, c) == Dupped(s, c);
    } else {
      FirstHitCore(s, c, s.ent[c].parent, HitOn(s, c));
    }
  }

  lemma FirstHitCore(s: S, c: nat, p: nat, t: S)
    requires Core(s) && c < s.n && s.ent[c].valid == 1 && s.ent[c].ref == 0 && p == s.ent[c].parent <= s.n && p != c
    requires p == s.n || s.ent[p].ref > 0
    requires t == HitOn(s, c)
    ensures Core(t)
  {
    KidsOrHolders(s, p);
    var e, e' := s.ent[c].(ref := 1), s.ent[p].(ref := s.ent[p].ref + 1);
    assert t == s.(ent := s.ent[c := e][p := e'], holders := s.holders[c := s.holders[c] + 1]);
    hide HitOn, Kids, Refs, Lru, Parents;
    assert t.ent[c] == e && t.ent[p] == e' && Holding(e, p);
    assert Shape(t);
    TwoSetRefs(s, t, c, p);
    assert Parents(t) && Lru(t) by {
      RefsPositive(s);
      RefsUp(s, t);
    }
  }

  /** Counts after entry `c` began to hold a reference to its parent `p`. */
  lemma TwoSetRefs(s: S, t: S, c: nat, p: nat)
    requires Shape(s) && Refs(s) && Shape(t) && t.n == s.n && c < s.n && p <= s.n && p != c && |t.ent| == |s.ent|
    requires t.ent == s.ent[c := t.ent[c]][p := s.ent[p].(ref := s.ent[p].ref + 1)]
    requires p == s.n || s.ent[p].ref > 0
    requires !(Attached(s.ent[c]) && s.ent[c].ref > 0) && Holding(t.ent[c], p)
    requires t.ent[c].ref - t.holders[c] == s.ent[c].ref - s.holders[c]
    requires forall q {:trigger t.holders[q]} :: 0 <= q <= s.n && q != c ==> t.holders[q] == s.holders[q]
    ensures Refs(t)
  {
    var ent1 := s.ent[c := t.ent[c]];
    forall q | 0 <= q <= s.n
      ensures t.ent[q].ref == t.holders[q] + Kids(t.ent, t.n, q)
    {
      KidsSet(s.ent, s.n, c, ent1[c], q);
      KidsSet(ent1, s.n, p, t.ent[p], q);
      assert s.ent[q].ref == s.holders[q] + Kids(s.ent, s.n, q);
    }
  }

  /** `dirlookup` and `ealloc`: the slot `v`, taken before, becomes the entry `e` in directory `dp`. */
  function Filled(s: S, v: nat, dp: nat, e: Entry): S
    requires v < |s.ent| && dp < |s.ent| && v < |s.rank| && dp < |s.rank|
  {
    var ent := s.ent[v := e.(parent := dp, valid := 1, ref := 1)];
    s.(ent := ent[dp := ent[dp].(ref := ent[dp].ref + 1)], rank := s.rank[v := s.rank[dp] + 1])
  }

  lemma FilledCore(s: S, v: nat, dp: nat, e: Entry)
    requires Core(s) && Childless(s, v) && v < s.n && dp <= s.n && v != dp
    requires s.ent[v].valid == 0 && s.ent[v].ref == 1
    requires s.ent[dp].valid == 1 && (dp == s.n || s.ent[dp].ref > 0)
    ensures Core(Filled(s, v, dp, e))
  {
    KidsOrHolders(s, dp);
    var t := Filled(s, v, dp, e);
    assert Shape(t);
    FilledParents(s, v, dp, e, t);
    FilledLru(s, v, dp, e, t);
    hide Kids, Refs, Lru, Parents, Childless;
    assert t.ent == s.ent[v := t.ent[v]][dp := s.ent[dp].(ref := s.ent[dp].ref + 1)];
    TwoSetRefs(s, t, v, dp);
  }

  lemma FilledParents(s: S, v: nat, dp: nat, e: Entry, t: S)
    requires Shape(s) && Parents(s) && Childless(s, v) && v < s.n && dp <= s.n && v != dp
    requires s.ent[dp].valid == 1 && s.ent[dp].ref >= 0
    requires Shape(t) && t == Filled(s, v, dp, e)
    ensures Parents(t)
  {
    forall c | 0 <= c < t.n && Attached(t.ent[c])
      ensures t.ent[c].parent <= t.n && t.rank[t.ent[c].parent] < t.rank[c]
      ensures t.ent[t.ent[c].parent].valid == 1 || (t.ent[c].valid == -1 && t.ent[t.ent[c].parent].valid == -1)
    {
      if c != v {
        var p := s.ent[c].parent;
        assert Attached(s.ent[c]) && p != v && t.ent[c].parent == p && t.rank[p] == s.rank[p];
      }
    }
  }

  lemma FilledLru(s: S, v: nat, dp: nat, e: Entry, t: S)
    requires Shape(s) && Parents(s) && Lru(s) && Childless(s, v) && v < s.n && dp <= s.n && v != dp
    requires s.ent[dp].ref >= 0 && (dp == s.n || s.ent[dp].ref > 0)
    requires Shape(t) && t == Filled(s, v, dp, e)
    ensures Lru(t)
  {
    hide Parents;
    forall c | 0 <= c < t.n && t.ent[c].valid == 1 && t.ent[c].ref == 0 && t.ent[c].parent < t.n
      && t.ent[t.ent[c].parent].ref == 0
      ensures t.pos[t.ent[c].parent] < t.pos[c]
    {
      var p := s.ent[c].parent;
      assert c != v && c != dp && p != dp && Attached(s.ent[c]) && p != v;
    }
  }

  /** `eput` that leaves the LRU list alone: one outside reference less. */
  function Unheld(s: S, p: nat): S
    requires p < |s.ent| && p < |s.holders|
  {
    s.(ent := s.ent[p := s.ent[p].(ref := s.ent[p].ref - 1)], holders := s.holders[p := s.holders[p] - 1])
  }

  lemma UnheldCore(s: S, p: nat)
    requires Core(s) && p <= s.n && s.holders[p] > 0
    requires p == s.n || s.ent[p].valid == 0 || s.ent[p].ref != 1
    ensures Core(Unheld(s, p))
  {
    var t := Unheld(s, p);
    assert s.ent[p].ref == s.holders[p] + Kids(s.ent, s.n, p);
    assert Shape(t) && Parents(t) && Lru(t) by {
      hide Kids, Refs;
    }
    hide Lru, Parents;
    forall q | 0 <= q <= s.n
      ensures t.ent[q].ref == t.holders[q] + Kids(t.ent, t.n, q)
    {
      KidsSet(s.ent, s.n, p, t.ent[p], q);
      assert s.ent[q].ref == s.holders[q] + Kids(s.ent, s.n, q);
    }
  }

  /** Move slot `x` to the front of the LRU list. */
  function ToFront(lru: seq<nat>, i: nat): (r: seq<nat>)
    requires i < |lru|
    ensures |r| == |lru|
  {
    [lru[i]] + lru[..i] + lru[i + 1..]
  }

  function FrontPos(pos: seq<nat>, x: nat): (r: seq<nat>)
    requires x < |pos|
    ensures |r| == |pos|
    ensures forall k :: 0 <= k < |pos| ==> r[k] == if k == x then 0 else if pos[k] < pos[x] then pos[k] + 1 else pos[k]
  {
    seq(|pos|, k requires 0 <= k < |pos| => if k == x then 0 else if pos[k] < pos[x] then pos[k] + 1 else pos[k])
  }

  /** `eput` dropping the last reference: to the front, and the reference to the parent becomes the caller's. */
  function Dropped(s: S, x: nat): S
    requires Shape(s) && x < s.n && s.ent[x].parent <= s.n
  {
    var p := s.ent[x].parent;
    var holders := s.holders[x := s.holders[x] - 1];
    s.(ent := s.ent[x := s.ent[x].(ref := 0)], lru := ToFront(s.lru, s.pos[x]), pos := FrontPos(s.pos, x),
       holders := holders[p := holders[p] + 1])
  }

  lemma FrontShape(lru: seq<nat>, pos: seq<nat>, x: nat)
    requires x < |pos| == |lru|
    requires forall k :: 0 <= k < |pos| ==> pos[k] < |lru| && lru[pos[k]] == k
    requires forall i :: 0 <= i < |lru| ==> lru[i] < |pos| && pos[lru[i]] == i
    ensures var lru', pos' := ToFront(lru, pos[x]), FrontPos(pos, x);
      && (forall k :: 0 <= k < |pos'| ==> pos'[k] < |lru'| && lru'[pos'[k]] == k)
      && (forall i :: 0 <= i < |lru'| ==> lru'[i] < |pos'| && pos'[lru'[i]] == i)
  {
  }

  lemma DroppedCore(s: S, x: nat)
    requires Core(s) && x < s.n && Attached(s.ent[x]) && s.ent[x].ref == 1 && s.holders[x] > 0
    ensures s.ent[x].parent <= s.n && s.ent[x].parent != x && Core(Dropped(s, x))
    ensures Dropped(s, x).holders[s.ent[x].parent] > 0 && s.ent[s.ent[x].parent].ref > 0
  {
    hide ToFront, FrontPos, Kids, Lru, Refs, Attached;
    var p, t := s.ent[x].parent, Dropped(s, x);
    ParentRef(s, x);
    assert s.rank[p] < s.rank[x];
    hide Parents;
    DroppedShape(s, x, t);
    assert t.holders[p] == s.holders[p] + 1 && s.holders[p] >= 0;
    DroppedParents(s, x, t);
    hide Dropped;
    DroppedRefs(s, x, t);
    DroppedLru(s, x, t);
  }

  lemma DroppedShape(s: S, x: nat, t: S)
    requires Shape(s) && x < s.n && s.ent[x].parent <= s.n && s.ent[x].parent != x && s.holders[x] > 0
      && t == Dropped(s, x)
    ensures Shape(t)
  {
    hide ToFront, FrontPos;
    FrontShape(s.lru, s.pos, x);
  }

  lemma DroppedParents(s: S, x: nat, t: S)
    requires Shape(s) && Parents(s) && x < s.n && s.ent[x].parent <= s.n && Shape(t) && t == Dropped(s, x)
    ensures Parents(t)
  {
    hide ToFront, FrontPos;
  }

  lemma DroppedRefs(s: S, x: nat, t: S)
    requires Shape(s) && Refs(s) && x < s.n && Attached(s.ent[x]) && s.ent[x].ref == 1
    requires s.ent[x].parent <= s.n && s.ent[x].parent != x && Shape(t) && t == Dropped(s, x)
    ensures Refs(t)
  {
    hide ToFront, FrontPos;
    forall q | 0 <= q <= s.n
      ensures t.ent[q].ref == t.holders[q] + Kids(t.ent, t.n, q)
    {
      KidsSet(s.ent, s.n, x, t.ent[x], q);
      assert s.ent[q].ref == s.holders[q] + Kids(s.ent, s.n, q);
    }
  }

  lemma DroppedLru(s: S, x: nat, t: S)
    requires Core(s) && x < s.n && Attached(s.ent[x]) && s.ent[x].ref == 1
    requires s.ent[x].parent <= s.n && t == Dropped(s, x) && Shape(t) && s.ent[s.ent[x].parent].ref > 0
    ensures Lru(t)
  {
    forall c | 0 <= c < t.n && t.ent[c].valid == 1 && t.ent[c].ref == 0 && t.ent[c].parent < t.n
      && t.ent[t.ent[c].parent].ref == 0
      ensures t.pos[t.ent[c].parent] < t.pos[c]
    {
      assert s.pos[c] != s.pos[x] || c == x by { assert s.lru[s.pos[c]] == c && s.lru[s.pos[x]] == x; }
      assert Attached(s.ent[c]) ==> s.rank[s.ent[c].parent] < s.rank[c];
    }
  }
}
