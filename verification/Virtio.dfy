/**
 Descriptors of the virtio disk driver (kernel/driver/virtio_disk.c:139-196): allocation, and freeing
 whole chains without ever meeting a descriptor that is already free.
 */
module VirtioDesc {
  import opened Bytes
  import opened Lists

  /** A descriptor as far as chains are concerned: its next-flag and next index. */
  datatype Desc = Desc(more: bool, next: nat)

  const ZERO := Desc(false, 0)

  function CountFree(free: seq<bool>): nat {
    if free == [] then 0 else CountFree(free[..|free| - 1]) + if free[|free| - 1] then 1 else 0
  }

  lemma {:induction false} CountSet(free: seq<bool>, i: nat, v: bool)
    requires i < |free| && free[i] != v
    ensures CountFree(free[i := v]) == CountFree(free) + if v then 1 else -1
  {
    var n := |free| - 1;
    if i < n {
      CountSet(free[..n], i, v);
      assert free[i := v][..n] == free[..n][i := v];
    } else {
      assert free[i := v][..n] == free[..n];
    }
  }

  lemma {:induction false} NoneFree(free: seq<bool>)
    requires forall i :: 0 <= i < |free| ==> !free[i]
    ensures CountFree(free) == 0
  {
    if free != [] {
      NoneFree(free[..|free| - 1]);
    }
  }

  /** Allocated descriptors linked in this order and ending with the last. */
  ghost predicate IsChain(desc: seq<Desc>, free: seq<bool>, ids: seq<nat>) {
    && |free| == |desc| && ids != [] && NoDup(ids)
    && (forall j :: 0 <= j < |ids| ==> ids[j] < |desc| && !free[ids[j]])
    && (forall j {:trigger desc[ids[j]]} :: 0 <= j < |ids| - 1 ==> desc[ids[j]] == Desc(true, ids[j + 1]))
    && !desc[ids[|ids| - 1]].more
  }

  /** The state after freeing exactly the descriptors `ids`. */
  ghost predicate Freed(desc: seq<Desc>, free: seq<bool>, desc': seq<Desc>, free': seq<bool>, ids: seq<nat>) {
    && |desc'| == |desc| && |free'| == |free|
    && (forall d {:trigger desc'[d]} :: 0 <= d < |desc| ==> desc'[d] == if d in ids then ZERO else desc[d])
    && (forall d {:trigger free'[d]} :: 0 <= d < |free| ==> free'[d] == (free[d] || d in ids))
  }

  class Descriptors {
    const num: nat
    var desc: seq<Desc>
    var free: seq<bool>

    ghost predicate Valid()
      reads this
    {
      |desc| == |free| == num && forall d :: 0 <= d < num && free[d] ==> desc[d] == ZERO
    }

    constructor (n: nat)
      ensures Valid() && num == n && forall d :: 0 <= d < n ==> free[d]
    {
      num := n;
      desc := seq(n, _ => ZERO);
      free := seq(n, _ => true);
    }

    /** `alloc_desc`: the first free descriptor, or none exactly when all are in use. */
    method AllocDesc() returns (r: Option<nat>)
      requires Valid()
      modifies this`free
      ensures Valid() && (r.None? <==> forall d :: 0 <= d < num ==> !old(free)[d])
      ensures r.None? ==> free == old(free)
      ensures r.Some? ==> r.value < num && old(free)[r.value] && free == old(free)[r.value := false]
      ensures r.Some? ==> forall d :: 0 <= d < r.value ==> !old(free)[d]
    {
      var i := 0;
      while i < num
        invariant i <= num && free == old(free) && forall d :: 0 <= d < i ==> !free[d]
      {
        if free[i] {
          free := free[i := false];
          return Some(i);
        }
        i := i + 1;
      }
      r := None;
    }

    /** `free_desc`: it panics for an index out of range or a descriptor already free, so neither is passed. */
    method FreeDesc(i: nat)
      requires Valid() && i < num && !free[i]
      modifies this`desc, this`free
      ensures Valid() && desc == old(desc)[i := ZERO] && free == old(free)[i := true]
    {
      desc := desc[i := ZERO];
      free := free[i := true];
    }

    /** `free_chain`: exactly the descriptors of the chain are freed. */
    method FreeChain(head: nat, ghost ids: seq<nat>)
      requires Valid() && IsChain(desc, free, ids) && ids[0] == head
      modifies this`desc, this`free
      ensures Valid() && Freed(old(desc), old(free), desc, free, ids)
    {
      var i := head;
      ghost var j := 0;
      while true
        invariant 0 <= j < |ids| && i == ids[j] && Valid()
        invariant Freed(old(desc), old(free), desc, free, ids[..j])
        decreases |ids| - j
      {
        assert forall m :: j <= m < |ids| ==> ids[m] !in ids[..j];
        var flag, nxt := desc[i].more, desc[i].next;
        assert desc[i] == old(desc)[ids[j]] && (flag <==> j < |ids| - 1);
        FreeDesc(i);
        assert ids[..j + 1] == ids[..j] + [i];
        if flag {
          i := nxt;
        } else {
          break;
        }
        j := j + 1;
      }
      assert ids[..|ids|] == ids;
    }

    /** `alloc3_desc`: three descriptors, or none exactly when fewer than three are free. */
    method Alloc3Desc() returns (idx: Option<seq<nat>>)
      requires Valid()
      modifies this`desc, this`free
      ensures Valid() && desc == old(desc)
      ensures idx.None? <==> CountFree(old(free)) < 3
      ensures idx.None? ==> free == old(free)
      ensures idx.Some? ==>
        |idx.value| == 3 && NoDup(idx.value)
          && (forall j :: 0 <= j < 3 ==> idx.value[j] < num && old(free)[idx.value[j]])
      ensures idx.Some? ==> forall d {:trigger free[d]} :: 0 <= d < num ==> free[d] == (old(free)[d] && d !in idx.value)
    {
      var got: seq<nat> := [];
      var i := 0;
      while i < 3
        invariant 0 <= i <= 3 && |got| == i && Valid() && desc == old(desc) && NoDup(got)
        invariant CountFree(free) + i == CountFree(old(free))
        invariant forall j :: 0 <= j < i ==> got[j] < num && old(free)[got[j]]
        invariant forall d {:trigger free[d]} :: 0 <= d < num ==> free[d] == (old(free)[d] && d !in got)
      {
        ghost var free1 := free;
        var r := AllocDesc();
        if r.None? {
          NoneFree(free);
          GiveBack(got, old(free));
          return None;
        }
        CountSet(free1, r.value, false);
        NoDupEnd(got, r.value);
        got := got + [r.value];
        i := i + 1;
      }
      idx := Some(got);
    }

    /** The inner loop of `alloc3_desc`: what was allocated is freed again. */
    method GiveBack(got: seq<nat>, ghost free0: seq<bool>)
      requires Valid() && NoDup(got) && |free0| == num && forall j :: 0 <= j < |got| ==> got[j] < num && free0[got[j]]
      requires forall d {:trigger free[d]} :: 0 <= d < num ==> free[d] == (free0[d] && d !in got)
      requires forall d :: 0 <= d < num && free0[d] ==> desc[d] == ZERO
      modifies this`desc, this`free
      ensures Valid() && desc == old(desc) && free == free0
    {
      var j := 0;
      while j < |got|
        invariant j <= |got| && Valid() && desc == old(desc)
        invariant forall d {:trigger free[d]} :: 0 <= d < num ==> free[d] == (free0[d] && d !in got[j..])
      {
        assert got[j] !in got[j + 1..];
        assert got[j..] == [got[j]] + got[j + 1..];
        FreeDesc(got[j]);
        j := j + 1;
      }
    }
  }

  lemma NoDupEnd(r: seq<nat>, x: nat)
    requires NoDup(r) && x !in r
    ensures NoDup(r + [x])
  {
  }
}
