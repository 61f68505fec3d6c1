/**
 The receive path of kernel/driver/uart.c:183-327, 346-364, 491-530.  Bytes arrive in the FIFO; in DMA
 mode the DMA controller moves them on to its buffer; interrupt handlers move them to the ring, from
 which readers take them.  Handlers run under the receive lock and are atomic here: a byte that
 arrives meanwhile joins the end of the FIFO just as well before or after.
 */
module Uart {
  import opened Bytes
  import opened RingBuffer

  const RXDMA_SIZE := 512

  // ---------- Which arrivals are kept ----------

  /** The arrivals that were not dropped, in order. */
  function Kept(arrived: seq<byte>, keep: seq<bool>): (r: seq<byte>)
    requires |keep| == |arrived|
  {
    if arrived == [] then []
    else
      var n := |arrived| - 1;
      Kept(arrived[..n], keep[..n]) + if keep[n] then [arrived[n]] else []
  }

  function Lost(keep: seq<bool>): (r: nat) {
    if keep == [] then 0 else Lost(keep[..|keep| - 1]) + if keep[|keep| - 1] then 0 else 1
  }

  lemma KeptMore(arrived: seq<byte>, keep: seq<bool>, c: byte)
    requires |keep| == |arrived|
    ensures Kept(arrived + [c], keep + [true]) == Kept(arrived, keep) + [c] && Lost(keep + [true]) == Lost(keep)
  {
    assert (arrived + [c])[..|arrived|] == arrived && (keep + [true])[..|keep|] == keep;
  }

  /** Dropping the byte at position `p` of what was kept so far. */
  lemma {:induction false} DropOne(arrived: seq<byte>, keep: seq<bool>, p: nat) returns (keep': seq<bool>)
    requires |keep| == |arrived| && p < |Kept(arrived, keep)|
    ensures |keep'| == |arrived| && Lost(keep') == Lost(keep) + 1
    ensures Kept(arrived, keep') == Kept(arrived, keep)[..p] + Kept(arrived, keep)[p + 1..]
  {
    var n := |arrived| - 1;
    var before := Kept(arrived[..n], keep[..n]);
    if p < |before| {
      var k := DropOne(arrived[..n], keep[..n], p);
      keep' := k + [keep[n]];
      assert keep'[..n] == k;
    } else {
      keep' := keep[..n] + [false];
      assert keep'[..n] == keep[..n];
    }
  }

  /** `total` are the arrivals in order, `dropped` of them missing. */
  ghost predicate Accounts(arrived: seq<byte>, keep: seq<bool>, total: seq<byte>, dropped: nat) {
    |keep| == |arrived| && Kept(arrived, keep) == total && dropped == Lost(keep) % U32
  }

  lemma ArriveAccount(arrived: seq<byte>, keep: seq<bool>, a: seq<byte>, d: seq<byte>, f: seq<byte>, dropped: nat,
                      c: byte)
    requires Accounts(arrived, keep, a + (d + f), dropped)
    ensures Accounts(arrived + [c], keep + [true], a + (d + (f + [c])), dropped)
  {
    hide Kept, Lost;
    KeptMore(arrived, keep, c);
    assert a + (d + (f + [c])) == a + (d + f) + [c];
  }

  /** The byte between the ring `s` and `rest` is dropped. */
  lemma DropAccount(arrived: seq<byte>, keep: seq<bool>, a: seq<byte>, s: seq<byte>, c: byte, rest: seq<byte>,
                    dropped: nat) returns (keep': seq<bool>)
    requires Accounts(arrived, keep, a + s + ([c] + rest), dropped)
    ensures Accounts(arrived, keep', a + s + rest, (dropped + 1) % U32)
  {
    hide Kept, Lost;
    var p, all := |a| + |s|, a + s + ([c] + rest);
    keep' := DropOne(arrived, keep, p);
    assert all[..p] == a + s && all[p + 1..] == rest;
  }

  lemma Shift(a: seq<byte>, s: seq<byte>, c: byte, rest: seq<byte>)
    ensures a + (s + [c]) + rest == a + s + ([c] + rest)
  {
  }

  lemma Shift2(a: seq<byte>, s: seq<byte>, c: byte)
    ensures a + (s + [c]) == a + s + [c]
  {
  }

  lemma TakeNext(s: seq<byte>, all: seq<byte>, i: nat)
    requires i < |all|
    ensures s + all[..i] + [all[i]] == s + all[..i + 1] && all[i..] == [all[i]] + all[i + 1..]
  {
  }

  lemma TakeFront(a: seq<byte>, c: byte, t: seq<byte>, rest: seq<byte>)
    ensures a + ([c] + t) + rest == a + [c] + t + rest
  {
  }

  /** The 32-bit counter `d` after `k` more drops. */
  function Plus(d: nat, k: nat): (r: nat)
    ensures r < U32
  {
    (d + k) % U32
  }

  lemma PlusMore(d: nat, k: nat)
    requires d < U32
    ensures Plus(Plus(d, k), 1) == Plus(d, k + 1) && Plus(d, 0) == d
  {
  }

  function Min(a: nat, b: nat): nat { if a < b then a else b }

  /** What a ring of capacity `cap` with contents `s` holds after `data` was offered: as much as fits. */
  function Offered(s: seq<byte>, cap: nat, data: seq<byte>): (r: seq<byte>)
    requires |s| <= cap
    ensures |r| == Min(|s| + |data|, cap)
  {
    s + data[..Min(|data|, cap - |s|)]
  }

  /** Offering two pieces one after the other is offering them together. */
  lemma OfferedTwice(s: seq<byte>, cap: nat, a: seq<byte>, b: seq<byte>)
    requires |s| <= cap
    ensures Offered(Offered(s, cap, a), cap, b) == Offered(s, cap, a + b)
  {
  }

  lemma PlusPlus(d: nat, i: nat, j: nat)
    ensures Plus(Plus(d, i), j) == Plus(d, i + j)
  {
  }

  datatype Mode = Pio | Dma

  class Rx {
    const ring: Ring
    var mode: Mode
    var dmaActive: bool
    var dma: seq<byte>
    var fifo: seq<byte>
    var dropped: nat
    var epoch: nat
    /** What arrived, which of it was kept, and what was read, since the last flush. */
    ghost var arrived: seq<byte>
    ghost var keep: seq<bool>
    ghost var taken: seq<byte>

    /** Read bytes, the ring and `rest` are the arrivals in order, and `dropped` counts those missing. */
    ghost predicate Account(rest: seq<byte>)
      reads this, ring, ring.buf
    {
      ring.Valid() && dropped < U32 && Accounts(arrived, keep, taken + ring.Contents() + rest, dropped)
    }

    ghost predicate Valid()
      reads this, ring, ring.buf
    {
      && Account(dma + fifo)
      && |dma| <= RXDMA_SIZE && (mode.Pio? ==> !dmaActive) && (!dmaActive ==> dma == [])
    }

    constructor (capacity: nat)
      ensures Valid() && fresh(ring) && fresh(ring.buf) && ring.capacity == capacity
      ensures mode == Pio && arrived == [] && taken == [] && fifo == [] && ring.Contents() == []
    {
      ring := new Ring(capacity);
      mode, dmaActive, dma, fifo, dropped, epoch := Pio, false, [], [], 0, 0;
      arrived, keep, taken := [], [], [];
    }

    // ---------- Hardware events ----------

    /** A byte arrives on the line. */
    method Arrive(c: byte)
      requires Valid()
      modifies this`fifo, this`arrived, this`keep
      ensures Valid() && fifo == old(fifo) + [c] && arrived == old(arrived) + [c]
    {
      hide Accounts, Ring.Contents;
      ArriveAccount(arrived, keep, taken + ring.Contents(), dma, fifo, dropped, c);
      fifo := fifo + [c];
      arrived, keep := arrived + [c], keep + [true];
    }

    /** The DMA controller moves a byte, until its block is full. */
    method DmaMove()
      requires Valid() && dmaActive && fifo != [] && |dma| < RXDMA_SIZE
      modifies this`fifo, this`dma
      ensures Valid() && dma + fifo == old(dma + fifo)
    {
      hide Accounts, Ring.Contents;
      dma, fifo := dma + [fifo[0]], fifo[1..];
      assert dma + fifo == old(dma + fifo);
    }

    // ---------- Moving bytes to the ring ----------

    /** `data` was offered to the ring: what fits is at its end, and the rest was counted as dropped. */
    twostate predicate Moved(data: seq<byte>)
      reads this, ring, ring.buf
    {
      && old(ring.Valid()) && ring.Valid()
      && ring.Contents() == Offered(old(ring.Contents()), ring.capacity, data)
      && dropped == Plus(old(dropped), |old(ring.Contents())| + |data| - |ring.Contents()|)
    }

    /** A byte goes to the ring, or is counted as dropped when the ring is full. */
    method PushByte(c: byte, ghost rest: seq<byte>) returns (ok: bool)
      requires Account([c] + rest)
      modifies this`dropped, this`keep, ring, ring.buf
      ensures Account(rest) && (ok <==> |old(ring.Contents())| < ring.capacity)
      ensures ring.Contents() == if ok then old(ring.Contents()) + [c] else old(ring.Contents())
      ensures dropped == if ok then old(dropped) else Plus(old(dropped), 1)
    {
      hide Accounts, Ring.Contents;
      ghost var s := ring.Contents();
      ok := ring.Push(c);
      if ok {
        Shift(taken, s, c, rest);
      } else {
        keep := DropAccount(arrived, keep, taken, s, c, rest, dropped);
        dropped := (dropped + 1) % U32;
      }
    }

    /** `uart_rx_fifo_drain`: the FIFO goes to the ring as far as it fits, the rest is dropped. */
    method FifoDrain() returns (received: nat)
      requires Account(fifo)
      modifies this`fifo, this`dropped, this`keep, ring, ring.buf
      ensures Account([]) && fifo == []
      ensures Moved(old(fifo)) && received == |ring.Contents()| - |old(ring.Contents())|
    {
      hide Accounts, Ring.Contents, Plus;
      PlusMore(dropped, 0);
      ghost var all, s, i := fifo, ring.Contents(), 0;
      assert all[0..] == all && s + all[..0] == s;
      received := 0;
      while fifo != []
        invariant 0 <= i <= |all| && fifo == all[i..] && Account(fifo)
        invariant received == Min(i, ring.capacity - |s|) && ring.Contents() == s + all[..received]
        invariant dropped == Plus(old(dropped), i - received)
        decreases |fifo|
      {
        var ch := fifo[0];
        TakeNext(s, all, i);
        PlusMore(old(dropped), i - received);
        assert fifo[1..] == all[i + 1..];
        fifo := fifo[1..];
        var ok := PushByte(ch, fifo);
        if ok {
          received := received + 1;
        }
        i := i + 1;
      }
    }

    /** `uart_rx_dma_stop`: the DMA buffer goes to the ring as far as it fits, the rest is dropped. */
    method DmaStop() returns (received: nat)
      requires Account(dma + fifo)
      modifies this`dma, this`dmaActive, this`dropped, this`keep, ring, ring.buf
      ensures Account(fifo) && dma == [] && !dmaActive
      ensures Moved(old(dma)) && received == |ring.Contents()| - |old(ring.Contents())|
    {
      hide Accounts, Ring.Contents, Plus;
      PlusMore(dropped, 0);
      dmaActive := false;
      var n := |dma|;
      ghost var s := ring.Contents();
      assert dma[0..] == dma && s + dma[..0] == s;
      received := 0;
      var i := 0;
      while i < n
        invariant 0 <= i <= n == |dma| && dma == old(dma) && !dmaActive && Account(dma[i..] + fifo)
        invariant received == Min(i, ring.capacity - |s|) && ring.Contents() == s + dma[..received]
        invariant dropped == Plus(old(dropped), i - received)
      {
        TakeNext(s, dma, i);
        PlusMore(old(dropped), i - received);
        assert dma[i..] + fifo == [dma[i]] + (dma[i + 1..] + fifo);
        var ok := PushByte(dma[i], dma[i + 1..] + fifo);
        if ok {
          received := received + 1;
        }
        i := i + 1;
      }
      assert dma[n..] + fifo == fifo;
      dma := [];
    }

    /** Stop the DMA before the processor drains what is left in the FIFO. */
    method Drain()
      requires Account(dma + fifo)
      modifies this`dma, this`fifo, this`dmaActive, this`dropped, this`keep, ring, ring.buf
      ensures Account(dma + fifo) && dma == [] && fifo == [] && !dmaActive && Moved(old(dma + fifo))
    {
      hide Accounts, Ring.Contents, Plus, Offered;
      ghost var d, f, s, n := dma, fifo, ring.Contents(), dropped;
      var received := DmaStop();
      ghost var s1 := ring.Contents();
      var more := FifoDrain();
      OfferedTwice(s, ring.capacity, d, f);
      PlusPlus(n, |s| + |d| - |s1|, |s1| + |f| - |ring.Contents()|);
      assert dma + fifo == [];
    }

    /** `uart_rx_dma_start`. */
    method DmaStart()
      requires Account(dma + fifo) && dma == [] && mode == Dma
      modifies this`dmaActive
      ensures Valid() && dmaActive
    {
      hide Accounts, Ring.Contents;
      dmaActive := true;
    }

    // ---------- Interrupt handlers ----------

    /** `uart_rx_dma`: harvest and arm again. */
    method RxDma()
      requires Valid() && mode == Dma
      modifies this`dma, this`dmaActive, this`dropped, this`keep, ring, ring.buf
      ensures Valid() && dmaActive && dma == []
      ensures Moved(old(dma))
    {
      hide Accounts, Ring.Contents;
      var received := DmaStop();
      assert dma + fifo == fifo;
      DmaStart();
    }

    /** `uart_rx_isr`: in DMA mode only a finished block is harvested, in PIO mode the FIFO is drained. */
    method RxIsr()
      requires Valid()
      modifies this, ring, ring.buf
      ensures Valid() && mode == old(mode) && taken == old(taken) && arrived == old(arrived) && epoch == old(epoch)
      ensures mode == Pio ==> fifo == [] && Moved(old(fifo))
      ensures mode == Dma ==> fifo == old(fifo) && dmaActive == old(dmaActive)
      ensures mode == Dma ==>
        if |old(dma)| == 512 then dma == [] && Moved(old(dma)) else dma == old(dma) && Moved([])
    {
      hide Accounts, Ring.Contents;
      if mode == Dma {
        if dmaActive && |dma| == RXDMA_SIZE {
          RxDma();
        }
        return;
      }
      assert dma + fifo == fifo;
      var received := FifoDrain();
      assert dma + fifo == [];
    }

    /** `uart_rx_timeout_isr`: everything received so far goes to the ring. */
    method TimeoutIsr()
      requires Valid()
      modifies this, ring, ring.buf
      ensures Valid() && mode == old(mode) && dmaActive == old(dmaActive) && taken == old(taken)
        && arrived == old(arrived) && epoch == old(epoch)
      ensures mode == Pio || dmaActive ==> dma == [] && fifo == [] && Moved(old(dma + fifo))
      ensures mode == Dma && !dmaActive ==> fifo == old(fifo) && Moved([])
    {
      hide Accounts, Ring.Contents;
      if mode == Dma {
        if dmaActive {
          Drain();
          DmaStart();
        }
      } else {
        assert dma + fifo == fifo;
        var received := FifoDrain();
        assert dma + fifo == [];
      }
    }

    /** `uart_dma_rx_isr`. */
    method DmaRxIsr()
      requires Valid()
      modifies this, ring, ring.buf
      ensures Valid() && mode == old(mode) && fifo == old(fifo) && taken == old(taken) && arrived == old(arrived)
        && epoch == old(epoch)
      ensures if |old(dma)| == 512 then dma == [] && Moved(old(dma)) else dma == old(dma) && Moved([])
    {
      hide Accounts, Ring.Contents;
      if mode != Dma || !dmaActive || |dma| != RXDMA_SIZE {
        return;
      }
      RxDma();
    }

    // ---------- Calls ----------

    /** `uart_set_mode`: nothing received is lost by switching, unless the ring is full. */
    method SetMode(m: Mode)
      requires Valid()
      modifies this, ring, ring.buf
      ensures Valid() && mode == m && dmaActive == (m == Dma)
      ensures taken == old(taken) && arrived == old(arrived) && epoch == old(epoch)
      ensures old(dmaActive) && m == Pio ==> dma == [] && fifo == [] && Moved(old(dma + fifo))
      ensures !old(dmaActive) || m == Dma ==> dma == old(dma) && fifo == old(fifo) && Moved([])
    {
      hide Accounts, Ring.Contents;
      if m == mode && dmaActive == (m == Dma) {
        return;
      }
      if dmaActive {
        Drain();
      }
      mode := m;
      if m == Dma {
        DmaStart();
      }
    }

    /** `uart_read` of at most `n` bytes: the front of the ring; `block` when there is nothing to return yet. */
    method Read(n: int) returns (block: bool, dst: seq<byte>)
      requires Valid()
      modifies this`taken, ring
      ensures Valid() && old(ring.Contents()) == dst + ring.Contents() && taken == old(taken) + dst
      ensures block <==> n > 0 && old(ring.Contents()) == []
      ensures |dst| == if n <= 0 then 0 else Min(n, |old(ring.Contents())|)
    {
      hide Accounts, Ring.Contents;
      dst := [];
      if n <= 0 {
        return false, dst;
      }
      var empty := ring.Empty();
      if empty {
        return true, dst;
      }
      ghost var s := ring.Contents();
      assert [] + s == s && taken + [] == taken;
      var i := 0;
      while i < n
        invariant ring.Valid() && 0 <= i <= n && |dst| == i && s == dst + ring.Contents() && i <= |s|
        invariant taken == old(taken) + dst && Account(dma + fifo)
      {
        ghost var t := ring.Contents();
        var ok, c := ring.Pop();
        if !ok {
          break;
        }
        ghost var t' := ring.Contents();
        Shift([], dst, c, t');
        Shift2(old(taken), dst, c);
        TakeFront(taken, c, t', dma + fifo);
        assert [] + (dst + [c]) + t' == dst + [c] + t' && [] + dst + ([c] + t') == dst + t;
        dst := dst + [c];
        taken := taken + [c];
        i := i + 1;
      }
      block := false;
    }

    /** `uart_hw_drain_fifo`: what is in the FIFO is discarded. */
    method HwDrain()
      modifies this`fifo
      ensures fifo == []
    {
      while fifo != []
        decreases |fifo|
      {
        fifo := fifo[1..];
      }
    }

    /** `uart_flush_rx`: everything is discarded, and the account starts anew. */
    method FlushRx()
      requires Valid()
      modifies this, ring
      ensures Valid() && mode == old(mode) && dmaActive == (mode == Dma) && epoch == (old(epoch) + 1) % U32
      ensures ring.Contents() == [] && dma == [] && fifo == [] && dropped == 0 && arrived == [] && taken == []
    {
      hide Ring.Contents;
      if mode == Dma && dmaActive {
        dmaActive := false;
        dma := [];
      }
      HwDrain();
      ring.Reset();
      dropped := 0;
      epoch := (epoch + 1) % U32;
      arrived, keep, taken := [], [], [];
      if mode == Dma {
        DmaStart();
      }
    }
  }
}
