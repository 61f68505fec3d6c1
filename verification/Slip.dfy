/**
 SLIP framing of tools/kflash.py:328-361, 626-631 (RFC 1055): `write` escapes a packet by two
 replacements over the whole packet, `slip_reader` decodes bytes as they come, in pieces of any size.
 */
module Slip {
  import opened Bytes

  const END: byte := 0xc0
  const ESC: byte := 0xdb
  const ESC_END: byte := 0xdc
  const ESC_ESC: byte := 0xdd

  // ---------- Writing ----------

  /** `bytes.replace` of one byte by two. */
  function Replace(s: seq<byte>, c: byte, sub: seq<byte>): seq<byte> {
    if s == [] then [] else ReplaceByte(s[0], c, sub) + Replace(s[1..], c, sub)
  }

  function ReplaceByte(b: byte, c: byte, sub: seq<byte>): seq<byte> { if b == c then sub else [b] }

  function Frame(packet: seq<byte>): seq<byte> {
    [END] + Replace(Replace(packet, ESC, [ESC, ESC_ESC]), END, [ESC, ESC_END]) + [END]
  }

  /** Escaping byte by byte, as RFC 1055 describes it. */
  function Escape(packet: seq<byte>): seq<byte> {
    if packet == [] then [] else EscapeByte(packet[0]) + Escape(packet[1..])
  }

  function EscapeByte(c: byte): seq<byte> {
    if c == END then [ESC, ESC_END] else if c == ESC then [ESC, ESC_ESC] else [c]
  }

  lemma {:induction false} ReplaceConcat(a: seq<byte>, b: seq<byte>, c: byte, sub: seq<byte>)
    ensures Replace(a + b, c, sub) == Replace(a, c, sub) + Replace(b, c, sub)
  {
    if a == [] {
      assert a + b == b;
    } else {
      hide ReplaceByte;
      ReplaceConcat(a[1..], b, c, sub);
      assert (a + b)[1..] == a[1..] + b && (a + b)[0] == a[0];
      Assoc(ReplaceByte(a[0], c, sub), Replace(a[1..], c, sub), Replace(b, c, sub));
    }
  }

  lemma Assoc<T>(a: seq<T>, b: seq<T>, c: seq<T>)
    ensures a + b + c == a + (b + c)
  {
  }

  /** The two replacements, in this order, are escaping in one pass. */
  lemma {:induction false} TwoPassIsEscape(packet: seq<byte>)
    ensures Replace(Replace(packet, ESC, [ESC, ESC_ESC]), END, [ESC, ESC_END]) == Escape(packet)
  {
    if packet != [] {
      TwoPassIsEscape(packet[1..]);
      var first := ReplaceByte(packet[0], ESC, [ESC, ESC_ESC]);
      var rest := Replace(packet[1..], ESC, [ESC, ESC_ESC]);
      ReplaceConcat(first, rest, END, [ESC, ESC_END]);
      SmallReplace(packet[0]);
    }
  }

  lemma SmallReplace(c: byte)
    ensures Replace([ESC, ESC_ESC], END, [ESC, ESC_END]) == [ESC, ESC_ESC]
    ensures Replace([c], END, [ESC, ESC_END]) == if c == END then [ESC, ESC_END] else [c]
  {
    assert Replace([ESC_ESC], END, [ESC, ESC_END]) == [ESC_ESC] + Replace([], END, [ESC, ESC_END]);
    assert [ESC, ESC_ESC][1..] == [ESC_ESC];
  }

  /** What goes over the wire for the bytes of a packet: 192 as 219 220, 219 as 219 221, and any other as it is. */
  function OnWire(packet: seq<byte>): seq<byte> {
    if packet == [] then []
    else (if packet[0] == 192 then [219, 220] else if packet[0] == 219 then [219, 221] else [packet[0]])
         + OnWire(packet[1..])
  }

  /** A packet is framed so, between two bytes 192, which occur nowhere else. */
  lemma FrameBytes(packet: seq<byte>)
    ensures Frame(packet) == [192] + OnWire(packet) + [192] && 192 !in OnWire(packet)
  {
    TwoPassIsEscape(packet);
    WireEscape(packet);
  }

  lemma {:induction false} WireEscape(packet: seq<byte>)
    ensures Escape(packet) == OnWire(packet) && 192 !in OnWire(packet)
  {
    if packet != [] {
      WireEscape(packet[1..]);
    }
  }

  /** The two replacements in the other order. */
  function OtherOrder(packet: seq<byte>): seq<byte> {
    Replace(Replace(packet, END, [ESC, ESC_END]), ESC, [ESC, ESC_ESC])
  }

  function OtherByte(c: byte): seq<byte> {
    if c == END then [ESC, ESC_ESC, ESC_END] else if c == ESC then [ESC, ESC_ESC] else [c]
  }

  function CountEnd(packet: seq<byte>): nat {
    if packet == [] then 0 else (if packet[0] == END then 1 else 0) + CountEnd(packet[1..])
  }

  /** In the other order the escape of an end byte is escaped again. */
  lemma {:induction false} OtherOrderStep(packet: seq<byte>)
    requires packet != []
    ensures OtherOrder(packet) == OtherByte(packet[0]) + OtherOrder(packet[1..])
  {
    var first := ReplaceByte(packet[0], END, [ESC, ESC_END]);
    ReplaceConcat(first, Replace(packet[1..], END, [ESC, ESC_END]), ESC, [ESC, ESC_ESC]);
    SmallOther(packet[0]);
  }

  lemma SmallOther(c: byte)
    ensures Replace(ReplaceByte(c, END, [ESC, ESC_END]), ESC, [ESC, ESC_ESC]) == OtherByte(c)
  {
    var s := ReplaceByte(c, END, [ESC, ESC_END]);
    if c == END {
      assert s[1..] == [ESC_END] && s[1..][1..] == [];
      assert Replace(s[1..], ESC, [ESC, ESC_ESC]) == [ESC_END] + Replace([], ESC, [ESC, ESC_ESC]);
    } else {
      assert s[1..] == [];
    }
  }

  lemma {:induction false} OtherOrderLength(packet: seq<byte>)
    ensures |OtherOrder(packet)| == |Escape(packet)| + CountEnd(packet)
    ensures CountEnd(packet) == 0 ==> OtherOrder(packet) == Escape(packet)
    ensures CountEnd(packet) == 0 <==> END !in packet
  {
    hide Replace;
    if packet != [] {
      OtherOrderStep(packet);
      OtherOrderLength(packet[1..]);
      assert END in packet <==> packet[0] == END || END in packet[1..];
    } else {
      assert OtherOrder([]) == [] by { NothingReplaced(); }
    }
  }

  lemma NothingReplaced()
    ensures OtherOrder([]) == []
  {
  }

  /** The order matters exactly for packets with an end byte in them. */
  lemma OrderMatters(packet: seq<byte>)
    ensures OtherOrder(packet) == Escape(packet) <==> END !in packet
  {
    OtherOrderLength(packet);
  }

  // ---------- Reading ----------

  /** `partial_packet` and `in_escape`; `bad` once an exception was raised. */
  datatype State = State(partial: Option<seq<byte>>, inEscape: bool, bad: bool)

  const START := State(None, false, false)

  /** What one byte does: the next state, and the packet it completes. */
  function Take(st: State, b: byte): (State, Option<seq<byte>>) {
    if st.bad then (st, None)
    else if st.partial.None? then
      if b == END then (st.(partial := Some([])), None) else (st.(bad := true), None)
    else if st.inEscape then
      if b == ESC_END then (st.(inEscape := false, partial := Some(st.partial.value + [END])), None)
      else if b == ESC_ESC then (st.(inEscape := false, partial := Some(st.partial.value + [ESC])), None)
      else (st.(inEscape := false, bad := true), None)
    else if b == ESC then (st.(inEscape := true), None)
    else if b == END then (st.(partial := None), st.partial)
    else (st.(partial := Some(st.partial.value + [b])), None)
  }

  function AsSeq<T>(o: Option<T>): seq<T> { if o.Some? then [o.value] else [] }

  function ReadState(st: State, bytes: seq<byte>): State
    decreases |bytes|
  {
    if bytes == [] then st else ReadState(Take(st, bytes[0]).0, bytes[1..])
  }

  function ReadPackets(st: State, bytes: seq<byte>): seq<seq<byte>>
    decreases |bytes|
  {
    if bytes == [] then [] else AsSeq(Take(st, bytes[0]).1) + ReadPackets(Take(st, bytes[0]).0, bytes[1..])
  }

  class Reader {
    var st: State

    constructor ()
      ensures st == START
    {
      st := START;
    }

    /** The body of the loop of `slip_reader`; a packet that is completed is yielded. */
    method TakeByte(b: byte) returns (packet: Option<seq<byte>>)
      modifies this
      ensures (st, packet) == Take(old(st), b)
    {
      packet := None;
      if st.bad {
        return;
      }
      if st.partial.None? {
        if b == END {
          st := st.(partial := Some([]));
        } else {
          st := st.(bad := true);
        }
      } else if st.inEscape {
        st := st.(inEscape := false);
        if b == ESC_END {
          st := st.(partial := Some(st.partial.value + [END]));
        } else if b == ESC_ESC {
          st := st.(partial := Some(st.partial.value + [ESC]));
        } else {
          st := st.(bad := true);
        }
      } else if b == ESC {
        st := st.(inEscape := true);
      } else if b == END {
        packet := st.partial;
        st := st.(partial := None);
      } else {
        st := st.(partial := Some(st.partial.value + [b]));
      }
    }

    /** `slip_reader` on the bytes that one `read` of the port returned. */
    method Feed(bytes: seq<byte>) returns (packets: seq<seq<byte>>)
      modifies this
      ensures packets == ReadPackets(old(st), bytes) && st == ReadState(old(st), bytes)
    {
      hide Take;
      packets := [];
      var i := 0;
      assert bytes[0..] == bytes;
      while i < |bytes|
        invariant i <= |bytes|
        invariant ReadState(st, bytes[i..]) == ReadState(old(st), bytes)
        invariant packets + ReadPackets(st, bytes[i..]) == ReadPackets(old(st), bytes)
      {
        assert bytes[i..][1..] == bytes[i + 1..];
        var packet := TakeByte(bytes[i]);
        packets := packets + AsSeq(packet);
        i := i + 1;
      }
    }
  }

  lemma ReadOne(st: State, b: byte)
    ensures ReadState(st, [b]) == Take(st, b).0 && ReadPackets(st, [b]) == AsSeq(Take(st, b).1)
  {
    hide Take;
    assert [b][1..] == [];
    assert ReadPackets(Take(st, b).0, [b][1..]) == [];
  }

  /** However bytes are cut into pieces, reading the pieces in turn reads the whole. */
  lemma {:induction false} ReadConcat(st: State, a: seq<byte>, b: seq<byte>)
    ensures ReadState(st, a + b) == ReadState(ReadState(st, a), b)
    ensures ReadPackets(st, a + b) == ReadPackets(st, a) + ReadPackets(ReadState(st, a), b)
    decreases |a|
  {
    hide Take;
    if a == [] {
      assert a + b == b;
    } else {
      ReadConcat(Take(st, a[0]).0, a[1..], b);
      assert (a + b)[1..] == a[1..] + b;
    }
  }

  function Flat(pieces: seq<seq<byte>>): seq<byte> {
    if pieces == [] then [] else pieces[0] + Flat(pieces[1..])
  }

  /** The packets from pieces read one after the other. */
  function ReadPieces(st: State, pieces: seq<seq<byte>>): seq<seq<byte>>
    decreases |pieces|
  {
    if pieces == [] then [] else ReadPackets(st, pieces[0]) + ReadPieces(ReadState(st, pieces[0]), pieces[1..])
  }

  lemma {:induction false} PiecesDoNotMatter(st: State, pieces: seq<seq<byte>>)
    ensures ReadPieces(st, pieces) == ReadPackets(st, Flat(pieces))
    decreases |pieces|
  {
    if pieces != [] {
      PiecesDoNotMatter(ReadState(st, pieces[0]), pieces[1..]);
      ReadConcat(st, pieces[0], Flat(pieces[1..]));
    }
  }

  /** Inside a packet, the escaped bytes of `p` add `p` and complete nothing. */
  lemma {:induction false} ReadEscaped(got: seq<byte>, p: seq<byte>)
    ensures var st := START.(partial := Some(got));
      ReadState(st, Escape(p)) == START.(partial := Some(got + p)) && ReadPackets(st, Escape(p)) == []
    decreases |p|
  {
    hide Take, ReadState, ReadPackets;
    if p == [] {
      ReadNone(START.(partial := Some(got)));
      assert got + p == got;
    } else {
      var st := START.(partial := Some(got));
      hide EscapeByte;
      ReadConcat(st, EscapeByte(p[0]), Escape(p[1..]));
      ReadFirst(got, p[0], EscapeByte(p[0]));
      ReadEscaped(got + [p[0]], p[1..]);
      Shift(got, p);
    }
  }

  lemma Shift(got: seq<byte>, p: seq<byte>)
    requires p != []
    ensures got + [p[0]] + p[1..] == got + p
  {
  }

  lemma ReadFirst(got: seq<byte>, c: byte, first: seq<byte>)
    requires first == EscapeByte(c)
    ensures var st := START.(partial := Some(got));
      ReadState(st, first) == START.(partial := Some(got + [c])) && ReadPackets(st, first) == []
  {
    hide ReadState, ReadPackets;
    var st := START.(partial := Some(got));
    ReadOne(st, first[0]);
    if |first| == 2 {
      assert first == [first[0]] + [first[1]];
      ReadConcat(st, [first[0]], [first[1]]);
      ReadOne(Take(st, first[0]).0, first[1]);
    } else {
      assert first == [first[0]];
    }
  }

  lemma ReadNone(st: State)
    ensures ReadState(st, []) == st && ReadPackets(st, []) == []
  {
  }

  lemma ReadFrame(p: seq<byte>)
    ensures ReadState(START, Frame(p)) == START && ReadPackets(START, Frame(p)) == [p]
  {
    TwoPassIsEscape(p);
    var open := START.(partial := Some([]));
    assert Frame(p) == [END] + (Escape(p) + [END]);
    hide ReadState, ReadPackets, Escape;
    ReadOne(START, END);
    ReadConcat(START, [END], Escape(p) + [END]);
    ReadConcat(open, Escape(p), [END]);
    ReadEscaped([], p);
    var full := START.(partial := Some(p));
    assert [] + p == p;
    ReadOne(full, END);
  }

  function Frames(packets: seq<seq<byte>>): seq<byte> {
    if packets == [] then [] else Frame(packets[0]) + Frames(packets[1..])
  }

  lemma {:induction false} ReadFrames(packets: seq<seq<byte>>)
    ensures ReadPackets(START, Frames(packets)) == packets && ReadState(START, Frames(packets)) == START
  {
    if packets != [] {
      ReadFrames(packets[1..]);
      ReadConcat(START, Frame(packets[0]), Frames(packets[1..]));
      ReadFrame(packets[0]);
    }
  }

  /** Any packets written and then read in any pieces come back as they were. */
  lemma RoundTrip(packets: seq<seq<byte>>, pieces: seq<seq<byte>>)
    requires Flat(pieces) == Frames(packets)
    ensures ReadPieces(START, pieces) == packets
  {
    PiecesDoNotMatter(START, pieces);
    ReadFrames(packets);
  }
}
