// Reassembly undoes framing: packets sent one after another, each with some
// of its block padding, come out again whatever chunks the link cuts them
// into, as long as no chunk overflows the buffer.
module Framing {
  import opened Options
  import opened Octets
  import opened Reassembler

  ghost predicate WellFormed(p: seq<Byte>) { p != [] && PacketSize(p) == Known(|p|) }

  // A packet, and how many of its padding bytes the sender added.
  datatype Item = Item(packet: seq<Byte>, pads: nat)

  ghost predicate Sendable(i: Item) { WellFormed(i.packet) && i.pads <= Padding(|i.packet|).1 }

  function Pads(i: Item): seq<Byte> {
    var b := Padding(|i.packet|).0;
    seq(i.pads, k => b)
  }

  function Framed(items: seq<Item>): seq<Byte> {
    if items == [] then [] else items[0].packet + Pads(items[0]) + Framed(items[1..])
  }

  function Packets(items: seq<Item>): seq<seq<Byte>> {
    if items == [] then [] else [items[0].packet] + Packets(items[1..])
  }

  // ---- One packet ------------------------------------------------------------

  // A packet's own length is never seen too early: no proper prefix is
  // malformed, or complete.
  lemma PrefixStable(p: seq<Byte>, i: nat)
    requires WellFormed(p) && 0 < i < |p|
    ensures PacketSize(p[..i]) == Unknown || PacketSize(p[..i]) == Known(|p|)
  {
    var header := if p[0] == 1 then 14 else 16;
    if i >= header { assert p[..i][12..header] == p[12..header]; }
  }

  // Between packets: the padding byte, if any is expected, starts no packet.
  ghost predicate Clean(s: Stream) { s.bytes == [] && (s.left > 0 ==> s.pad >= 16) }

  function Rest(s: Stream, n: nat): Stream { Stream([], Padding(n).0, Padding(n).1, s.last) }

  lemma {:induction false} FeedPacket(s: Stream, p: seq<Byte>, i: nat)
    requires WellFormed(p) && i < |p| && s.bytes == p[..i]
    requires if i == 0 then Clean(s) else s.left == 0
    ensures FeedAll(s, p[i..]) == Fed(Rest(s, |p|), [p])
    decreases |p| - i
  {
    assert s.bytes + [p[i]] == p[..i + 1];
    assert p[i..][1..] == p[i + 1..];
    if i + 1 < |p| {
      PrefixStable(p, i + 1);
      var t := Feed(s, p[i]).s;
      FeedPacket(t, p, i + 1);
    } else {
      assert p[..i + 1] == p;
      assert FeedAll(Rest(s, |p|), p[i + 1..]) == Fed(Rest(s, |p|), []);
    }
  }

  lemma {:induction false} FeedPads(s: Stream, b: Byte, k: nat)
    requires s.bytes == [] && k <= s.left && b == s.pad
    ensures FeedAll(s, seq(k, j => b)) == Fed(s.(left := s.left - k), [])
    decreases k
  {
    if k > 0 {
      assert seq(k, j => b)[1..] == seq(k - 1, j => b);
      FeedPads(s.(left := s.left - 1), b, k - 1);
    }
  }

  lemma FeedItem(s: Stream, i: Item)
    requires Sendable(i) && Clean(s)
    ensures FeedAll(s, i.packet + Pads(i)) == Fed(Rest(s, |i.packet|).(left := Padding(|i.packet|).1 - i.pads), [i.packet])
  {
    var p := i.packet;
    FeedPacket(s, p, 0);
    assert p[0..] == p;
    FeedPads(Rest(s, |p|), Padding(|p|).0, i.pads);
    FeedAllSplit(s, p, Pads(i));
  }

  lemma {:induction false} FeedFramed(s: Stream, items: seq<Item>)
    requires Clean(s) && forall i :: 0 <= i < |items| ==> Sendable(items[i])
    ensures FeedAll(s, Framed(items)).Fed? && FeedAll(s, Framed(items)).out == Packets(items)
    ensures Clean(FeedAll(s, Framed(items)).s)
    decreases |items|
  {
    hide Padding, WellFormed, Feed;
    if items != [] {
      FeedItem(s, items[0]);
      var t := Rest(s, |items[0].packet|).(left := Padding(|items[0].packet|).1 - items[0].pads);
      FeedFramed(t, items[1..]);
      FeedAllSplit(s, items[0].packet + Pads(items[0]), Framed(items[1..]));
    }
  }

  // ---- Where a chunk boundary falls ---------------------------------------------

  // How much of an unfinished packet the first o bytes of the stream end with.
  function Buffered(items: seq<Item>, o: nat): nat {
    if items == [] then 0
    else
      var n := |items[0].packet|;
      if o < n then o
      else if o < n + items[0].pads then 0
      else Buffered(items[1..], o - n - items[0].pads)
  }

  // One byte into an unfinished packet, short of its end.
  lemma FeedByte(s: Stream, p: seq<Byte>, o: nat)
    requires WellFormed(p) && o + 1 < |p| && s.bytes == p[..o] && (if o == 0 then Clean(s) else s.left == 0)
    ensures var f := FeedAll(s, [p[o]]);
            f.Fed? && f.out == [] && f.s.bytes == p[..o + 1] && f.s.left == 0
  {
    PrefixStable(p, o + 1);
    hide PacketSize, Padding;
    assert p[..o] + [p[o]] == p[..o + 1];
    assert [p[o]][1..] == [];
    assert FeedAll(Feed(s, p[o]).s, []) == Fed(Feed(s, p[o]).s, []);
  }

  lemma {:induction false} FeedPart(s: Stream, p: seq<Byte>, o: nat)
    requires WellFormed(p) && Clean(s) && 0 < o < |p|
    ensures FeedAll(s, p[..o]).Fed? && FeedAll(s, p[..o]).out == [] && FeedAll(s, p[..o]).s.bytes == p[..o]
    ensures FeedAll(s, p[..o]).s.left == 0
  {
    hide WellFormed, PacketSize, Padding, Feed, FeedAll;
    assert p[..o] == p[..o - 1] + [p[o - 1]];
    if o == 1 {
      assert p[..0] == [];
      FeedByte(s, p, 0);
      assert p[..1] == [p[0]];
    } else {
      FeedPart(s, p, o - 1);
      FeedByte(FeedAll(s, p[..o - 1]).s, p, o - 1);
      FeedAllSplit(s, p[..o - 1], [p[o - 1]]);
    }
  }

  lemma {:induction false} BufferedBytes(s: Stream, items: seq<Item>, o: nat)
    requires Clean(s) && (forall i :: 0 <= i < |items| ==> Sendable(items[i])) && o <= |Framed(items)|
    ensures FeedAll(s, Framed(items)[..o]).Fed? && |FeedAll(s, Framed(items)[..o]).s.bytes| == Buffered(items, o)
    decreases |items|
  {
    hide Padding, WellFormed, Feed;
    if o == 0 {
      NothingBuffered(items);
    } else {
      var i := items[0];
      var n, all := |i.packet|, Framed(items);
      if o < n {
        assert all[..o] == i.packet[..o];
        FeedPart(s, i.packet, o);
      } else if o < n + i.pads {
        var part := Item(i.packet, o - n);
        assert all[..o] == i.packet + Pads(part);
        FeedItem(s, part);
      } else {
        var t := Rest(s, n).(left := Padding(n).1 - i.pads);
        assert all[..o] == (i.packet + Pads(i)) + Framed(items[1..])[..o - n - i.pads];
        FeedItem(s, i);
        BufferedBytes(t, items[1..], o - n - i.pads);
        FeedAllSplit(s, i.packet + Pads(i), Framed(items[1..])[..o - n - i.pads]);
      }
    }
  }

  lemma NothingBuffered(items: seq<Item>)
    requires forall i :: 0 <= i < |items| ==> Sendable(items[i])
    ensures Buffered(items, 0) == 0
  {
  }

  // ---- Any chunks ------------------------------------------------------------

  datatype Chunk = Chunk(data: seq<Byte>, at: nat)

  function Joined(chunks: seq<Chunk>): seq<Byte> {
    if chunks == [] then [] else chunks[0].data + Joined(chunks[1..])
  }

  // What a run of notifications yields; none if one is refused.
  function Deliver(s: Stream, chunks: seq<Chunk>): Option<seq<seq<Byte>>>
    decreases |chunks|
  {
    if chunks == [] then Some([])
    else
      var (t, out) := Pushed(s, chunks[0].data, chunks[0].at);
      if out.None? then None
      else
        var more := Deliver(t, chunks[1..]);
        if more.None? then None else Some(out.value + more.value)
  }

  // No pause of more than five seconds.
  predicate Timely(chunks: seq<Chunk>, last: nat) {
    chunks == [] || (chunks[0].at - last <= STALE_MILLIS && Timely(chunks[1..], chunks[0].at))
  }

  // No chunk overflows the buffer: said of the packets and the cuts alone.
  predicate Roomy(items: seq<Item>, chunks: seq<Chunk>, o: nat) {
    chunks == [] ||
    (Buffered(items, o) + |chunks[0].data| <= MAX_PACKET && Roomy(items, chunks[1..], o + |chunks[0].data|))
  }

  lemma {:induction false} LastIrrelevant(s: Stream, chunk: seq<Byte>, l: nat)
    ensures match FeedAll(s, chunk)
            case Bad => FeedAll(s.(last := l), chunk) == Bad
            case Fed(t, out) => FeedAll(s.(last := l), chunk) == Fed(t.(last := l), out)
    decreases |chunk|
  {
    if chunk != [] {
      match Feed(s, chunk[0])
      case Bad =>
      case Fed(t, out) => LastIrrelevant(t, chunk[1..], l);
    }
  }

  // One push in the middle of the stream.
  lemma PushStep(s0: Stream, all: seq<Byte>, o: nat, c: Chunk, s: Stream)
    requires FeedAll(s0, all).Fed? && o + |c.data| <= |all| && c.data == all[o..o + |c.data|]
    requires FeedAll(s0, all[..o]).Fed? && s == FeedAll(s0, all[..o]).s.(last := s.last)
    requires c.at - s.last <= STALE_MILLIS
    ensures FeedAll(s0, all[..o + |c.data|]).Fed?
    ensures var (t, out) := Pushed(s, c.data, c.at);
            var next := FeedAll(s0, all[..o + |c.data|]);
            if |s.bytes| + |c.data| > MAX_PACKET then out == None
            else out.Some? && t == next.s.(last := t.last) && t.last == c.at && FeedAll(s0, all[..o]).out + out.value == next.out
  {
    var e := o + |c.data|;
    assert all[..o] + c.data == all[..e];
    assert all[..e] + all[e..] == all;
    FeedAllSplit(s0, all[..o], c.data);
    FeedAllSplit(s0, all[..e], all[e..]);
    LastIrrelevant(FeedAll(s0, all[..o]).s, c.data, c.at);
    assert s.(last := c.at) == FeedAll(s0, all[..o]).s.(last := c.at);
  }

  lemma {:induction false} DeliverFrom(s0: Stream, items: seq<Item>, chunks: seq<Chunk>, o: nat, s: Stream)
    requires Clean(s0) && forall i :: 0 <= i < |items| ==> Sendable(items[i])
    requires o <= |Framed(items)| && Joined(chunks) == Framed(items)[o..] && Timely(chunks, s.last)
    requires FeedAll(s0, Framed(items)[..o]).Fed? && s == FeedAll(s0, Framed(items)[..o]).s.(last := s.last)
    ensures var out := Deliver(s, chunks);
            if Roomy(items, chunks, o) then out.Some? && FeedAll(s0, Framed(items)[..o]).out + out.value == Packets(items)
            else out == None
    decreases |chunks|
  {
    hide FeedAll, Framed, Packets, Buffered, Pushed, Clean, Sendable;
    var all := Framed(items);
    FeedFramed(s0, items);
    BufferedBytes(s0, items, o);
    if chunks == [] {
      assert all[..o] == all;
    } else {
      var c := chunks[0];
      var e := o + |c.data|;
      assert Joined(chunks)[..|c.data|] == c.data && Joined(chunks)[|c.data|..] == Joined(chunks[1..]);
      PushStep(s0, all, o, c, s);
      var (t, out) := Pushed(s, c.data, c.at);
      if out.Some? {
        assert all[o..][|c.data|..] == all[e..];
        DeliverFrom(s0, items, chunks[1..], e, t);
        var more := Deliver(t, chunks[1..]);
        if more.Some? {
          assert FeedAll(s0, all[..o]).out + (out.value + more.value) == (FeedAll(s0, all[..o]).out + out.value) + more.value;
        }
      }
    }
  }

  // Any well-formed packets, any padding up to each block's end, any cuts, no
  // pause over five seconds: exactly the packets, or a refusal when (and only
  // when) some chunk would overflow the buffer.
  lemma ReassemblyUndoesFraming(items: seq<Item>, chunks: seq<Chunk>)
    requires forall i :: 0 <= i < |items| ==> Sendable(items[i])
    requires Joined(chunks) == Framed(items)
    requires chunks != [] ==> Timely(chunks[1..], chunks[0].at)
    ensures Deliver(EMPTY, chunks) == if Roomy(items, chunks, 0) then Some(Packets(items)) else None
  {
    if chunks != [] {
      var start := EMPTY.(last := chunks[0].at);
      assert Refreshed(EMPTY, chunks[0].at) == start == Refreshed(start, chunks[0].at);
      assert Deliver(EMPTY, chunks) == Deliver(start, chunks);
      assert Framed(items)[..0] == [] && Framed(items)[0..] == Framed(items);
      DeliverFrom(start, items, chunks, 0, start);
      assert forall out: seq<seq<Byte>> :: [] + out == out;
    } else {
      NoPackets(items);
    }
  }

  lemma NoPackets(items: seq<Item>)
    requires (forall i :: 0 <= i < |items| ==> Sendable(items[i])) && Framed(items) == []
    ensures items == []
  {
  }

  // Whatever bytes arrive, what comes out is well-formed packets, and the
  // buffer stays within its bound.
  lemma {:induction false} OnlyWellFormed(s: Stream, chunk: seq<Byte>)
    requires FeedAll(s, chunk).Fed?
    ensures forall p :: p in FeedAll(s, chunk).out ==> WellFormed(p)
    ensures |FeedAll(s, chunk).s.bytes| <= |s.bytes| + |chunk|
    decreases |chunk|
  {
    if chunk != [] {
      OnlyWellFormed(Feed(s, chunk[0]).s, chunk[1..]);
    }
  }
}
