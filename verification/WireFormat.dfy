// The packets themselves: their fields, the bytes these make, and that the
// reassembler's length rule finds exactly such packets.
module WireFormat {
  import opened Options
  import opened Octets
  import opened Reassembler
  import opened Framing

  // hops: the source route of a version 2 packet. mark: the flag no length depends on.
  datatype Fields = Fields(version: Byte, kind: Byte, ttl: Byte, stamp: seq<Byte>, sender: seq<Byte>, recipient: Option<seq<Byte>>,
                           hops: Option<seq<seq<Byte>>>, mark: bool, payload: seq<Byte>, signature: Option<seq<Byte>>)
  {
    predicate Legal() {
      && (version == 1 || version == 2) && |stamp| == 8 && |sender| == 8
      && (recipient.Some? ==> |recipient.value| == 8)
      && (hops.Some? ==> version == 2 && |hops.value| <= 255 && forall h :: h in hops.value ==> |h| == 8)
      && (signature.Some? ==> |signature.value| == 64)
    }

    function Flags(): Byte {
      (if recipient.Some? then 1 else 0) + (if signature.Some? then 2 else 0) + (if mark then 4 else 0) + (if hops.Some? then 8 else 0)
    }

    function Route(): seq<Byte>
      requires Legal()
    {
      if hops.Some? then [|hops.value|] + Flat(hops.value) else []
    }

    function Bytes(): seq<Byte>
      requires Legal()
    {
      [version, kind, ttl] + stamp + [Flags()] + ToBigEndian(|payload|, if version == 1 then 2 else 4) + sender
      + (if recipient.Some? then recipient.value else []) + Route() + payload + (if signature.Some? then signature.value else [])
    }
  }

  function Flat(hops: seq<seq<Byte>>): seq<Byte> { if hops == [] then [] else hops[0] + Flat(hops[1..]) }

  // A packet is the bytes of some fields, at most 4096 of them.
  ghost predicate IsPacket(p: seq<Byte>) { exists f: Fields :: f.Legal() && f.Bytes() == p && |p| <= 4096 }

  lemma {:induction false} FlatLen(hops: seq<seq<Byte>>)
    requires forall h :: h in hops ==> |h| == 8
    ensures |Flat(hops)| == 8 * |hops|
  {
    if hops != [] {
      assert hops[0] in hops;
      FlatLen(hops[1..]);
    }
  }

  lemma SmallLengths(n: nat, k: nat)
    requires n <= 4096 && (k == 2 || k == 4)
    ensures BigEndian(ToBigEndian(n, k)) == n
  {
    assert Pow256(1) == 256 && Pow256(2) == 65536 && Pow256(3) == 16777216;
    BigEndianRoundTrip(n, k);
  }

  lemma FlagBits(a: bool, b: bool, c: bool, d: bool)
    ensures var flags: Byte := (if a then 1 else 0) + (if b then 2 else 0) + (if c then 4 else 0) + (if d then 8 else 0);
            flags < 16 && (Bit(flags, 1) <==> a) && (Bit(flags, 2) <==> b) && (Bit(flags, 4) <==> c) && (Bit(flags, 8) <==> d)
  {
  }

  lemma InRow(head: seq<Byte>, len: seq<Byte>, sender: seq<Byte>, recipient: seq<Byte>, route: seq<Byte>, rest: seq<Byte>)
    requires |head| == 12
    ensures var p := head + len + sender + recipient + route + rest;
            && |p| == 12 + |len| + |sender| + |recipient| + |route| + |rest|
            && p[0] == head[0] && p[11] == head[11] && p[12..12 + |len|] == len
            && (route != [] ==> p[12 + |len| + |sender| + |recipient|] == route[0])
  {
  }

  // Where the parts of a packet lie.
  lemma Layout(f: Fields)
    requires f.Legal()
    ensures var p := f.Bytes();
            var header := if f.version == 1 then 14 else 16;
            var fixed := header + 8 + if f.recipient.Some? then 8 else 0;
            && |p| == fixed + |f.Route()| + |f.payload| + (if f.signature.Some? then 64 else 0)
            && p[0] == f.version && p[11] == f.Flags() && p[12..header] == ToBigEndian(|f.payload|, header - 12)
            && (if f.hops.Some? then p[fixed] == |f.hops.value| && |f.Route()| == 1 + 8 * |f.hops.value| else f.Route() == [])
  {
    hide ToBigEndian, Fields.Flags, Flat;
    if f.hops.Some? { FlatLen(f.hops.value); }
    var head := [f.version, f.kind, f.ttl] + f.stamp + [f.Flags()];
    var recipient := if f.recipient.Some? then f.recipient.value else [];
    var signature := if f.signature.Some? then f.signature.value else [];
    var len := ToBigEndian(|f.payload|, if f.version == 1 then 2 else 4);
    InRow(head, len, f.sender, recipient, f.Route(), f.payload + signature);
    assert f.Bytes() == head + len + f.sender + recipient + f.Route() + (f.payload + signature);
  }

  lemma BuiltIsFound(f: Fields)
    requires f.Legal() && |f.Bytes()| <= 4096
    ensures WellFormed(f.Bytes())
  {
    hide BigEndian, ToBigEndian, Fields.Bytes, Fields.Route;
    Layout(f);
    FlagBits(f.recipient.Some?, f.signature.Some?, f.mark, f.hops.Some?);
    SmallLengths(|f.payload|, if f.version == 1 then 2 else 4);
    var p := f.Bytes();
    var header := if f.version == 1 then 14 else 16;
    var fixed := header + 8 + if f.recipient.Some? then 8 else 0;
    assert BigEndian(p[12..header]) == |f.payload| && |f.Route()| == if f.hops.Some? then 1 + 8 * |f.hops.value| else 0;
    assert |p| == fixed + |f.Route()| + |f.payload| + if f.signature.Some? then 64 else 0;
    assert f.hops.Some? ==> p[fixed] == |f.hops.value| && |p| > fixed;
  }

  // ---- Every packet the rule finds has such fields ------------------------------------

  function Hops(b: seq<Byte>): seq<seq<Byte>> { if |b| < 8 then [] else [b[..8]] + Hops(b[8..]) }

  lemma {:induction false} HopsFlat(b: seq<Byte>, n: nat)
    requires |b| == 8 * n
    ensures |Hops(b)| == n && Flat(Hops(b)) == b && forall h :: h in Hops(b) ==> |h| == 8
  {
    if n > 0 {
      HopsFlat(b[8..], n - 1);
      assert Hops(b)[1..] == Hops(b[8..]);
      assert b == b[..8] + b[8..];
    }
  }

  lemma Digits(b: seq<Byte>, k: nat)
    requires |b| == k
    ensures ToBigEndian(BigEndian(b), k) == b
  {
    BigEndianUnique(b);
  }

  // The ends of a packet's parts: header, addresses, route, payload.
  datatype Ends = Ends(header: nat, fixed: nat, body: nat, end: nat)
  {
    predicate Of(p: seq<Byte>) {
      12 <= header && header + 8 <= fixed <= body <= end <= |p|
    }
  }

  lemma EndsOf(p: seq<Byte>) returns (e: Ends)
    requires WellFormed(p)
    ensures e.Of(p) && p[11] < 16 && (p[0] == 1 || p[0] == 2) && e.header == (if p[0] == 1 then 14 else 16)
    ensures e.fixed == e.header + 8 + (if Bit(p[11], 1) then 8 else 0)
    ensures if Bit(p[11], 8) then p[0] == 2 && e.fixed < e.body && e.body == e.fixed + 1 + 8 * (p[e.fixed] as nat) else e.body == e.fixed
    ensures e.end - e.body == BigEndian(p[12..e.header])
    ensures |p| == e.end + (if Bit(p[11], 2) then 64 else 0) <= 4096
  {
    hide BigEndian, Bit;
    var header := if p[0] == 1 then 14 else 16;
    var fixed := header + 8 + if Bit(p[11], 1) then 8 else 0;
    var route: nat := if Bit(p[11], 8) then 1 + 8 * (p[fixed] as nat) else 0;
    var body := fixed + route;
    e := Ends(header, fixed, body, body + BigEndian(p[12..header]));
  }

  function FieldsOf(p: seq<Byte>, e: Ends): Fields
    requires e.Of(p)
  {
    Fields(p[0], p[1], p[2], p[3..11], p[e.header..e.header + 8],
           if Bit(p[11], 1) then Some(p[e.header + 8..e.fixed]) else None,
           if Bit(p[11], 8) && e.fixed < e.body then Some(Hops(p[e.fixed + 1..e.body])) else None,
           Bit(p[11], 4), p[e.body..e.end], if Bit(p[11], 2) then Some(p[e.end..]) else None)
  }

  lemma FoundIsBuilt(p: seq<Byte>)
    requires WellFormed(p)
    ensures IsPacket(p)
  {
    hide WellFormed, BigEndian, ToBigEndian, Bit, Hops, Flat;
    var e := EndsOf(p);
    var f := FieldsOf(p, e);
    FlagSum(p[11]);
    Digits(p[12..e.header], e.header - 12);
    if Bit(p[11], 8) {
      HopsFlat(p[e.fixed + 1..e.body], p[e.fixed]);
      assert p[e.fixed..e.body] == [p[e.fixed]] + p[e.fixed + 1..e.body];
    }
    assert f.Legal();
    assert f.Route() == p[e.fixed..e.body];
    BytesAre(p, e, f);
  }

  // Put together again, the parts are the packet.
  lemma BytesAre(p: seq<Byte>, e: Ends, f: Fields)
    requires e.Of(p) && f.Legal() && f == FieldsOf(p, e) && f.Route() == p[e.fixed..e.body] && f.Flags() == p[11]
    requires ToBigEndian(e.end - e.body, e.header - 12) == p[12..e.header] && e.header == (if p[0] == 1 then 14 else 16)
    requires (!Bit(p[11], 1) ==> e.fixed == e.header + 8) && (!Bit(p[11], 2) ==> e.end == |p|)
    ensures f.Bytes() == p
  {
    hide ToBigEndian, Bit, Hops, Fields.Route, Fields.Flags;
    assert [p[0], p[1], p[2]] == p[..3] && [p[11]] == p[11..12];
    assert p[e.end..] == if f.signature.Some? then f.signature.value else [];
    assert p[e.header + 8..e.fixed] == if f.recipient.Some? then f.recipient.value else [];
    Parts(p, e.header, e.fixed, e.body, e.end);
  }

  lemma FlagSum(flags: Byte)
    requires flags < 16
    ensures flags == (if Bit(flags, 1) then 1 else 0) + (if Bit(flags, 2) then 2 else 0) + (if Bit(flags, 4) then 4 else 0)
                     + (if Bit(flags, 8) then 8 else 0)
  {
  }

  lemma Parts(p: seq<Byte>, header: nat, fixed: nat, body: nat, end: nat)
    requires 12 <= header && header + 8 <= fixed <= body <= end <= |p|
    ensures p == p[..3] + p[3..11] + p[11..12] + p[12..header] + p[header..header + 8] + p[header + 8..fixed] + p[fixed..body]
                 + p[body..end] + p[end..]
  {
  }

  // The length rule finds exactly the packets.
  lemma PacketsExactly(p: seq<Byte>)
    ensures WellFormed(p) <==> IsPacket(p)
  {
    if WellFormed(p) {
      FoundIsBuilt(p);
    } else if IsPacket(p) {
      var f: Fields :| f.Legal() && f.Bytes() == p && |p| <= 4096;
      BuiltIsFound(f);
    }
  }

  // No beginning of a packet is refused.
  lemma BeginningAccepted(begun: seq<Byte>, p: seq<Byte>)
    requires IsPacket(p) && begun != [] && begun <= p
    ensures PacketSize(begun) != Malformed
  {
    PacketsExactly(p);
    hide PacketSize, IsPacket;
    assert p[..|begun|] == begun;
    if |begun| < |p| { PrefixStable(p, |begun|); } else { assert begun == p; }
  }

  // ---- Padding ----------------------------------------------------------------------

  // The block a packet of n bytes fills: the least that leaves sixteen bytes.
  ghost predicate Fills(n: nat, block: nat) {
    IsBlock(block) && n + 16 <= block && forall b :: IsBlock(b) && n + 16 <= b ==> block <= b
  }

  predicate IsBlock(n: nat) { n == 256 || n == 512 || n == 1024 || n == 2048 }

  // Up to 255 bytes of padding may follow, each the number of them.
  lemma PaddingExactly(n: nat)
    ensures n + 16 > 2048 ==> Padding(n) == (0, 0)
    ensures n + 16 <= 2048 ==> exists block: nat :: Fills(n, block)
    ensures forall block: nat :: Fills(n, block) ==> Padding(n) == if block - n <= 255 then (block - n, block - n) else (0, 0)
  {
    if n + 16 <= 2048 {
      var block := if n + 16 <= 256 then 256 else if n + 16 <= 512 then 512 else if n + 16 <= 1024 then 1024 else 2048;
      assert Fills(n, block);
      assert IsBlock(256) && IsBlock(512) && IsBlock(1024) && IsBlock(2048);
    }
  }

  // ---- Packets sent are packets received ------------------------------------------------

  // A packet's fields, and how much of its padding was sent.
  datatype Sent = Sent(f: Fields, pads: nat, pad: Byte)
  {
    ghost predicate Legal() {
      && f.Legal() && |f.Bytes()| <= 4096
      && (pads > 0 ==> exists block: nat :: Fills(|f.Bytes()|, block) && pads <= block - |f.Bytes()| <= 255 && pad == block - |f.Bytes()|)
    }
  }

  ghost function OnAir(sent: seq<Sent>): seq<Byte>
    requires forall s :: s in sent ==> s.Legal()
  {
    if sent == [] then []
    else
      assert sent[0] in sent && sent[0].Legal();
      sent[0].f.Bytes() + seq(sent[0].pads, i => sent[0].pad) + OnAir(sent[1..])
  }

  ghost function PacketsOf(sent: seq<Sent>): seq<seq<Byte>>
    requires forall s :: s in sent ==> s.Legal()
  {
    if sent == [] then []
    else
      assert sent[0] in sent && sent[0].Legal();
      [sent[0].f.Bytes()] + PacketsOf(sent[1..])
  }

  ghost function Items(sent: seq<Sent>): seq<Item>
    requires forall s :: s in sent ==> s.Legal()
  {
    if sent == [] then []
    else
      assert sent[0] in sent && sent[0].Legal();
      [Item(sent[0].f.Bytes(), sent[0].pads)] + Items(sent[1..])
  }

  lemma {:induction false} ItemsAre(sent: seq<Sent>)
    requires forall s :: s in sent ==> s.Legal()
    ensures Framed(Items(sent)) == OnAir(sent) && Packets(Items(sent)) == PacketsOf(sent)
    ensures forall i :: 0 <= i < |Items(sent)| ==> Sendable(Items(sent)[i])
    decreases |sent|
  {
    if sent != [] {
      hide WellFormed, Padding, Fields.Bytes, Fields.Legal;
      assert sent[0] in sent && sent[0].Legal();
      ItemsAre(sent[1..]);
      assert Items(sent)[1..] == Items(sent[1..]);
      OneItem(sent[0]);
    }
  }

  lemma OneItem(s: Sent)
    requires s.Legal()
    ensures Sendable(Item(s.f.Bytes(), s.pads)) && Pads(Item(s.f.Bytes(), s.pads)) == seq(s.pads, i => s.pad)
  {
    hide Padding, Fields.Bytes;
    BuiltIsFound(s.f);
    PaddingExactly(|s.f.Bytes()|);
  }

  // No pause of more than five seconds.
  ghost predicate Prompt(chunks: seq<Chunk>) {
    forall i :: 0 < i < |chunks| ==> chunks[i].at <= chunks[i - 1].at + 5000
  }

  lemma {:induction false} PromptIsTimely(chunks: seq<Chunk>)
    requires Prompt(chunks) && chunks != []
    ensures Timely(chunks[1..], chunks[0].at)
    decreases |chunks|
  {
    if |chunks| > 1 {
      var rest := chunks[1..];
      forall i | 0 < i < |rest| ensures rest[i].at <= rest[i - 1].at + 5000 { assert rest[i] == chunks[i + 1]; }
      PromptIsTimely(chunks[1..]);
      assert chunks[1].at <= chunks[1 - 1].at + 5000;
    }
  }

  // Packets of any legal fields, sent one after another, each with some of its
  // padding, cut anywhere, without a long pause: exactly those packets arrive,
  // unless a cut leaves more than the buffer holds; then, and only then, a
  // notification is refused.
  lemma SentArrive(sent: seq<Sent>, chunks: seq<Chunk>)
    requires (forall s :: s in sent ==> s.Legal()) && Joined(chunks) == OnAir(sent) && Prompt(chunks)
    ensures Deliver(EMPTY, chunks) == if Roomy(Items(sent), chunks, 0) then Some(PacketsOf(sent)) else None
  {
    hide Fields.Bytes, Fields.Legal, Deliver, Roomy;
    ItemsAre(sent);
    if chunks != [] { PromptIsTimely(chunks); }
    ReassemblyUndoesFraming(Items(sent), chunks);
  }

  // An unfinished packet is kept over a pause of five seconds, not longer.
  lemma PauseExactly(s: Stream, chunk: seq<Byte>, now: nat)
    ensures now > s.last + 5000 ==> Pushed(s, chunk, now) == Pushed(EMPTY.(last := now), chunk, now)
    ensures now <= s.last + 5000 ==> Pushed(s, chunk, now) == Pushed(s.(last := now), chunk, now)
  {
  }

  // A signed packet of 90 bytes is not taken for its first 26.
  lemma SignedExample(sender: seq<Byte>, signature: seq<Byte>)
    requires |sender| == 8 && |signature| == 64
    ensures var f := Fields(1, 17, 7, sender, sender, None, None, false, [1, 2, 3, 4], Some(signature));
            f.Legal() && |f.Bytes()| == 90 && PacketSize(f.Bytes()) == Known(90) && PacketSize(f.Bytes()[..26]) == Known(90)
  {
    var f := Fields(1, 17, 7, sender, sender, None, None, false, [1, 2, 3, 4], Some(signature));
    Layout(f);
    BuiltIsFound(f);
    PrefixStable(f.Bytes(), 26);
    assert f.Bytes()[..26][12..14] == f.Bytes()[12..14];
  }
}
