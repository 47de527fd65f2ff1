// Ogg pages that each carry one whole packet, and a reader of the page format
// of RFC 3533, section 6.
module Ogg {
  import opened Options
  import opened Octets

  const CAPTURE_PATTERN: seq<Byte> := [79, 103, 103, 83]  // "OggS"
  const HEADER_LEN := 27
  const BOS := 2
  const EOS := 4
  const LARGEST_PACKET := 65024  // 255 lacing values, the last below 255

  datatype Page = Page(flags: Byte, granule: nat, serial: nat, sequence: nat, packet: seq<Byte>)
  {
    predicate Typed() {
      granule < Pow256(8) && serial < Pow256(4) && sequence < Pow256(4) && |packet| <= LARGEST_PACKET
    }
  }

  // The checksum of a page; its value fits four bytes.
  type Crc = seq<Byte> -> nat

  ghost predicate FitsFour(crc: Crc) { forall b :: crc(b) < Pow256(4) }

  // ---- Writing -------------------------------------------------------------------

  function Lacing(n: nat): seq<Byte> { if n >= 255 then [255] + Lacing(n - 255) else [n] }

  function PageWith(p: Page, checksum: nat): seq<Byte> {
    CAPTURE_PATTERN + [0] + [p.flags] + ToLittleEndian(p.granule, 8) + ToLittleEndian(p.serial, 4) + ToLittleEndian(p.sequence, 4)
    + ToLittleEndian(checksum, 4) + [|Lacing(|p.packet|)| % 256] + Lacing(|p.packet|) + p.packet
  }

  function PageBytes(p: Page, crc: Crc): seq<Byte> { PageWith(p, crc(PageWith(p, 0))) }

  function StreamBytes(pages: seq<Page>, crc: Crc): seq<Byte> {
    if pages == [] then [] else StreamBytes(pages[..|pages| - 1], crc) + PageBytes(pages[|pages| - 1], crc)
  }

  // ---- Reading -------------------------------------------------------------------

  function Total(lacing: seq<Byte>): nat { if lacing == [] then 0 else lacing[0] + Total(lacing[1..]) }

  // The packets of a page: each ends at the first lacing value below 255. The
  // last may be unfinished.
  function Packets(lacing: seq<Byte>, payload: seq<Byte>, begun: seq<Byte>): (seq<seq<Byte>>, seq<Byte>)
    requires |payload| == Total(lacing)
    decreases |lacing|
  {
    if lacing == [] then ([], begun)
    else
      var segment := payload[..lacing[0]];
      var rest := payload[lacing[0]..];
      if lacing[0] < 255 then
        var more := Packets(lacing[1..], rest, []);
        ([begun + segment] + more.0, more.1)
      else Packets(lacing[1..], rest, begun + segment)
  }

  datatype Read = Read(flags: Byte, granule: nat, serial: nat, sequence: nat, packets: seq<seq<Byte>>, unfinished: seq<Byte>,
                       len: nat)

  function ZeroChecksum(page: seq<Byte>): seq<Byte>
    requires |page| >= HEADER_LEN
  {
    page[..22] + [0, 0, 0, 0] + page[26..]
  }

  // The first page of the bytes, if it is whole and its checksum holds.
  function ReadPage(b: seq<Byte>, crc: Crc): (r: Option<Read>)
    ensures r.Some? ==> HEADER_LEN <= r.value.len <= |b|
  {
    if |b| < HEADER_LEN || b[..4] != CAPTURE_PATTERN || b[4] != 0 then None
    else
      var segments := b[26];
      if |b| < HEADER_LEN + segments then None
      else
        var lacing := b[HEADER_LEN..HEADER_LEN + segments];
        var start := HEADER_LEN + segments;
        var len := start + Total(lacing);
        if |b| < len || LittleEndian(b[22..26]) != crc(ZeroChecksum(b[..len])) then None
        else
          var packets := Packets(lacing, b[start..len], []);
          Some(Read(b[5], LittleEndian(b[6..14]), LittleEndian(b[14..18]), LittleEndian(b[18..22]), packets.0, packets.1, len))
  }

  // Every page of the bytes, back to back; each with its packets.
  function ReadStream(b: seq<Byte>, crc: Crc): Option<seq<Page>>
    decreases |b|
  {
    if b == [] then Some([])
    else
      var page := ReadPage(b, crc);
      if page.None? || |page.value.packets| != 1 || page.value.unfinished != [] then None
      else
        var p := page.value;
        var more := ReadStream(b[p.len..], crc);
        if more.None? then None
        else Some([Page(p.flags, p.granule, p.serial, p.sequence, p.packets[0])] + more.value)
  }

  // ---- What is written reads back -----------------------------------------------------

  lemma {:induction false} LacingShape(n: nat)
    ensures |Lacing(n)| == n / 255 + 1 && Total(Lacing(n)) == n
    decreases n
  {
    if n >= 255 {
      LacingShape(n - 255);
      assert Lacing(n)[1..] == Lacing(n - 255);
    } else {
      assert Total([n]) == n + Total([n][1..]);
    }
  }

  lemma {:induction false} LacingIsOnePacket(packet: seq<Byte>, begun: seq<Byte>)
    ensures Total(Lacing(|packet|)) == |packet|
    ensures Packets(Lacing(|packet|), packet, begun) == ([begun + packet], [])
    decreases |packet|
  {
    var n := |packet|;
    LacingShape(n);
    if n >= 255 {
      LacingShape(n - 255);
      assert Lacing(n)[1..] == Lacing(n - 255);
      LacingIsOnePacket(packet[255..], begun + packet[..255]);
      assert begun + packet[..255] + packet[255..] == begun + packet;
    } else {
      assert Lacing(n)[1..] == [];
      assert packet[..n] == packet && packet[n..] == [];
      assert [begun + packet] + [] == [begun + packet];
    }
  }

  lemma PageLayout(p: Page, checksum: nat, rest: seq<Byte>)
    requires p.Typed()
    ensures var b := PageWith(p, checksum) + rest;
            var n := |Lacing(|p.packet|)|;
            && n <= 255 && |PageWith(p, checksum)| == HEADER_LEN + n + |p.packet|
            && b[..4] == CAPTURE_PATTERN && b[4] == 0 && b[5] == p.flags && b[26] == n
            && b[6..14] == ToLittleEndian(p.granule, 8) && b[14..18] == ToLittleEndian(p.serial, 4)
            && b[18..22] == ToLittleEndian(p.sequence, 4) && b[22..26] == ToLittleEndian(checksum, 4)
            && b[HEADER_LEN..HEADER_LEN + n] == Lacing(|p.packet|)
            && b[HEADER_LEN + n..HEADER_LEN + n + |p.packet|] == p.packet
            && b[..HEADER_LEN + n + |p.packet|] == PageWith(p, checksum)
            && b[HEADER_LEN + n + |p.packet|..] == rest
  {
    hide Lacing, ToLittleEndian, Pow256;
    LacingShape(|p.packet|);
  }

  lemma ZeroedPage(p: Page, checksum: nat)
    requires p.Typed()
    ensures |PageWith(p, checksum)| >= HEADER_LEN
    ensures ZeroChecksum(PageWith(p, checksum)) == PageWith(p, 0)
  {
    hide Lacing, Pow256, ToLittleEndian;
    ZeroDigits();
    LacingShape(|p.packet|);
  }

  lemma ZeroDigits()
    ensures ToLittleEndian(0, 4) == [0, 0, 0, 0]
  {
    assert ToLittleEndian(0, 1) == [0];
    assert ToLittleEndian(0, 2) == [0, 0];
    assert ToLittleEndian(0, 3) == [0, 0, 0];
  }

  lemma ReadWritten(p: Page, crc: Crc, rest: seq<Byte>)
    requires p.Typed() && FitsFour(crc)
    ensures ReadPage(PageBytes(p, crc) + rest, crc)
            == Some(Read(p.flags, p.granule, p.serial, p.sequence, [p.packet], [], |PageBytes(p, crc)|))
  {
    hide Lacing, Pow256, ToLittleEndian, LittleEndian, PageWith, ZeroChecksum, Packets, Total;
    var checksum := crc(PageWith(p, 0));
    PageLayout(p, checksum, rest);
    ZeroedPage(p, checksum);
    LacingIsOnePacket(p.packet, []);
    assert [] + p.packet == p.packet;
    LittleEndianRoundTrip(p.granule, 8);
    LittleEndianRoundTrip(p.serial, 4);
    LittleEndianRoundTrip(p.sequence, 4);
    LittleEndianRoundTrip(checksum, 4);
  }

  lemma {:induction false} StreamFront(p: Page, pages: seq<Page>, crc: Crc)
    ensures StreamBytes([p] + pages, crc) == PageBytes(p, crc) + StreamBytes(pages, crc)
  {
    hide PageBytes;
    if pages == [] {
      assert [p] + pages == [p] && [p][..0] == [];
      assert StreamBytes([p], crc) == StreamBytes([], crc) + PageBytes(p, crc);
    } else {
      var n := |pages| - 1;
      assert ([p] + pages)[..n + 1] == [p] + pages[..n];
      StreamFront(p, pages[..n], crc);
    }
  }

  // Reading back any stream of such pages gives exactly the pages written.
  lemma {:induction false} StreamReadsBack(pages: seq<Page>, crc: Crc)
    requires FitsFour(crc) && forall p :: p in pages ==> p.Typed()
    ensures ReadStream(StreamBytes(pages, crc), crc) == Some(pages)
  {
    if pages != [] {
      hide PageBytes, ReadPage, Page.Typed, StreamBytes;
      var p, rest := pages[0], pages[1..];
      assert pages == [p] + rest;
      StreamFront(p, rest, crc);
      StreamReadsBack(rest, crc);
      ReadWritten(p, crc, StreamBytes(rest, crc));
      var b := PageBytes(p, crc) + StreamBytes(rest, crc);
      assert b[|PageBytes(p, crc)|..] == StreamBytes(rest, crc);
    }
  }
}
