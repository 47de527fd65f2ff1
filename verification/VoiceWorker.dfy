// The recording worker: captured samples to Opus frames to Ogg pages, by the
// granule rules of RFC 7845, section 4.
module VoiceWorker {
  import opened Options
  import opened Numbers
  import opened Octets
  import opened Ogg
  import opened VoiceRecording

  // ---- The page writer ---------------------------------------------------------------

  const OPUS_HEAD: seq<Byte> := [79, 112, 117, 115, 72, 101, 97, 100]
  const OPUS_TAGS: seq<Byte> := [79, 112, 117, 115, 84, 97, 103, 115]
  const VENDOR: seq<Byte> := [67, 111, 110, 101, 115, 116]

  function IdentificationHeader(): seq<Byte> {
    OPUS_HEAD + [1, 1] + ToLittleEndian(PRE_SKIP, 2) + ToLittleEndian(RATE, 4) + ToLittleEndian(0, 2) + [0]
  }

  function CommentHeader(): seq<Byte> { OPUS_TAGS + ToLittleEndian(|VENDOR|, 4) + VENDOR + ToLittleEndian(0, 4) }

  function HeaderPages(serial: nat): seq<Page> {
    [Page(BOS, 0, serial, 0, IdentificationHeader()), Page(0, 0, serial, 1, CommentHeader())]
  }

  lemma Checksummed(p: Page, checksum: nat)
    requires p.Typed()
    ensures |PageWith(p, 0)| >= HEADER_LEN
    ensures PageWith(p, 0)[..22] + ToLittleEndian(checksum, 4) + PageWith(p, 0)[26..] == PageWith(p, checksum)
  {
    hide Lacing, Pow256, ToLittleEndian;
    LacingShape(|p.packet|);
  }

  lemma PlainPage(p: Page)
    ensures PageWith(p, 0) == CAPTURE_PATTERN + [0] + [p.flags] + ToLittleEndian(p.granule, 8) + ToLittleEndian(p.serial, 4)
              + ToLittleEndian(p.sequence, 4) + ToLittleEndian(0, 4) + [|Lacing(|p.packet|)| % 256] + Lacing(|p.packet|) + p.packet
  {
  }

  lemma LacingStep(n: nat)
    ensures n >= 255 ==> Lacing(n) == [255] + Lacing(n - 255)
    ensures n < 255 ==> Lacing(n) == [n]
  {
  }

  method SegmentTable(len: nat) returns (lacing: seq<Byte>)
    ensures lacing == Lacing(len)
  {
    hide Lacing;
    lacing := [];
    var remaining := len;
    while remaining >= 255
      invariant remaining >= 0 && lacing + Lacing(remaining) == Lacing(len)
      decreases remaining
    {
      LacingStep(remaining);
      assert lacing + [255] + Lacing(remaining - 255) == lacing + ([255] + Lacing(remaining - 255));
      lacing := lacing + [255];
      remaining := remaining - 255;
    }
    LacingStep(remaining);
    lacing := lacing + [remaining];
  }

  class OggOpusWriter {
    const crc: Crc
    const serial: nat
    var output: seq<Byte>
    var sequence: nat
    ghost var pages: seq<Page>

    ghost predicate Valid()
      reads this
    {
      output == StreamBytes(pages, crc) && sequence == Min(|pages|, U32_MAX) && serial <= U32_MAX
    }

    constructor (crc: Crc, serial: nat)
      requires serial <= U32_MAX
      ensures Valid() && pages == [] && this.crc == crc && this.serial == serial
    {
      this.crc, this.serial := crc, serial;
      output, sequence, pages := [], 0, [];
    }

    method WritePage(packet: seq<Byte>, granule: nat, flags: Byte)
      requires Valid() && granule < Pow256(8) && |packet| <= LARGEST_PACKET
      modifies this
      ensures Valid() && pages == old(pages) + [Page(flags, granule, serial, Min(|old(pages)|, U32_MAX), packet)]
      ensures old(output) <= output
    {
      hide Pow256, ToLittleEndian, Lacing, PageWith;
      var lacing := SegmentTable(|packet|);
      ghost var p := Page(flags, granule, serial, sequence, packet);
      FourBytes();
      var page := CAPTURE_PATTERN + [0] + [flags] + ToLittleEndian(granule, 8) + ToLittleEndian(serial, 4)
                  + ToLittleEndian(sequence, 4) + ToLittleEndian(0, 4) + [|lacing| % 256] + lacing + packet;
      PlainPage(p);
      var checksum := crc(page);
      Checksummed(p, checksum);
      page := page[..22] + ToLittleEndian(checksum, 4) + page[26..];
      assert (pages + [p])[..|pages|] == pages;
      output := output + page;
      sequence := Min(sequence + 1, U32_MAX);
      pages := pages + [p];
    }

    lemma FourBytes()
      ensures Pow256(4) == U32_MAX + 1
    {
      assert Pow256(1) == 256 && Pow256(2) == 65536 && Pow256(3) == 16777216;
    }

    method WriteHeaders()
      requires Valid() && pages == []
      modifies this
      ensures Valid() && pages == HeaderPages(serial)
    {
      hide ToLittleEndian;
      EightBytes();
      WritePage(IdentificationHeader(), 0, BOS);
      WritePage(CommentHeader(), 0, 0);
    }

    lemma EightBytes()
      ensures 0 < Pow256(8)
    {
    }

    method WritePacket(packet: seq<Byte>, granule: nat, eos: bool)
      requires Valid() && granule < Pow256(8) && |packet| <= LARGEST_PACKET
      modifies this
      ensures Valid()
      ensures pages == old(pages) + [Page(if eos then EOS else 0, granule, serial, Min(|old(pages)|, U32_MAX), packet)]
    {
      WritePage(packet, granule, if eos then EOS else 0);
    }
  }

  // ---- What a recording holds ---------------------------------------------------------

  // What the worker sees of the capture queue: a sample; none while recording;
  // or none, and then the stop flag. The flag is read after the empty pop, so
  // samples pushed in between can still follow. After the last answer the queue
  // stays empty and the flag set.
  datatype Answer = Popped(x: Sample) | Waiting | Stopped
  type Feed = seq<Answer>

  // Everything that was captured.
  function Samples(feed: Feed): seq<Sample> {
    if feed == [] then [] else (if feed[0].Popped? then [feed[0].x] else []) + Samples(feed[1..])
  }

  // The samples of the next frame, up to room, and the answers left after it.
  function NextChunk(feed: Feed, room: nat): (seq<Sample>, Feed)
    decreases |feed|
  {
    if room == 0 || feed == [] then ([], feed)
    else if feed[0].Stopped? then ([], feed[1..])
    else if feed[0].Waiting? then NextChunk(feed[1..], room)
    else
      var more := NextChunk(feed[1..], room - 1);
      ([feed[0].x] + more.0, more.1)
  }

  lemma {:induction false} NextChunkFits(feed: Feed, room: nat)
    ensures var c := NextChunk(feed, room);
            |c.0| <= room && |c.1| <= |feed| && (c.0 != [] ==> |c.1| < |feed|)
    decreases |feed|
  {
    if room > 0 && feed != [] && !feed[0].Stopped? {
      NextChunkFits(feed[1..], if feed[0].Waiting? then room else room - 1);
    }
  }

  // The frames' samples, until a stop finds a frame empty.
  function Chunks(feed: Feed): seq<seq<Sample>>
    decreases |feed|
  {
    var c := NextChunk(feed, FRAME_SAMPLES);
    NextChunkFits(feed, FRAME_SAMPLES);
    if c.0 == [] then [] else [c.0] + Chunks(c.1)
  }

  function Flat(chunks: seq<seq<Sample>>): seq<Sample> { if chunks == [] then [] else chunks[0] + Flat(chunks[1..]) }

  // The encoder's packet for the last of the frames it was given; None: it failed.
  type Encoder = seq<seq<Sample>> -> Option<seq<Byte>>

  ghost predicate Bounded(e: Encoder) { forall f :: e(f).Some? ==> |e(f).value| <= MAX_PACKET_BYTES }

  function Padded(c: seq<Sample>): seq<Sample> { seq(FRAME_SAMPLES, i requires i >= 0 => if i < |c| then c[i] else 0.0) }

  // Silent frames follow the captured ones.
  function FrameAt(chunks: seq<seq<Sample>>, k: nat): (frame: seq<Sample>)
    ensures |frame| == FRAME_SAMPLES
  {
    Padded(if k < |chunks| then chunks[k] else [])
  }

  function Frames(chunks: seq<seq<Sample>>, n: nat): seq<seq<Sample>> {
    if n == 0 then [] else Frames(chunks, n - 1) + [FrameAt(chunks, n - 1)]
  }

  // Frames until n captured samples are decodable behind the encoder's delay.
  function Enough(n: nat): nat { (n + PRE_SKIP + FRAME_SAMPLES - 1) / FRAME_SAMPLES }

  function PageCount(chunks: seq<seq<Sample>>): nat {
    if |chunks| > Enough(|Flat(chunks)|) then |chunks| else Enough(|Flat(chunks)|)
  }

  function Granule(chunks: seq<seq<Sample>>, k: nat): nat {
    if k + 1 == PageCount(chunks) then PRE_SKIP + |Flat(chunks)| else FRAME_SAMPLES * (k + 1)
  }

  function AudioPage(e: Encoder, chunks: seq<seq<Sample>>, serial: nat, k: nat): Page {
    Page(if k + 1 == PageCount(chunks) then EOS else 0, Granule(chunks, k), serial, Min(k + 2, U32_MAX), PacketOf(e, chunks, k + 1))
  }

  function PacketOf(e: Encoder, chunks: seq<seq<Sample>>, n: nat): seq<Byte> {
    if e(Frames(chunks, n)).Some? then e(Frames(chunks, n)).value else []
  }

  function AudioPages(e: Encoder, chunks: seq<seq<Sample>>, serial: nat, n: nat): seq<Page> {
    if n == 0 then [] else AudioPages(e, chunks, serial, n - 1) + [AudioPage(e, chunks, serial, n - 1)]
  }

  lemma {:induction false} AudioPagesLen(e: Encoder, chunks: seq<seq<Sample>>, serial: nat, n: nat)
    ensures |AudioPages(e, chunks, serial, n)| == n
    ensures forall k :: 0 <= k < n ==> AudioPages(e, chunks, serial, n)[k] == AudioPage(e, chunks, serial, k)
  {
    hide AudioPage;
    if n > 0 { AudioPagesLen(e, chunks, serial, n - 1); }
  }

  // ---- When the frames are the captured samples -----------------------------------------

  // No sample arrives after an empty pop that saw the stop.
  predicate Settled(feed: Feed) {
    feed == [] || (if feed[0].Stopped? then Samples(feed[1..]) == [] else Settled(feed[1..]))
  }

  function Split(s: seq<Sample>): seq<seq<Sample>>
    decreases |s|
  {
    if s == [] then [] else if |s| <= FRAME_SAMPLES then [s] else [s[..FRAME_SAMPLES]] + Split(s[FRAME_SAMPLES..])
  }

  // A chunk is full, or was cut by a stop, or by the end of the answers.
  lemma {:induction false} ChunkOf(feed: Feed, room: nat)
    ensures var c := NextChunk(feed, room);
            && |c.0| <= room && Samples(feed) == c.0 + Samples(c.1) && |c.1| <= |feed|
            && (if |c.0| == room then Settled(feed) <==> Settled(c.1) else Settled(feed) <==> Samples(c.1) == [])
    decreases |feed|
  {
    if room > 0 && feed != [] {
      if feed[0].Stopped? {
        assert [] + Samples(feed[1..]) == Samples(feed[1..]);
      } else if feed[0].Waiting? {
        ChunkOf(feed[1..], room);
      } else {
        ChunkOf(feed[1..], room - 1);
        var more := NextChunk(feed[1..], room - 1);
        assert [feed[0].x] + (more.0 + Samples(more.1)) == [feed[0].x] + more.0 + Samples(more.1);
      }
    }
  }

  lemma SplitFront(c: seq<Sample>, rest: seq<Sample>)
    requires 0 < |c| <= FRAME_SAMPLES
    ensures |c| == FRAME_SAMPLES ==> Split(c + rest) == [c] + Split(rest)
    ensures |c| < FRAME_SAMPLES && rest != [] ==> |Split(c + rest)| > 0 && Split(c + rest)[0] != c
    ensures rest == [] ==> Split(c + rest) == [c]
  {
    if rest == [] {
      assert c + rest == c;
    } else if |c| == FRAME_SAMPLES {
      assert (c + rest)[..FRAME_SAMPLES] == c && (c + rest)[FRAME_SAMPLES..] == rest;
    } else {
      assert |Split(c + rest)[0]| > |c|;
    }
  }

  lemma NoSamplesNoChunks(feed: Feed)
    requires Samples(feed) == []
    ensures Chunks(feed) == [] && Split([]) == []
  {
    ChunkOf(feed, FRAME_SAMPLES);
  }

  // The frames hold exactly the captured samples, each but the last full, if
  // and only if nothing arrives after an empty pop that saw the stop.
  lemma {:induction false} WholeExactlyIfSettled(feed: Feed)
    ensures Chunks(feed) == Split(Samples(feed)) <==> Settled(feed)
    decreases |feed|
  {
    hide Split, Samples, NextChunk, Settled;
    ChunkOf(feed, FRAME_SAMPLES);
    NextChunkFits(feed, FRAME_SAMPLES);
    var c := NextChunk(feed, FRAME_SAMPLES);
    if c.0 == [] {
      assert c.0 + Samples(c.1) == Samples(c.1);
      SplitEmpty(Samples(c.1));
    } else {
      SplitFront(c.0, Samples(c.1));
      if |c.0| == FRAME_SAMPLES {
        WholeExactlyIfSettled(c.1);
        assert Chunks(feed) == [c.0] + Chunks(c.1);
        assert ([c.0] + Chunks(c.1))[1..] == Chunks(c.1) && ([c.0] + Split(Samples(c.1)))[1..] == Split(Samples(c.1));
      } else if Samples(c.1) == [] {
        NoSamplesNoChunks(c.1);
      } else {
        assert Chunks(feed)[0] == c.0;
      }
    }
  }

  lemma SplitEmpty(s: seq<Sample>)
    ensures Split(s) == [] <==> s == []
  {
  }

  lemma {:induction false} FlatSplit(s: seq<Sample>)
    ensures Flat(Split(s)) == s
    ensures |Split(s)| == (|s| + FRAME_SAMPLES - 1) / FRAME_SAMPLES
    decreases |s|
  {
    if |s| > FRAME_SAMPLES {
      FlatSplit(s[FRAME_SAMPLES..]);
      assert Split(s)[1..] == Split(s[FRAME_SAMPLES..]);
      assert s == s[..FRAME_SAMPLES] + s[FRAME_SAMPLES..];
    } else if s != [] {
      assert Flat([s]) == s + Flat([s][1..]);
    }
  }

  lemma {:induction false} SplitAt(s: seq<Sample>, k: nat, i: nat)
    requires i < FRAME_SAMPLES
    ensures FrameAt(Split(s), k)[i] == if FRAME_SAMPLES * k + i < |s| then s[FRAME_SAMPLES * k + i] else 0.0
    decreases k
  {
    FlatSplit(s);
    if k > 0 && |s| > FRAME_SAMPLES {
      SplitAt(s[FRAME_SAMPLES..], k - 1, i);
      assert Split(s)[1..] == Split(s[FRAME_SAMPLES..]);
    }
  }

  // ---- The stream's shape --------------------------------------------------------------

  lemma EnoughCovers(n: nat)
    ensures FRAME_SAMPLES * (Enough(n) - 1) < n + PRE_SKIP <= FRAME_SAMPLES * Enough(n)
  {
  }

  // A settled recording of N samples has exactly as many pages as cover them
  // behind the encoder's delay. Page k stands at the end of its frame, the last
  // where the samples end, so granules strictly increase and never claim more
  // than was encoded; only the last page ends the stream; and frame k holds the
  // samples from 960 k on, then silence.
  lemma StreamShape(e: Encoder, feed: Feed, serial: nat)
    requires Settled(feed)
    ensures var s, chunks := Samples(feed), Chunks(feed);
            var n := Enough(|s|);
            var pages := AudioPages(e, chunks, serial, n);
            && PageCount(chunks) == n && |pages| == n && 960 * (n - 1) < 312 + |s| <= 960 * n
            && (forall j, k :: 0 <= j < k < n ==> pages[j].granule < pages[k].granule)
            && (forall k :: 0 <= k < n ==> pages[k].granule <= 960 * (k + 1) && (pages[k].flags == 4 <==> k == n - 1))
            && (forall k :: 0 <= k < n - 1 ==> pages[k].granule == 960 * (k + 1))
            && pages[n - 1].granule == 312 + |s|
            && (forall k :: 0 <= k < n ==> pages[k].packet == PacketOf(e, chunks, k + 1))
            && (forall k: nat, i: nat :: i < 960 ==>
                  FrameAt(chunks, k)[i] == if 960 * k + i < |s| then s[960 * k + i] else 0.0)
  {
    hide PacketOf, Chunks, Samples, Split, Settled, Flat, FrameAt;
    var s, chunks := Samples(feed), Chunks(feed);
    WholeExactlyIfSettled(feed);
    FlatSplit(s);
    EnoughCovers(|s|);
    forall k: nat, i: nat | i < FRAME_SAMPLES
      ensures FrameAt(chunks, k)[i] == if FRAME_SAMPLES * k + i < |s| then s[FRAME_SAMPLES * k + i] else 0.0
    {
      SplitAt(s, k, i);
    }
    GranulesOf(e, chunks, serial);
  }

  // The granules of any recording: they increase exactly when no more frames
  // were cut than the samples need.
  lemma GranulesOf(e: Encoder, chunks: seq<seq<Sample>>, serial: nat)
    ensures var n, total := PageCount(chunks), |Flat(chunks)|;
            var pages := AudioPages(e, chunks, serial, n);
            && |pages| == n
            && (|chunks| <= Enough(total) ==> forall j, k :: 0 <= j < k < n ==> pages[j].granule < pages[k].granule)
            && (|chunks| > Enough(total) && n > 1 ==> pages[n - 2].granule >= pages[n - 1].granule)
            && (|chunks| <= Enough(total) ==> forall k :: 0 <= k < n ==> pages[k].granule <= FRAME_SAMPLES * (k + 1))
            && (forall k :: 0 <= k < n ==> (pages[k].flags == EOS <==> k == n - 1))
            && (forall k :: 0 <= k < n - 1 ==> pages[k].granule == FRAME_SAMPLES * (k + 1))
            && (n > 0 ==> pages[n - 1].granule == PRE_SKIP + total)
            && (forall k :: 0 <= k < n ==> pages[k].packet == PacketOf(e, chunks, k + 1))
  {
    hide PacketOf, Flat;
    var total := |Flat(chunks)|;
    EnoughCovers(total);
    AudioPagesLen(e, chunks, serial, PageCount(chunks));
    hide AudioPages, Enough;
    var n := PageCount(chunks);
    var pages := AudioPages(e, chunks, serial, n);
    forall k | 0 <= k < n ensures pages[k] == AudioPage(e, chunks, serial, k) { }
    if |chunks| <= Enough(total) {
      forall j, k | 0 <= j < k < n ensures pages[j].granule < pages[k].granule {
        assert FRAME_SAMPLES * (j + 1) <= FRAME_SAMPLES * k;
      }
    }
  }

  // A sample pushed between the empty pop and the reading of the stop flag: a
  // second frame for two samples, whose page stands before the first.
  lemma LateSample(a: Sample, b: Sample)
    ensures var feed := [Popped(a), Stopped, Popped(b)];
            && Chunks(feed) == [[a], [b]] && PageCount(Chunks(feed)) == 2 && Enough(2) == 1
            && Granule(Chunks(feed), 0) == 960 && Granule(Chunks(feed), 1) == 314
  {
    var feed := [Popped(a), Stopped, Popped(b)];
    assert feed == [Popped(a)] + [Stopped, Popped(b)] && [Stopped, Popped(b)][1..] == [Popped(b)];
    OneSample(a, [Stopped, Popped(b)]);
    assert [Popped(b)] == [Popped(b)] + [];
    OneSample(b, []);
    assert Chunks([]) == [];
    assert Chunks([Popped(b)]) == [[b]];
    assert Chunks(feed) == [[a], [b]];
    assert [[a], [b]][1..] == [[b]] && [[b]][1..] == [];
    assert Flat([[b]]) == [b] + Flat([]);
    assert Flat([[a], [b]]) == [a] + Flat([[b]]);
  }

  lemma OneSample(x: Sample, rest: Feed)
    requires rest == [] || rest[0].Stopped?
    ensures NextChunk([Popped(x)] + rest, FRAME_SAMPLES) == ([x], if rest == [] then [] else rest[1..])
  {
    var feed := [Popped(x)] + rest;
    assert feed[1..] == rest;
    var more := NextChunk(feed[1..], FRAME_SAMPLES - 1);
    assert more.0 == [];
    assert [x] + more.0 == [x];
  }

  // After a whole frame, or none, such a sample is lost.
  lemma LostSample(b: Sample)
    ensures Chunks([Stopped, Popped(b)]) == [] && Samples([Stopped, Popped(b)]) == [b]
  {
    assert [Stopped, Popped(b)][1..] == [Popped(b)] && [Popped(b)][1..] == [];
    assert Samples([Popped(b)]) == [b] + Samples([]);
  }

  // While fewer than 2^32 pages are written, they are numbered without gaps.
  lemma NumberedInOrder(e: Encoder, chunks: seq<seq<Sample>>, serial: nat)
    requires PageCount(chunks) + 1 <= U32_MAX
    ensures var all := HeaderPages(serial) + AudioPages(e, chunks, serial, PageCount(chunks));
            |all| == PageCount(chunks) + 2 && forall i :: 0 <= i < |all| ==> all[i].sequence == i
  {
    hide PacketOf, Granule, ToLittleEndian, PageCount;
    AudioPagesLen(e, chunks, serial, PageCount(chunks));
    var audio := AudioPages(e, chunks, serial, PageCount(chunks));
    var all := HeaderPages(serial) + audio;
    forall i | 0 <= i < |all| ensures all[i].sequence == i {
      if i >= 2 {
        assert all[i] == audio[i - 2];
        assert audio[i - 2] == AudioPage(e, chunks, serial, i - 2);
      }
    }
  }

  // Granules and positions stay below 2^64.
  ghost predicate Fits(chunks: seq<seq<Sample>>) {
    FRAME_SAMPLES * |chunks| < Pow256(8) && PRE_SKIP + FRAME_SAMPLES + |Flat(chunks)| < Pow256(8)
  }

  // Whatever was captured reads back, page by page, from the bytes written.
  lemma RecordingReadsBack(crc: Crc, e: Encoder, chunks: seq<seq<Sample>>, serial: nat)
    requires FitsFour(crc) && Bounded(e) && serial <= U32_MAX && Fits(chunks)
    ensures var all := HeaderPages(serial) + AudioPages(e, chunks, serial, PageCount(chunks));
            ReadStream(StreamBytes(all, crc), crc) == Some(all)
  {
    hide PageCount, ReadStream, StreamBytes, AudioPage, Fits;
    var audio := AudioPages(e, chunks, serial, PageCount(chunks));
    var all := HeaderPages(serial) + audio;
    AudioPagesLen(e, chunks, serial, PageCount(chunks));
    forall p | p in all ensures p.Typed() {
      if p in audio {
        var k :| 0 <= k < |audio| && audio[k] == p;
        assert p == AudioPage(e, chunks, serial, k);
        AudioPageTyped(e, chunks, serial, k);
      } else {
        HeadersTyped(serial, p);
      }
    }
    StreamReadsBack(all, crc);
  }

  lemma AudioPageTyped(e: Encoder, chunks: seq<seq<Sample>>, serial: nat, k: nat)
    requires Bounded(e) && serial <= U32_MAX && Fits(chunks) && k < PageCount(chunks)
    ensures AudioPage(e, chunks, serial, k).Typed()
  {
    hide Frames, Flat;
    EnoughCovers(|Flat(chunks)|);
    assert Pow256(4) == U32_MAX + 1 by { assert Pow256(1) == 256 && Pow256(2) == 65536 && Pow256(3) == 16777216; }
    hide Pow256;
    assert FRAME_SAMPLES * (k + 1) <= FRAME_SAMPLES * PageCount(chunks);
  }

  lemma HeadersTyped(serial: nat, p: Page)
    requires serial <= U32_MAX && p in HeaderPages(serial)
    ensures p.Typed()
  {
    assert Pow256(4) == U32_MAX + 1 by { assert Pow256(1) == 256 && Pow256(2) == 65536 && Pow256(3) == 16777216; }
  }

  // ---- The worker -------------------------------------------------------------------------

  datatype Outcome = Recorded | NoAudio | EncoderFailed

  // n frames are encoded, the last held back, the pages before it written.
  ghost predicate Written(e: Encoder, chunks: seq<seq<Sample>>, n: nat, pending: Option<seq<Byte>>, pages: seq<Page>, serial: nat) {
    && (n == 0 ==> pending.None? && pages == HeaderPages(serial))
    && (n > 0 ==> pending == e(Frames(chunks, n)) && pending.Some?
                  && pages == HeaderPages(serial) + AudioPages(e, chunks, serial, n - 1))
  }

  lemma NextFrame(e: Encoder, chunks: seq<seq<Sample>>, n: nat, pending: Option<seq<Byte>>, pages: seq<Page>, serial: nat,
                  history: seq<seq<Sample>>, frame: seq<Sample>)
    requires Written(e, chunks, n, pending, pages, serial) && n < PageCount(chunks)
    requires history == Frames(chunks, n) && frame == FrameAt(chunks, n)
    ensures history + [frame] == Frames(chunks, n + 1)
    ensures var more := if n == 0 then [] else [Page(0, FRAME_SAMPLES * n, serial, Min(|pages|, U32_MAX), pending.value)];
            e(Frames(chunks, n + 1)).Some? ==> Written(e, chunks, n + 1, e(Frames(chunks, n + 1)), pages + more, serial)
  {
    hide FrameAt, PageCount, HeaderPages;
    if n > 0 {
      AudioPagesLen(e, chunks, serial, n - 1);
      TwoHeaders(serial);
      assert pages + [AudioPage(e, chunks, serial, n - 1)] == HeaderPages(serial) + AudioPages(e, chunks, serial, n);
    } else {
      assert pages + [] == pages;
      assert pages + AudioPages(e, chunks, serial, 0) == pages;
    }
  }

  lemma TwoHeaders(serial: nat)
    ensures |HeaderPages(serial)| == 2
  {
  }

  lemma LastPage(e: Encoder, chunks: seq<seq<Sample>>, n: nat, pending: Option<seq<Byte>>, pages: seq<Page>, serial: nat)
    requires Written(e, chunks, n, pending, pages, serial) && 0 < n == PageCount(chunks) && Bounded(e)
    ensures pending.Some? && |pending.value| <= MAX_PACKET_BYTES
    ensures pages + [Page(EOS, PRE_SKIP + |Flat(chunks)|, serial, Min(|pages|, U32_MAX), pending.value)]
            == HeaderPages(serial) + AudioPages(e, chunks, serial, n)
  {
    hide Frames, PageCount, HeaderPages, Flat;
    AudioPagesLen(e, chunks, serial, n - 1);
    TwoHeaders(serial);
    assert pages + [AudioPage(e, chunks, serial, n - 1)] == HeaderPages(serial) + AudioPages(e, chunks, serial, n);
  }

  // Encodes one frame, and writes the page of the one before it.
  method EncodeFrame(e: Encoder, ogg: OggOpusWriter, ghost chunks: seq<seq<Sample>>, n: nat, pending: Option<seq<Byte>>,
                     history: seq<seq<Sample>>, frame: seq<Sample>)
    returns (packet: Option<seq<Byte>>)
    requires ogg.Valid() && Bounded(e) && Written(e, chunks, n, pending, ogg.pages, ogg.serial)
    requires n < PageCount(chunks) && history == Frames(chunks, n) && frame == FrameAt(chunks, n) && FRAME_SAMPLES * n < Pow256(8)
    modifies ogg
    ensures ogg.Valid() && packet == e(Frames(chunks, n + 1)) && history + [frame] == Frames(chunks, n + 1)
    ensures packet.Some? ==> Written(e, chunks, n + 1, packet, ogg.pages, ogg.serial)
  {
    hide Frames, FrameAt, PageCount, Pow256, AudioPages;
    NextFrame(e, chunks, n, pending, ogg.pages, ogg.serial, history, frame);
    packet := e(history + [frame]);
    if packet.None? { return; }
    assert ogg.pages + [] == ogg.pages;
    if pending.Some? { ogg.WritePacket(pending.value, FRAME_SAMPLES * n, false); }
  }

  // Takes answers until the frame is full or an empty pop sees the stop.
  method FillFrame(feed: Feed, frame: array<Sample>, start: nat) returns (t: nat, len: nat)
    requires frame.Length == FRAME_SAMPLES && start <= |feed|
    modifies frame
    ensures start <= t <= |feed| && len <= FRAME_SAMPLES
    ensures NextChunk(feed[start..], FRAME_SAMPLES) == (frame[..len], feed[t..])
  {
    t, len := start, 0;
    assert forall c: seq<Sample> :: [] + c == c;
    while len < FRAME_SAMPLES && t < |feed|
      invariant start <= t <= |feed| && len <= FRAME_SAMPLES
      invariant var more := NextChunk(feed[t..], FRAME_SAMPLES - len);
                NextChunk(feed[start..], FRAME_SAMPLES) == (frame[..len] + more.0, more.1)
      decreases |feed| - t
    {
      ghost var before, rest := frame[..len], feed[t..];
      assert rest[1..] == feed[t + 1..];
      if feed[t].Stopped? {
        assert before + [] == before;
        t := t + 1;
        return;
      }
      if feed[t].Popped? {
        ghost var more := NextChunk(feed[t + 1..], FRAME_SAMPLES - len - 1);
        assert before + ([feed[t].x] + more.0) == before + [feed[t].x] + more.0;
        frame[len] := feed[t].x;
        assert frame[..len + 1] == before + [feed[t].x];
        len := len + 1;
      }
      t := t + 1;
    }
    assert frame[..len] + [] == frame[..len];
  }

  method Silence(frame: array<Sample>, len: nat)
    requires len <= frame.Length == FRAME_SAMPLES
    modifies frame
    ensures frame[..] == Padded(old(frame[..len]))
  {
    var i := len;
    while i < frame.Length
      invariant len <= i <= frame.Length
      invariant frame[..len] == old(frame[..len]) && forall j :: len <= j < i ==> frame[j] == 0.0
    {
      frame[i] := 0.0;
      i := i + 1;
    }
    assert forall j :: 0 <= j < len ==> frame[j] == frame[..len][j];
  }

  lemma ChunksFrom(feed: Feed)
    ensures var c := NextChunk(feed, FRAME_SAMPLES);
            |c.0| <= FRAME_SAMPLES && (c.0 != [] ==> |c.1| < |feed|) && |c.1| <= |feed|
    ensures var c := NextChunk(feed, FRAME_SAMPLES); Chunks(feed) == if c.0 == [] then [] else [c.0] + Chunks(c.1)
  {
    NextChunkFits(feed, FRAME_SAMPLES);
  }

  lemma {:induction false} FlatBack(chunks: seq<seq<Sample>>, c: seq<Sample>)
    ensures Flat(chunks + [c]) == Flat(chunks) + c
  {
    if chunks == [] {
      assert [] + [c] == [c] && [c][1..] == [];
    } else {
      assert (chunks + [c])[1..] == chunks[1..] + [c];
      FlatBack(chunks[1..], c);
      assert chunks[0] + (Flat(chunks[1..]) + c) == chunks[0] + Flat(chunks[1..]) + c;
    }
  }

  // How many frames, against how many pages there will be.
  lemma PagesLeft(chunks: seq<seq<Sample>>, n: nat)
    ensures n < |chunks| ==> n < PageCount(chunks)
    ensures FRAME_SAMPLES * n < PRE_SKIP + |Flat(chunks)| ==> n < PageCount(chunks)
    ensures (n == |chunks| || (n > |chunks| && FRAME_SAMPLES * (n - 1) < PRE_SKIP + |Flat(chunks)|))
            && FRAME_SAMPLES * n >= PRE_SKIP + |Flat(chunks)| ==>
              n == PageCount(chunks)
  {
    hide Flat;
    EnoughCovers(|Flat(chunks)|);
  }

  // One recording: the captured samples frame by frame, the last padded with
  // silence, then silent frames until the tail is decodable.
  method RecordLoop(feed: Feed, e: Encoder, ogg: OggOpusWriter) returns (outcome: Outcome)
    requires ogg.Valid() && ogg.pages == HeaderPages(ogg.serial) && Bounded(e) && Fits(Chunks(feed))
    modifies ogg
    ensures ogg.Valid()
    ensures outcome.NoAudio? <==> Chunks(feed) == []
    ensures outcome.Recorded? ==>
              ogg.pages == HeaderPages(ogg.serial) + AudioPages(e, Chunks(feed), ogg.serial, PageCount(Chunks(feed)))
    ensures outcome.EncoderFailed? ==> exists n :: 1 <= n <= PageCount(Chunks(feed)) && e(Frames(Chunks(feed), n)).None?
  {
    hide Chunks, Flat, Frames, Padded, Pow256, AudioPages, HeaderPages, StreamBytes, PageCount, Written, OggOpusWriter.Valid, Bounded,
      NextChunk;
    ghost var all := Chunks(feed);
    var frame := new Sample[FRAME_SAMPLES];
    var n, t, valid := 0, 0, 0;
    var history: seq<seq<Sample>> := [];
    var pending: Option<seq<Byte>> := None;
    NothingYet(e, all, ogg.pages, ogg.serial);
    assert feed[0..] == feed && all[..0] == [] && all[0..] == all;
    while true
      invariant t <= |feed| && n <= |all| && all[n..] == Chunks(feed[t..]) && valid == |Flat(all[..n])|
      invariant ogg.Valid() && Written(e, all, n, pending, ogg.pages, ogg.serial) && history == Frames(all, n)
      decreases |feed| - t
    {
      ChunksFrom(feed[t..]);
      var len;
      t, len := FillFrame(feed, frame, t);
      if len == 0 { break; }
      assert all[n] == frame[..len] && all[n..][1..] == all[n + 1..] && all[..n + 1] == all[..n] + [all[n]];
      FlatBack(all[..n], all[n]);
      valid := valid + len;
      Silence(frame, len);
      PagesLeft(all, n);
      var packet := EncodeFrame(e, ogg, all, n, pending, history, frame[..]);
      if packet.None? { return EncoderFailed; }
      pending, history, n := packet, history + [frame[..]], n + 1;
    }
    assert all[n..] == [] && all[..n] == all;
    if valid == 0 {
      NoneCaptured(feed);
      return NoAudio;
    }
    NoneCaptured(feed);
    while FRAME_SAMPLES * n < PRE_SKIP + valid
      invariant valid == |Flat(all)| && n >= |all| && (n == |all| || FRAME_SAMPLES * (n - 1) < PRE_SKIP + valid)
      invariant ogg.Valid() && Written(e, all, n, pending, ogg.pages, ogg.serial) && history == Frames(all, n)
      decreases PRE_SKIP + valid - FRAME_SAMPLES * n
    {
      Silence(frame, 0);
      PagesLeft(all, n);
      var packet := EncodeFrame(e, ogg, all, n, pending, history, frame[..]);
      if packet.None? { return EncoderFailed; }
      pending, history, n := packet, history + [frame[..]], n + 1;
    }
    PagesLeft(all, n);
    LastPage(e, all, n, pending, ogg.pages, ogg.serial);
    ogg.WritePacket(pending.value, PRE_SKIP + valid, true);
    outcome := Recorded;
  }

  lemma NothingYet(e: Encoder, chunks: seq<seq<Sample>>, pages: seq<Page>, serial: nat)
    requires pages == HeaderPages(serial)
    ensures Frames(chunks, 0) == [] && Flat([]) == [] && Written(e, chunks, 0, None, pages, serial)
  {
  }

  lemma NoneCaptured(feed: Feed)
    ensures |Flat(Chunks(feed))| == 0 <==> Chunks(feed) == []
  {
    ChunksFrom(feed);
  }
}
