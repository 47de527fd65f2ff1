// What the recording does with each device sample, and the bytes its headers are.
module RecordingAnswers {
  import opened Options
  import opened Octets
  import opened Ogg
  import opened VoiceRecording
  import opened VoiceWorker

  // ---- Mixing down -------------------------------------------------------------------

  lemma {:induction false} SumOfEqual(s: seq<Sample>, x: Sample)
    requires forall i :: 0 <= i < |s| ==> s[i] == x
    ensures SumOf(s) == |s| as real * x
  {
    if s != [] { SumOfEqual(s[..|s| - 1], x); }
  }

  lemma {:induction false} SumChanged(s: seq<Sample>, k: nat, d: Sample)
    requires k < |s|
    ensures SumOf(s[k := s[k] + d]) == SumOf(s) + d
  {
    var n := |s| - 1;
    var t := s[k := s[k] + d];
    if k < n {
      assert t[..n] == s[..n][k := s[..n][k] + d];
      SumChanged(s[..n], k, d);
    } else {
      assert t[..n] == s[..n];
    }
  }

  // Channels that agree give their sample.
  lemma MonoOfEqual(data: seq<Sample>, channels: nat, i: nat, x: Sample)
    requires channels > 0 && (i + 1) * channels <= |data| && forall j :: i * channels <= j < (i + 1) * channels ==> data[j] == x
    ensures Mono(data, channels, i) == x
  {
    var frame := data[i * channels..(i + 1) * channels];
    assert |frame| == channels;
    SumOfEqual(frame, x);
  }

  // Every channel of a frame weighs the same, and no sample of another frame counts.
  lemma MonoWeighs(data: seq<Sample>, channels: nat, i: nat, j: nat, d: Sample)
    requires channels > 0 && (i + 1) * channels <= |data| && j < |data|
    ensures Mono(data[j := data[j] + d], channels, i) ==
            Mono(data, channels, i) + if i * channels <= j < (i + 1) * channels then d / channels as real else 0.0
  {
    var a, b := i * channels, (i + 1) * channels;
    var more := data[j := data[j] + d];
    if a <= j < b {
      assert more[a..b] == data[a..b][j - a := data[a..b][j - a] + d];
      SumChanged(data[a..b], j - a, d);
      Shares(SumOf(data[a..b]), d, channels as real);
    } else {
      assert more[a..b] == data[a..b];
    }
  }

  lemma Shares(x: real, y: real, n: real)
    requires n > 0.0
    ensures (x + y) / n == x / n + y / n
  {
  }

  // Each whole device frame gives one sample, in order.
  lemma FramesExactly(data: seq<Sample>, channels: nat)
    requires channels > 0
    ensures var frames := MonoFrames(data, channels);
            && |frames| * channels <= |data| < (|frames| + 1) * channels
            && forall i :: 0 <= i < |frames| ==> (i + 1) * channels <= |data| && frames[i] == Mono(data, channels, i)
  {
    hide Mono;
    assert |data| == channels * (|data| / channels) + |data| % channels;
    var frames := MonoFrames(data, channels);
    forall i | 0 <= i < |frames| ensures (i + 1) * channels <= |data| && frames[i] == Mono(data, channels, i) {
      WholeFrame(data, channels, i);
    }
  }

  // ---- Resampling --------------------------------------------------------------------

  // Sample k is the device frame whose share of the time it falls in: frame i
  // is given from floor(48000 i / rate) on, up to floor(48000 (i + 1) / rate).
  lemma {:induction false} ResampledAt(frames: seq<Sample>, rate: nat, i: nat, k: nat)
    requires rate > 0 && i < |frames| && 48000 * i / rate <= k < 48000 * (i + 1) / rate
    ensures k < |Resampled(frames, rate).0| && Resampled(frames, rate).0[k] == frames[i]
  {
    var n := |frames| - 1;
    assert frames == frames[..n] + [frames[n]];
    OneMoreFrame(frames[..n], frames[n], rate);
    InStep(frames[..n], rate);
    InStep(frames, rate);
    if i < n { ResampledAt(frames[..n], rate, i, k); }
  }

  // ---- Headers ------------------------------------------------------------------------

  lemma TwoDigits(x: nat)
    ensures ToLittleEndian(x, 2) == [x % 256, x / 256 % 256]
  {
    assert ToLittleEndian(x / 256, 1) == [x / 256 % 256] + ToLittleEndian(x / 256 / 256, 0);
  }

  lemma FourDigits(x: nat)
    ensures ToLittleEndian(x, 4) == [x % 256, x / 256 % 256, x / 65536 % 256, x / 16777216 % 256]
  {
    TwoDigits(x / 65536);
    assert ToLittleEndian(x, 4) == [x % 256] + ToLittleEndian(x / 256, 3);
    assert ToLittleEndian(x / 256, 3) == [x / 256 % 256] + ToLittleEndian(x / 65536, 2);
  }

  // The two header packets, byte for byte: "OpusHead", version 1, one channel,
  // 312 samples to skip, 48000 Hz, no gain, family 0; "OpusTags", "Conest", no
  // comments. Their pages are the first two; only the first begins the stream.
  lemma HeaderBytes()
    ensures IdentificationHeader() == [79, 112, 117, 115, 72, 101, 97, 100, 1, 1, 56, 1, 128, 187, 0, 0, 0, 0, 0]
    ensures CommentHeader() == [79, 112, 117, 115, 84, 97, 103, 115, 6, 0, 0, 0, 67, 111, 110, 101, 115, 116, 0, 0, 0, 0]
    ensures forall serial :: HeaderPages(serial) == [Page(2, 0, serial, 0, IdentificationHeader()), Page(0, 0, serial, 1, CommentHeader())]
  {
    hide ToLittleEndian;
    HeaderDigits();
  }

  lemma HeaderDigits()
    ensures ToLittleEndian(312, 2) == [56, 1] && ToLittleEndian(48000, 4) == [128, 187, 0, 0]
    ensures ToLittleEndian(0, 2) == [0, 0] && ToLittleEndian(6, 4) == [6, 0, 0, 0] && ToLittleEndian(0, 4) == [0, 0, 0, 0]
  {
    hide ToLittleEndian;
    TwoDigits(312);
    TwoDigits(0);
    FourDigits(48000);
    FourDigits(6);
    FourDigits(0);
  }

  // A page, byte for byte: "OggS", version 0, the flags, then the granule, the
  // serial and the sequence number and the checksum of the page with none, low
  // byte first, the segment table and the packet.
  lemma PageBytesExactly(p: Page, crc: Crc)
    requires p.Typed()
    ensures var b, n := PageBytes(p, crc), |p.packet| / 255 + 1;
            && |b| == 27 + n + |p.packet| && b[..6] == [79, 103, 103, 83, 0, p.flags]
            && b[6..14] == ToLittleEndian(p.granule, 8)
            && b[14..18] == [p.serial % 256, p.serial / 256 % 256, p.serial / 65536 % 256, p.serial / 16777216 % 256]
            && b[18..22] == [p.sequence % 256, p.sequence / 256 % 256, p.sequence / 65536 % 256, p.sequence / 16777216 % 256]
            && b[22..26] == ToLittleEndian(crc(b[..22] + [0, 0, 0, 0] + b[26..]), 4)
            && b[26] == n && (forall k :: 27 <= k < 26 + n ==> b[k] == 255) && b[26 + n] == |p.packet| % 255
            && b[27 + n..] == p.packet
  {
    hide Lacing, ToLittleEndian, Pow256;
    var sum := crc(PageWith(p, 0));
    PageLayout(p, sum, []);
    ZeroedPage(p, sum);
    LacingShape(|p.packet|);
    LacingBytes(|p.packet|);
    FourDigits(p.serial);
    FourDigits(p.sequence);
    var b := PageBytes(p, crc);
    assert b + [] == b;
    assert b[..6] == b[..4] + [b[4]] + [b[5]];
    var n := |Lacing(|p.packet|)|;
    forall k | 27 <= k < 27 + n ensures b[k] == Lacing(|p.packet|)[k - 27] { assert b[27..27 + n][k - 27] == b[k]; }
    assert b[27 + n..] == b[27 + n..27 + n + |p.packet|];
  }

  lemma {:induction false} LacingBytes(n: nat)
    ensures |Lacing(n)| == n / 255 + 1 && Lacing(n)[n / 255] == n % 255 && forall k :: 0 <= k < n / 255 ==> Lacing(n)[k] == 255
    decreases n
  {
    if n >= 255 { LacingBytes(n - 255); }
  }
}
