// Voice capture: the device's frames resampled into a queue, and the worker
// that encodes them into the pages of an Ogg Opus stream.
module VoiceRecording {
  import opened Options
  import opened Numbers

  const RATE := 48000
  const FRAME_SAMPLES := 960
  const PRE_SKIP := 312
  const CAPTURE_QUEUE_SAMPLES := 96000
  const MAX_PACKET_BYTES := 1275

  type Sample = real

  // ---- Resampling ------------------------------------------------------------------

  // How many samples one device frame yields, and the phase after it.
  function Yield(phase: nat, rate: nat): (nat, nat)
    requires rate > 0
  {
    ((phase + RATE) / rate, (phase + RATE) % rate)
  }

  function Copies(x: Sample, n: nat): seq<Sample> { seq(n, i => x) }

  function Resampled(frames: seq<Sample>, rate: nat): (seq<Sample>, nat)
    requires rate > 0
  {
    if frames == [] then ([], 0)
    else
      var n := |frames| - 1;
      var before := Resampled(frames[..n], rate);
      var y := Yield(before.1, rate);
      (before.0 + Copies(frames[n], y.0), y.1)
  }

  lemma OneMoreFrame(frames: seq<Sample>, x: Sample, rate: nat)
    requires rate > 0
    ensures var before := Resampled(frames, rate);
            var y := Yield(before.1, rate);
            Resampled(frames + [x], rate) == (before.0 + Copies(x, y.0), y.1)
  {
    assert (frames + [x])[..|frames|] == frames;
  }

  // Device frames and output samples stay in step to within one sample.
  lemma {:induction false} InStep(frames: seq<Sample>, rate: nat)
    requires rate > 0
    ensures 48000 * |frames| == rate * |Resampled(frames, rate).0| + Resampled(frames, rate).1
    ensures Resampled(frames, rate).1 < rate
    ensures |Resampled(frames, rate).0| == 48000 * |frames| / rate
  {
    var r := Resampled(frames, rate);
    if frames != [] {
      var n := |frames| - 1;
      InStep(frames[..n], rate);
      var before := Resampled(frames[..n], rate);
      var y := Yield(before.1, rate);
      assert before.1 + RATE == rate * y.0 + y.1;
      assert rate * |r.0| == rate * |before.0| + rate * y.0 by { Distribute(rate, |before.0|, y.0); }
    }
    DivideExact(RATE * |frames|, rate, |r.0|, r.1);
  }

  lemma Distribute(a: nat, b: nat, c: nat)
    ensures a * (b + c) == a * b + a * c
  {
  }

  lemma DivideExact(x: nat, d: nat, q: nat, r: nat)
    requires d > 0 && x == d * q + r && r < d
    ensures x / d == q
  {
    var q' := x / d;
    assert x == d * q' + x % d;
    if q < q' {
      assert d * (q + 1) <= d * q' by { MulOrder(q + 1, q', d); }
    } else if q' < q {
      assert d * (q' + 1) <= d * q by { MulOrder(q' + 1, q, d); }
    }
  }

  // The sum of the channels of one device frame, over their number.
  function Mono(data: seq<Sample>, channels: nat, i: nat): Sample
    requires channels > 0 && (i + 1) * channels <= |data|
  {
    SumOf(data[i * channels..(i + 1) * channels]) / channels as real
  }

  function SumOf(s: seq<Sample>): Sample { if s == [] then 0.0 else SumOf(s[..|s| - 1]) + s[|s| - 1] }

  // The whole device frames of one callback; a rest shorter than one is ignored.
  function MonoFrames(data: seq<Sample>, channels: nat): seq<Sample>
    requires channels > 0
  {
    seq(|data| / channels, i requires 0 <= i < |data| / channels => WholeFrame(data, channels, i); Mono(data, channels, i))
  }

  lemma WholeFrame(data: seq<Sample>, channels: nat, i: nat)
    requires channels > 0 && i < |data| / channels
    ensures (i + 1) * channels <= |data|
  {
    MulOrder(i + 1, |data| / channels, channels);
    assert |data| == channels * (|data| / channels) + |data| % channels;
  }

  // The bounded queue between the device callback and the worker.
  class Capture {
    const channels: nat
    const rate: nat
    var queue: seq<Sample>
    var failed: bool
    var phase: nat
    ghost var frames: seq<Sample>
    ghost var taken: seq<Sample>

    ghost predicate Valid()
      reads this
    {
      && |queue| <= CAPTURE_QUEUE_SAMPLES
      && (!failed && rate > 0 ==> phase < rate)
      && (!failed && rate > 0 && channels > 0 ==> (taken + queue, phase) == Resampled(frames, rate))
    }

    constructor (channels: nat, rate: nat)
      ensures Valid() && this.channels == channels && this.rate == rate && queue == [] && !failed && frames == [] && taken == []
    {
      this.channels, this.rate := channels, rate;
      queue, failed, phase, frames, taken := [], false, 0, [], [];
      new;
      assert taken + queue == [];
    }

    method Push(x: Sample) returns (ok: bool)
      modifies this`queue
      ensures ok == (|old(queue)| < 96000)
      ensures queue == if ok then old(queue) + [x] else old(queue)
    {
      ok := |queue| < CAPTURE_QUEUE_SAMPLES;
      if ok { queue := queue + [x]; }
    }

    method Pop() returns (x: Option<Sample>)
      requires Valid()
      modifies this`queue, this`taken
      ensures Valid() && (x.None? <==> old(queue) == [])
      ensures x.Some? ==> old(queue) == [x.value] + queue && taken == old(taken) + [x.value]
      ensures x.None? ==> queue == old(queue) && taken == old(taken)
    {
      if queue == [] { return None; }
      x := Some(queue[0]);
      assert taken + queue == taken + [queue[0]] + queue[1..];
      taken := taken + [queue[0]];
      queue := queue[1..];
    }

    // One device callback. After an overrun nothing more is captured.
    method CaptureSamples(data: seq<Sample>)
      requires Valid()
      modifies this`queue, this`failed, this`phase, this`frames
      ensures Valid() && (old(failed) ==> failed)
      ensures channels > 0 ==> frames == old(frames) + MonoFrames(data, channels)
      ensures old(queue) <= queue
    {
      if channels > 0 { frames := frames + MonoFrames(data, channels); }
      if channels == 0 || rate == 0 || failed { return; }
      hide Mono, Resampled;
      var i := 0;
      ghost var all := MonoFrames(data, channels);
      assert old(frames) + all[..0] == old(frames);
      while i < |data| / channels
        invariant 0 <= i <= |data| / channels == |all| && |queue| <= CAPTURE_QUEUE_SAMPLES && phase < rate && !failed
        invariant frames == old(frames) + all && old(queue) <= queue
        invariant (taken + queue, phase) == Resampled(old(frames) + all[..i], rate)
      {
        WholeFrame(data, channels, i);
        var mono := Mono(data, channels, i);
        var ok := Emit(mono);
        if !ok {
          failed := true;
          return;
        }
        OneMoreFrame(old(frames) + all[..i], all[i], rate);
        assert old(frames) + all[..i + 1] == old(frames) + all[..i] + [all[i]];
        i := i + 1;
      }
      assert all[..i] == all;
    }

    // The samples of one device frame.
    method Emit(mono: Sample) returns (ok: bool)
      requires rate > 0 && phase < rate && |queue| <= CAPTURE_QUEUE_SAMPLES
      modifies this`queue, this`phase
      ensures |queue| <= CAPTURE_QUEUE_SAMPLES && old(queue) <= queue
      ensures ok ==> var y := Yield(old(phase), rate);
                     taken + queue == taken + old(queue) + Copies(mono, y.0) && phase == y.1
    {
      phase := phase + RATE;
      ghost var total, k := phase, 0;
      ok := true;
      while phase >= rate
        invariant total == rate * k + phase && phase >= 0
        invariant queue == old(queue) + Copies(mono, k) && |queue| <= CAPTURE_QUEUE_SAMPLES
        decreases phase
      {
        phase := phase - rate;
        var pushed := Push(mono);
        if !pushed { return false; }
        assert Copies(mono, k + 1) == Copies(mono, k) + [mono];
        Distribute(rate, k, 1);
        k := k + 1;
      }
      DivideExact(total, rate, k, phase);
      assert taken + queue == taken + old(queue) + Copies(mono, k);
    }
  }

  // Without an overrun the worker is given exactly floor(48000 * M / rate)
  // samples for the M device frames of all callbacks.
  lemma CapturedExactly(c: Capture)
    requires c.Valid() && !c.failed && c.rate > 0 && c.channels > 0
    ensures |c.taken| + |c.queue| == 48000 * |c.frames| / c.rate
  {
    InStep(c.frames, c.rate);
    assert |c.taken + c.queue| == |c.taken| + |c.queue|;
  }
}
