// The BLE reassembler: an unframed byte stream cut back into packets by their
// own length fields, dropping the block padding that may follow each.
module Reassembler {
  import opened Options
  import opened Octets

  const MAX_PACKET := 4096
  const STALE_MILLIS := 5000

  // What the bytes read so far say of the packet's size.
  datatype Size = Malformed | Unknown | Known(size: nat)

  function Bit(flags: Byte, mask: int): bool
    requires mask in {1, 2, 4, 8}
  {
    (flags / mask) % 2 == 1
  }

  function PacketSize(bytes: seq<Byte>): Size
    requires bytes != []
  {
    var version := bytes[0];
    if version != 1 && version != 2 then Malformed
    else
      var header := if version == 1 then 14 else 16;
      if |bytes| < header then Unknown
      else
        var flags := bytes[11];
        if flags >= 16 || (version == 1 && Bit(flags, 8)) then Malformed
        else
          var payload := BigEndian(bytes[12..header]);
          if payload > MAX_PACKET then Malformed
          else
            var fixed := header + 8 + if Bit(flags, 1) then 8 else 0;
            if Bit(flags, 8) && |bytes| <= fixed then Unknown
            else
              var size := fixed + (if Bit(flags, 8) then 1 + bytes[fixed] * 8 else 0)
                          + payload + (if Bit(flags, 2) then 64 else 0);
              if size > MAX_PACKET then Malformed else Known(size)
  }

  // The block padding after a packet of n bytes: its byte, and how many at most.
  function Padding(n: nat): (p: (Byte, nat))
    ensures p.1 > 0 ==> 16 <= p.0 == p.1
  {
    var target := if n + 16 <= 256 then 256 else if n + 16 <= 512 then 512
                  else if n + 16 <= 1024 then 1024 else if n + 16 <= 2048 then 2048 else n;
    if target - n <= 255 then (target - n, target - n) else (0, 0)
  }

  // bytes: the unfinished packet; pad and left: the padding that may follow
  // the last finished one.
  datatype Stream = Stream(bytes: seq<Byte>, pad: Byte, left: nat, last: nat)

  const EMPTY := Stream([], 0, 0, 0)

  datatype Fed = Bad | Fed(s: Stream, out: seq<seq<Byte>>)

  function Feed(s: Stream, b: Byte): Fed {
    if s.bytes == [] && s.left > 0 && b == s.pad then Fed(s.(left := s.left - 1), [])
    else
      var pad := if s.bytes == [] && s.left > 0 then s.(pad := 0, left := 0) else s;
      var bytes := s.bytes + [b];
      match PacketSize(bytes)
      case Malformed => Bad
      case Unknown => Fed(pad.(bytes := bytes), [])
      case Known(n) =>
        if n == |bytes| then Fed(Stream([], Padding(n).0, Padding(n).1, s.last), [bytes])
        else Fed(pad.(bytes := bytes), [])
  }

  function FeedAll(s: Stream, chunk: seq<Byte>): Fed
    decreases |chunk|
  {
    if chunk == [] then Fed(s, [])
    else
      match Feed(s, chunk[0])
      case Bad => Bad
      case Fed(t, out) =>
        match FeedAll(t, chunk[1..])
        case Bad => Bad
        case Fed(u, more) => Fed(u, out + more)
  }

  function Refreshed(s: Stream, now: nat): Stream {
    if now - s.last > STALE_MILLIS then EMPTY.(last := now) else s.(last := now)
  }

  // One notification: the new state, and the packets it completes unless it
  // is refused.
  function Pushed(s: Stream, chunk: seq<Byte>, now: nat): (Stream, Option<seq<seq<Byte>>>) {
    var ready := Refreshed(s, now);
    if |chunk| > MAX_PACKET || |ready.bytes| + |chunk| > MAX_PACKET then (EMPTY, None)
    else
      match FeedAll(ready, chunk)
      case Bad => (EMPTY, None)
      case Fed(t, out) => (t, Some(out))
  }

  lemma {:induction false} FeedAllSplit(s: Stream, a: seq<Byte>, b: seq<Byte>)
    ensures FeedAll(s, a + b) ==
            match FeedAll(s, a)
            case Bad => Bad
            case Fed(t, out) => match FeedAll(t, b)
                                case Bad => Bad
                                case Fed(u, more) => Fed(u, out + more)
    decreases |a|
  {
    if a == [] {
      assert a + b == b;
      match FeedAll(s, b)
      case Bad =>
      case Fed(u, more) => assert [] + more == more;
    } else {
      assert (a + b)[1..] == a[1..] + b;
      match Feed(s, a[0])
      case Bad =>
      case Fed(t, out) =>
        FeedAllSplit(t, a[1..], b);
        match FeedAll(t, a[1..])
        case Bad =>
        case Fed(u, more) =>
          match FeedAll(u, b)
          case Bad =>
          case Fed(v, rest) => assert out + (more + rest) == (out + more) + rest;
    }
  }

  class Buffer {
    var bytes: seq<Byte>
    var pad: Byte
    var left: nat
    var last: nat

    function State(): Stream reads this { Stream(bytes, pad, left, last) }

    constructor ()
      ensures State() == EMPTY
    {
      bytes, pad, left, last := [], 0, 0, 0;
    }

    // A buffer taken up where another left off.
    constructor From(s: Stream)
      ensures State() == s
    {
      bytes, pad, left, last := s.bytes, s.pad, s.left, s.last;
    }

    method Reset()
      modifies this
      ensures State() == EMPTY
    {
      bytes, pad, left, last := [], 0, 0, 0;
    }

    method Push(chunk: seq<Byte>, now: nat) returns (out: Option<seq<seq<Byte>>>)
      modifies this
      ensures (State(), out) == Pushed(old(State()), chunk, now)
    {
      if now - last > STALE_MILLIS { Reset(); }
      last := now;
      if |chunk| > MAX_PACKET || |bytes| + |chunk| > MAX_PACKET {
        Reset();
        return None;
      }
      ghost var start := State();
      var packets: seq<seq<Byte>> := [];
      var rest := chunk;
      while rest != []
        invariant Continued(State(), rest, packets) == FeedAll(start, chunk)
        decreases |rest|
      {
        var packet;
        var ok;
        ghost var before := State();
        ok, packet := Take(rest[0]);
        TakeOne(before, rest, packets);
        if !ok {
          Reset();
          return None;
        }
        packets := packets + packet;
        rest := rest[1..];
      }
      assert packets + [] == packets;
      out := Some(packets);
    }

    // One byte: dropped as padding, or appended; [packet] is what it completes.
    method Take(b: Byte) returns (ok: bool, packet: seq<seq<Byte>>)
      modifies this
      ensures ok <==> Feed(old(State()), b).Fed?
      ensures ok ==> Feed(old(State()), b) == Fed(State(), packet)
    {
      ok, packet := true, [];
      if bytes == [] && left > 0 {
        if b == pad {
          left := left - 1;
          return;
        }
        pad, left := 0, 0;
      }
      bytes := bytes + [b];
      match PacketSize(bytes) {
        case Malformed => ok := false;
        case Unknown =>
        case Known(n) =>
          if n == |bytes| {
            packet := [bytes];
            var p := Padding(n);
            bytes, pad, left := [], p.0, p.1;
          }
      }
    }
  }

  // What a push has still to do, after the packets it has.
  function Continued(s: Stream, rest: seq<Byte>, packets: seq<seq<Byte>>): Fed {
    match FeedAll(s, rest)
    case Bad => Bad
    case Fed(t, more) => Fed(t, packets + more)
  }

  lemma TakeOne(s: Stream, rest: seq<Byte>, packets: seq<seq<Byte>>)
    requires rest != []
    ensures Continued(s, rest, packets) ==
            match Feed(s, rest[0])
            case Bad => Bad
            case Fed(t, out) => Continued(t, rest[1..], packets + out)
  {
    match Feed(s, rest[0])
    case Bad =>
    case Fed(t, out) =>
      match FeedAll(t, rest[1..])
      case Bad =>
      case Fed(u, more) => assert packets + (out + more) == (packets + out) + more;
  }
}
