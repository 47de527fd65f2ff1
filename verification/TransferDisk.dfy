// The partial file and its journal on a disk that may lose power: what a
// crash can leave, and what a journal read after it can be trusted for.
module TransferDisk {
  import opened Octets
  import opened Transfer

  datatype Write = Write(offset: nat, data: seq<Byte>)

  // synced: the file as last flushed; visible: the file as read back; writes:
  // the writes since the flush. journal: flushed bytes; tail: written after
  // them; older: journals that a rewrite replaced and no flush has put away.
  datatype Disk = Disk(synced: seq<Byte>, visible: seq<Byte>, writes: seq<Write>,
                       journal: seq<Byte>, tail: seq<Byte>, older: set<seq<Byte>>)

  // The sender's file, and what the receiver computes with.
  datatype Ctx = Ctx(suite: Suite, m: Manifest, original: seq<Byte>)
  {
    ghost predicate Good() { m.Valid() && |original| == m.size && TagsAre32(suite) }

    ghost function Block(i: nat): seq<Byte>
      requires Good() && i < m.blockCount
    {
      BlockInside(m, i);
      original[m.Offset(i)..m.Offset(i) + m.ExpectedLen(i).value]
    }
  }

  function Splice(content: seq<Byte>, w: Write): seq<Byte>
    requires w.offset + |w.data| <= |content|
  {
    content[..w.offset] + w.data + content[w.offset + |w.data|..]
  }

  function Resize(content: seq<Byte>, n: nat): seq<Byte> {
    if n <= |content| then content[..n] else content + seq(n - |content|, i => 0)
  }

  // Whole records only, as the loader rewrites the journal.
  function WholeRecords(bytes: seq<Byte>): seq<Byte> { bytes[..|bytes| / RECORD_LEN * RECORD_LEN] }

  function JournalFlushed(d: Disk): Disk { d.(journal := d.journal + d.tail, tail := [], older := {}) }

  function JournalRewritten(d: Disk): Disk {
    d.(journal := [], tail := WholeRecords(d.journal + d.tail), older := d.older + {d.journal + d.tail})
  }

  // ---- Crashes -----------------------------------------------------------------

  ghost predicate Wrote(w: Write, p: nat, b: Byte) {
    w.offset <= p < w.offset + |w.data| && w.data[p - w.offset] == b
  }

  // After a crash each byte of the file is what was flushed or what some later
  // write put there, and the journal ends anywhere in its unflushed tail, or
  // anywhere in one that was replaced.
  // Nothing is said of bytes past the flushed or the visible end.
  ghost predicate Crashed(d: Disk, c: Disk) {
    && c.visible == c.synced && c.writes == [] && c.tail == [] && c.older == {}
    && ((exists k :: 0 <= k <= |d.tail| && c.journal == d.journal + d.tail[..k]) || exists o :: o in d.older && c.journal <= o)
    && |c.synced| >= (if |d.synced| < |d.visible| then |d.synced| else |d.visible|)
    && forall p :: 0 <= p < |d.synced| && p < |d.visible| ==>
         c.synced[p] == d.synced[p] || exists w :: w in d.writes && Wrote(w, p, c.synced[p])
  }

  // ---- What makes a disk recoverable -----------------------------------------------

  ghost predicate HasBlock(x: Ctx, content: seq<Byte>, i: nat)
    requires x.Good()
  {
    && i < x.m.blockCount
    && x.m.ExpectedLen(i).Some?
    && x.m.Offset(i) + x.m.ExpectedLen(i).value <= |content|
    && content[x.m.Offset(i)..x.m.Offset(i) + x.m.ExpectedLen(i).value] == x.Block(i)
  }

  ghost predicate Safe(x: Ctx, d: Disk, i: nat)
    requires x.Good()
  {
    HasBlock(x, d.synced, i) && HasBlock(x, d.visible, i)
  }

  ghost predicate Authentic(x: Ctx, w: Write)
    requires x.Good()
  {
    exists i: nat :: i < x.m.blockCount && w == Write(x.m.Offset(i), x.Block(i))
  }

  ghost predicate WritesAgree(x: Ctx, d: Disk)
    requires x.Good()
  {
    forall w :: w in d.writes ==> Authentic(x, w)
  }

  ghost predicate AllSafe(x: Ctx, d: Disk, es: seq<Entry>)
    requires x.Good()
  {
    forall e :: e in es ==> e.Typed() && Safe(x, d, e.index)
  }

  // A prefix of records of blocks that are safe.
  ghost predicate Journaled(x: Ctx, d: Disk, bytes: seq<Byte>, es: seq<Entry>)
    requires x.Good()
  {
    AllSafe(x, d, es) && bytes <= Records(x.suite, es)
  }

  ghost predicate Trusted(x: Ctx, d: Disk, bytes: seq<Byte>)
    requires x.Good()
  {
    exists es: seq<Entry> :: Journaled(x, d, bytes, es)
  }

  // The journal, and whatever a crash may put in its place, can be trusted.
  ghost predicate Recoverable(x: Ctx, d: Disk)
    requires x.Good()
  {
    WritesAgree(x, d) && Trusted(x, d, d.journal + d.tail) && forall o :: o in d.older ==> Trusted(x, d, o)
  }

  // ---- The receiver's disk operations ---------------------------------------------

  datatype DiskOp =
    | WriteBlock(i: nat)
    | SetLength
    | FileSync
    | Append(e: Entry, from: nat, to: nat)
    | JournalSync
    | DropTorn
    | Crash

  ghost predicate DiskStep(x: Ctx, d: Disk, op: DiskOp, d': Disk)
    requires x.Good()
  {
    match op
    case WriteBlock(i) =>
      && i < x.m.blockCount && x.m.Offset(i) + |x.Block(i)| <= |d.visible|
      && d' == d.(visible := Splice(d.visible, Write(x.m.Offset(i), x.Block(i))),
                  writes := d.writes + [Write(x.m.Offset(i), x.Block(i))])
    case SetLength => d' == d.(visible := Resize(d.visible, x.m.size))
    case FileSync => d' == d.(synced := d.visible, writes := [])
    // a piece of one record, after whole ones; its block is safe by then
    case Append(e, from, to) =>
      && e.Typed() && Safe(x, d, e.index) && from <= to <= |Record(x.suite, e)|
      && (exists es: seq<Entry> :: AllSafe(x, d, es) && d.journal + d.tail == Records(x.suite, es) + Record(x.suite, e)[..from])
      && d' == d.(tail := d.tail + Record(x.suite, e)[from..to])
    case JournalSync => d' == JournalFlushed(d)
    case DropTorn => d' == JournalRewritten(d)
    case Crash => Crashed(d, d')
  }

  // Everything the disk went through, from a file of any content and no journal.
  datatype Run = Start(disk: Disk) | Then(earlier: Run, op: DiskOp, disk: Disk)

  ghost predicate Possible(x: Ctx, run: Run)
    requires x.Good()
  {
    match run
    case Start(d) => d.journal == [] && d.tail == [] && d.older == {} && d.writes == [] && d.visible == d.synced
    case Then(earlier, op, d) => Possible(x, earlier) && DiskStep(x, earlier.disk, op, d)
  }

  // ---- Each operation keeps the disk recoverable ---------------------------------------

  lemma BlockLen(x: Ctx, i: nat)
    requires x.Good() && i < x.m.blockCount
    ensures x.m.ExpectedLen(i).Some? && |x.Block(i)| == x.m.ExpectedLen(i).value
    ensures x.m.Offset(i) + |x.Block(i)| <= x.m.size
  {
    BlockInside(x.m, i);
  }

  // An authentic write puts the sender's bytes wherever it reaches.
  lemma AuthenticByte(x: Ctx, w: Write, p: nat, b: Byte)
    requires x.Good() && Authentic(x, w) && Wrote(w, p, b)
    ensures p < x.m.size && b == x.original[p]
  {
    var i: nat :| i < x.m.blockCount && w == Write(x.m.Offset(i), x.Block(i));
    BlockLen(x, i);
  }

  lemma HasBlockBytes(x: Ctx, content: seq<Byte>, i: nat)
    requires x.Good() && i < x.m.blockCount
    ensures x.m.ExpectedLen(i).Some?
    ensures HasBlock(x, content, i) <==>
              x.m.Offset(i) + x.m.ExpectedLen(i).value <= |content| &&
              forall p :: x.m.Offset(i) <= p < x.m.Offset(i) + x.m.ExpectedLen(i).value ==> content[p] == x.original[p]
  {
    BlockLen(x, i);
    var a, b := x.m.Offset(i), x.m.Offset(i) + x.m.ExpectedLen(i).value;
    if HasBlock(x, content, i) {
      forall p | a <= p < b ensures content[p] == x.original[p] {
        assert content[p] == content[a..b][p - a];
        assert x.Block(i)[p - a] == x.original[p];
      }
    }
    assert b <= |content| && (forall p :: a <= p < b ==> content[p] == x.original[p]) ==> content[a..b] == x.Block(i);
  }

  lemma SpliceKeepsBlock(x: Ctx, content: seq<Byte>, w: Write, i: nat)
    requires x.Good() && HasBlock(x, content, i) && Authentic(x, w) && w.offset + |w.data| <= |content|
    ensures HasBlock(x, Splice(content, w), i)
  {
    HasBlockBytes(x, content, i);
    HasBlockBytes(x, Splice(content, w), i);
    forall p | x.m.Offset(i) <= p < x.m.Offset(i) + x.m.ExpectedLen(i).value
      ensures Splice(content, w)[p] == x.original[p]
    {
      if w.offset <= p < w.offset + |w.data| { AuthenticByte(x, w, p, w.data[p - w.offset]); }
    }
  }

  lemma SpliceHasBlock(x: Ctx, content: seq<Byte>, i: nat)
    requires x.Good() && i < x.m.blockCount && x.m.Offset(i) + |x.Block(i)| <= |content|
    ensures HasBlock(x, Splice(content, Write(x.m.Offset(i), x.Block(i))), i)
    ensures |Splice(content, Write(x.m.Offset(i), x.Block(i)))| == |content|
  {
    BlockLen(x, i);
  }

  lemma ResizeKeepsBlock(x: Ctx, content: seq<Byte>, i: nat)
    requires x.Good() && HasBlock(x, content, i)
    ensures HasBlock(x, Resize(content, x.m.size), i)
  {
    BlockLen(x, i);
    HasBlockBytes(x, content, i);
    HasBlockBytes(x, Resize(content, x.m.size), i);
  }

  lemma CrashKeepsBlock(x: Ctx, d: Disk, c: Disk, i: nat)
    requires x.Good() && WritesAgree(x, d) && Crashed(d, c) && Safe(x, d, i)
    ensures Safe(x, c, i)
  {
    HasBlockBytes(x, d.synced, i);
    HasBlockBytes(x, c.synced, i);
    forall p | x.m.Offset(i) <= p < x.m.Offset(i) + x.m.ExpectedLen(i).value
      ensures c.synced[p] == x.original[p]
    {
      if c.synced[p] != d.synced[p] {
        var w :| w in d.writes && Wrote(w, p, c.synced[p]);
        AuthenticByte(x, w, p, c.synced[p]);
      }
    }
  }

  // The same blocks stay safe through every operation.
  lemma StepKeepsSafe(x: Ctx, d: Disk, op: DiskOp, d': Disk, i: nat)
    requires x.Good() && WritesAgree(x, d) && DiskStep(x, d, op, d') && Safe(x, d, i)
    ensures Safe(x, d', i)
  {
    hide HasBlock, Crashed, Splice, Resize, Record, Records, Trusted;
    match op
    case WriteBlock(k) =>
      assert Authentic(x, Write(x.m.Offset(k), x.Block(k)));
      SpliceKeepsBlock(x, d.visible, Write(x.m.Offset(k), x.Block(k)), i);
    case SetLength => ResizeKeepsBlock(x, d.visible, i);
    case FileSync =>
    case Append(_, _, _) =>
    case JournalSync =>
    case DropTorn =>
    case Crash => CrashKeepsBlock(x, d, d', i);
  }

  lemma StepKeepsWrites(x: Ctx, d: Disk, op: DiskOp, d': Disk)
    requires x.Good() && WritesAgree(x, d) && DiskStep(x, d, op, d')
    ensures WritesAgree(x, d')
  {
    hide HasBlock, Splice, Resize, Record, Records, Trusted;
    if op.WriteBlock? { assert Authentic(x, Write(x.m.Offset(op.i), x.Block(op.i))); }
  }

  lemma PieceOfRecord(suite: Suite, es: seq<Entry>, e: Entry, bytes: seq<Byte>, from: nat, to: nat)
    requires from <= to <= |Record(suite, e)| && bytes == Records(suite, es) + Record(suite, e)[..from]
    ensures bytes + Record(suite, e)[from..to] <= Records(suite, es + [e])
  {
    hide Record;
    var r := Record(suite, e);
    assert (es + [e])[..|es|] == es;
    assert Records(suite, es + [e]) == Records(suite, es) + r;
    assert bytes + r[from..to] == Records(suite, es) + r[..to];
  }

  lemma ShorterTrusted(x: Ctx, d: Disk, bytes: seq<Byte>, shorter: seq<Byte>)
    requires x.Good() && Trusted(x, d, bytes) && shorter <= bytes
    ensures Trusted(x, d, shorter)
  {
    hide AllSafe, Records;
    var es: seq<Entry> :| Journaled(x, d, bytes, es);
    assert Journaled(x, d, shorter, es);
  }

  // What is trusted before a step still is.
  lemma StepKeepsTrusted(x: Ctx, d: Disk, op: DiskOp, d': Disk, bytes: seq<Byte>)
    requires x.Good() && WritesAgree(x, d) && DiskStep(x, d, op, d') && Trusted(x, d, bytes)
    ensures Trusted(x, d', bytes)
  {
    hide DiskStep, Safe, Records;
    var es: seq<Entry> :| Journaled(x, d, bytes, es);
    forall e | e in es ensures e.Typed() && Safe(x, d', e.index) { StepKeepsSafe(x, d, op, d', e.index); }
    assert Journaled(x, d', bytes, es);
  }

  lemma AppendTrusted(x: Ctx, d: Disk, op: DiskOp, d': Disk)
    requires x.Good() && op.Append? && DiskStep(x, d, op, d')
    ensures Trusted(x, d, d'.journal + d'.tail)
  {
    hide HasBlock, Records, Safe, Record;
    var bytes, r := d.journal + d.tail, Record(x.suite, op.e);
    var es: seq<Entry> :| AllSafe(x, d, es) && bytes == Records(x.suite, es) + r[..op.from];
    PieceOfRecord(x.suite, es, op.e, bytes, op.from, op.to);
    assert d'.journal + d'.tail == bytes + r[op.from..op.to];
    assert Journaled(x, d, d'.journal + d'.tail, es + [op.e]);
  }

  // The journal that a step leaves, seen from before it.
  lemma StepKeepsJournal(x: Ctx, d: Disk, op: DiskOp, d': Disk)
    requires x.Good() && Recoverable(x, d) && DiskStep(x, d, op, d')
    ensures Trusted(x, d, d'.journal + d'.tail) && forall o :: o in d'.older ==> Trusted(x, d, o)
  {
    hide HasBlock, Splice, Resize, Record, Records, Safe, Trusted;
    var bytes, bytes' := d.journal + d.tail, d'.journal + d'.tail;
    if op.Append? {
      AppendTrusted(x, d, op, d');
    } else if op.Crash? && exists o :: o in d.older && d'.journal <= o {
      var o :| o in d.older && d'.journal <= o;
      assert bytes' == d'.journal;
      ShorterTrusted(x, d, o, bytes');
    } else {
      assert bytes' <= bytes by {
        if op.Crash? {
          var k :| 0 <= k <= |d.tail| && d'.journal == d.journal + d.tail[..k];
          assert bytes' == bytes[..|d.journal| + k];
        }
      }
      ShorterTrusted(x, d, bytes, bytes');
    }
  }

  lemma StepKeepsRecoverable(x: Ctx, d: Disk, op: DiskOp, d': Disk)
    requires x.Good() && Recoverable(x, d) && DiskStep(x, d, op, d')
    ensures Recoverable(x, d')
  {
    hide DiskStep, Trusted;
    StepKeepsWrites(x, d, op, d');
    StepKeepsJournal(x, d, op, d');
    StepKeepsTrusted(x, d, op, d', d'.journal + d'.tail);
    forall o | o in d'.older ensures Trusted(x, d', o) { StepKeepsTrusted(x, d, op, d', o); }
  }

  lemma {:induction false} AlwaysRecoverable(x: Ctx, run: Run)
    requires x.Good() && Possible(x, run)
    ensures Recoverable(x, run.disk)
  {
    match run
    case Start(d) => assert Journaled(x, d, d.journal + d.tail, []);
    case Then(earlier, op, d) =>
      AlwaysRecoverable(x, earlier);
      StepKeepsRecoverable(x, earlier.disk, op, d);
  }

  // ---- What a recovered journal says is true -----------------------------------------

  // In every reachable state, crashes included, the journal loads, and every
  // block it names holds the sender's bytes, flushed and as read.
  lemma RecoveredBlocks(x: Ctx, run: Run)
    requires x.Good() && Possible(x, run)
    ensures var loaded := Load(x.suite, run.disk.journal + run.disk.tail);
            loaded.Some? && forall i :: i in loaded.value ==> Safe(x, run.disk, i)
  {
    AlwaysRecoverable(x, run);
    var d := run.disk;
    var es: seq<Entry> :| Journaled(x, d, d.journal + d.tail, es);
    var n := |d.journal + d.tail|;
    assert d.journal + d.tail == Records(x.suite, es)[..n];
    LoadPrefix(x.suite, es, n);
    forall i | i in Indices(es[..n / RECORD_LEN]) ensures Safe(x, d, i) {
      var e :| e in es[..n / RECORD_LEN] && e.index == i;
      assert e in es;
    }
  }

  lemma {:induction false} Pigeonhole(s: set<nat>, n: nat)
    requires (forall i :: i in s ==> i < n) && |s| == n
    ensures forall i :: 0 <= i < n ==> i in s
  {
    if n > 0 {
      if n - 1 in s {
        Pigeonhole(s - {n - 1}, n - 1);
      } else {
        TooMany(s, n - 1);
      }
    }
  }

  // All of the first n, or not as many.
  lemma WholeIsFull(s: set<nat>, n: nat)
    requires forall i :: i in s ==> i < n
    ensures |s| == n <==> forall i: nat :: i < n ==> i in s
  {
    if |s| == n { Pigeonhole(s, n); }
    if forall i: nat :: i < n ==> i in s {
      TooMany(s, n);
      AtLeast(s, n);
    }
  }

  lemma {:induction false} AtLeast(s: set<nat>, n: nat)
    requires forall i: nat :: i < n ==> i in s
    ensures |s| >= n
  {
    if n > 0 { AtLeast(s - {n - 1}, n - 1); }
  }

  lemma {:induction false} TooMany(s: set<nat>, n: nat)
    requires forall i :: i in s ==> i < n
    ensures |s| <= n
  {
    if n == 0 {
      assert forall i :: i !in s;
    } else {
      TooMany(s - {n - 1}, n - 1);
    }
  }

  // As many safe blocks as the manifest has: the whole file, byte for byte.
  lemma CompleteIsOriginal(x: Ctx, content: seq<Byte>, blocks: set<nat>)
    requires x.Good() && |blocks| == x.m.blockCount && |content| == x.m.size
    requires forall i :: i in blocks ==> HasBlock(x, content, i)
    ensures content == x.original
  {
    Pigeonhole(blocks, x.m.blockCount);
    forall p | 0 <= p < |content| ensures content[p] == x.original[p] {
      BlocksTile(x.m, p);
      HasBlockBytes(x, content, p / x.m.blockSize);
    }
  }
}
