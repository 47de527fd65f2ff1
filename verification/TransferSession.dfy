// The attachment receiver: open or resume, take blocks, checkpoint, promote.
// Every disk operation it makes is recorded as a step of a run, so what holds
// after a crash in TransferDisk holds after a crash between any two of them.
module TransferSession {
  import opened Options
  import opened Octets
  import opened Transfer
  import opened TransferDisk

  const JOURNAL_CHECKPOINT_BYTES := 8388608

  // ---- Blocks in frames ------------------------------------------------------------

  function Encrypt(s: Suite, m: Manifest, i: nat, plain: seq<Byte>): Option<Frame> {
    if m.ExpectedLen(i) != Some(|plain|) then None
    else Some(Frame(m.digestPrefix, i, |plain|, s.sha(plain), s.seal(i, plain)))
  }

  function Decrypt(s: Suite, m: Manifest, f: Frame): Option<seq<Byte>> {
    if f.digestPrefix != m.digestPrefix then None
    else
      var expected := m.ExpectedLen(f.index);
      if expected.None? || f.plainLen != expected.value || |f.cipher| != expected.value + AEAD_TAG_LEN then None
      else
        var plain := s.open(f.index, f.cipher);
        if plain.None? || s.sha(plain.value) != f.plainHash then None else plain
  }

  // What the attachment key promises: only the sender's block opens.
  ghost predicate Authenticates(x: Ctx)
    requires x.Good()
  {
    && |x.m.wholeHash| == 32 && x.m.digestPrefix < Pow256(8) && x.m.blockCount <= Pow256(4)
    && (forall plain :: |x.suite.sha(plain)| == 32)
    && forall i: nat, c :: i < x.m.blockCount && x.suite.open(i, c).Some? ==> x.suite.open(i, c).value == x.Block(i)
  }

  // And what the sender sealed does open.
  ghost predicate Opens(x: Ctx)
    requires x.Good()
  {
    forall i: nat :: i < x.m.blockCount ==>
      && |x.suite.seal(i, x.Block(i))| == |x.Block(i)| + AEAD_TAG_LEN
      && x.suite.open(i, x.suite.seal(i, x.Block(i))) == Some(x.Block(i))
  }

  // ---- An instance of all that -------------------------------------------------------

  function Zeros(n: nat): seq<Byte> { seq(n, i => 0) }

  // A file of one small block, under a suite that knows it.
  function Small(file: seq<Byte>): Ctx
    requires 1 <= |file| <= BLOCK_128K
  {
    var suite := Suite(bytes => Zeros(32), (i: nat, plain: seq<Byte>) => plain + Zeros(AEAD_TAG_LEN),
                       (i: nat, cipher: seq<Byte>) => if i == 0 && cipher == file + Zeros(AEAD_TAG_LEN) then Some(file) else None,
                       plain => Zeros(32));
    Ctx(suite, Manifest(PROTOCOL_VERSION, "t", "m", None, "f", "x/y", None, [], |file|, BLOCK_128K, 1, Zeros(32), 0), file)
  }

  lemma SmallHolds(file: seq<Byte>)
    requires 1 <= |file| <= BLOCK_128K
    ensures var x := Small(file); x.Good() && Authenticates(x) && Opens(x) && x.m.wholeHash == x.suite.sha(file)
  {
    var x := Small(file);
    SmallGeometry(|file|);
    assert x.m.Valid();
    BlockInside(x.m, 0);
    assert x.Block(0) == file by { assert x.original[0..|file|] == file; }
    assert Pow256(1) == 256 && Pow256(2) == 65536 && Pow256(3) == 16777216;
  }

  lemma SmallGeometry(n: nat)
    requires 1 <= n <= BLOCK_128K
    ensures (n + BLOCK_128K - 1) / BLOCK_128K == 1
  {
  }

  // The sender's encoded frame of any block decodes and decrypts to that block.
  lemma SentBlockArrives(x: Ctx, i: nat)
    requires x.Good() && Authenticates(x) && Opens(x) && i < x.m.blockCount
    ensures var f := Encrypt(x.suite, x.m, i, x.Block(i));
            && f.Some? && f.value.index == i && Encode(f.value).Some?
            && Decode(Encode(f.value).value) == f
            && Decrypt(x.suite, x.m, f.value) == Some(x.Block(i))
  {
    hide Encode, Decode, Pow256;
    BlockInside(x.m, i);
    BlockLen(x, i);
    var f := Encrypt(x.suite, x.m, i, x.Block(i)).value;
    LengthFits(f.plainLen, x.m);
    EncodeSucceeds(f);
    DecodeEncode(f);
  }

  lemma EncodeSucceeds(f: Frame)
    ensures Encode(f).Some? <==> f.plainLen != 0 && |f.cipher| == f.plainLen + AEAD_TAG_LEN
  {
  }

  lemma LengthFits(n: nat, m: Manifest)
    requires m.Valid() && n <= m.blockSize
    ensures n < Pow256(4)
  {
    assert Pow256(2) == 65536 by { VersionDigits(); }
    assert Pow256(3) == 16777216;
  }

  // ---- Progress --------------------------------------------------------------------------

  function PendingLen(pending: seq<Entry>): nat {
    if pending == [] then 0 else PendingLen(pending[..|pending| - 1]) + pending[|pending| - 1].len
  }

  ghost predicate NoRepeat(pending: seq<Entry>) {
    forall i, j :: 0 <= i < j < |pending| ==> pending[i].index != pending[j].index
  }

  ghost predicate LensFit(m: Manifest, pending: seq<Entry>) {
    forall e :: e in pending ==> e.index < m.blockCount && m.ExpectedLen(e.index) == Some(e.len) && e.len > 0
  }

  lemma {:induction false} SumWith(m: Manifest, blocks: set<nat>, i: nat, n: nat)
    requires m.Valid() && i < m.blockCount && i !in blocks
    ensures m.ExpectedLen(i).Some?
    ensures Sum(m, blocks + {i}, n) == Sum(m, blocks, n) + if i < n then m.ExpectedLen(i).value else 0
  {
    if n > 0 { SumWith(m, blocks, i, n - 1); }
  }

  lemma NoRepeatBack(front: seq<Entry>, e: Entry)
    ensures NoRepeat(front + [e]) <==> NoRepeat(front) && e.index !in Indices(front)
  {
    var all := front + [e];
    if e.index in Indices(front) {
      var f :| f in front && f.index == e.index;
      var k :| 0 <= k < |front| && front[k] == f;
      assert all[k].index == all[|front|].index;
    } else {
      assert forall k :: 0 <= k < |front| ==> front[k] in front && front[k].index in Indices(front);
    }
    assert forall k :: 0 <= k < |front| ==> all[k] == front[k];
  }

  lemma UnionAssociates(a: set<nat>, b: set<nat>, c: set<nat>)
    ensures a + (b + c) == a + b + c
  {
  }

  lemma LensFitBack(m: Manifest, front: seq<Entry>, e: Entry)
    requires LensFit(m, front + [e])
    ensures LensFit(m, front) && e.index < m.blockCount && m.ExpectedLen(e.index) == Some(e.len) && e.len > 0
  {
    assert e in front + [e];
    assert forall f :: f in front ==> f in front + [e];
  }

  lemma BytesWith(m: Manifest, held: set<nat>, e: Entry)
    requires m.Valid() && e.index < m.blockCount && m.ExpectedLen(e.index) == Some(e.len)
    ensures BytesOf(m, held + {e.index}) == BytesOf(m, held) + if e.index in held then 0 else e.len
  {
    hide Sum, Manifest.Valid, Manifest.ExpectedLen;
    if e.index in held {
      assert held + {e.index} == held;
    } else {
      SumWith(m, held, e.index, m.blockCount);
    }
  }

  // The reported progress counts a block once per time it was received: it is
  // the bytes held exactly when no pending block repeats, and more otherwise.
  lemma {:induction false} ProgressExact(m: Manifest, durable: set<nat>, pending: seq<Entry>)
    requires m.Valid() && LensFit(m, pending) && forall e :: e in pending ==> e.index !in durable
    ensures BytesOf(m, durable) + PendingLen(pending) >= BytesOf(m, durable + Indices(pending))
    ensures BytesOf(m, durable) + PendingLen(pending) == BytesOf(m, durable + Indices(pending)) <==> NoRepeat(pending)
  {
    if pending == [] {
      assert durable + Indices(pending) == durable;
    } else {
      hide NoRepeat, Indices, BytesOf, LensFit, Manifest.Valid, Manifest.ExpectedLen;
      var n := |pending| - 1;
      var front, e := pending[..n], pending[n];
      assert pending == front + [e] && e in pending;
      LensFitBack(m, front, e);
      ProgressExact(m, durable, front);
      NoRepeatBack(front, e);
      IndicesBack(front, e);
      BytesWith(m, durable + Indices(front), e);
      UnionAssociates(durable, Indices(front), {e.index});
    }
  }

  lemma NoIndices()
    ensures Indices([]) == {}
  {
  }

  lemma IndicesBack(front: seq<Entry>, e: Entry)
    ensures Indices(front + [e]) == Indices(front) + {e.index}
  {
    forall x ensures x in Indices(front + [e]) <==> x in Indices(front) + {e.index} {
      if x in Indices(front) {
        var y :| y in front && y.index == x;
        assert y in front + [e];
      }
      if x == e.index { assert e in front + [e]; }
    }
  }

  // ---- The journal and the disk agree --------------------------------------------------

  ghost predicate JournalSays(x: Ctx, d: Disk, es: seq<Entry>, durable: set<nat>)
    requires x.Good()
  {
    AllSafe(x, d, es) && d.journal + d.tail == Records(x.suite, es) && durable == Indices(es)
  }

  ghost predicate Arrived(x: Ctx, content: seq<Byte>, durable: set<nat>, pending: seq<Entry>)
    requires x.Good()
  {
    && LensFit(x.m, pending)
    && forall e :: e in pending ==> e.Typed() && e.index !in durable && HasBlock(x, content, e.index)
  }

  ghost predicate Traced(x: Ctx, run: Run, d: Disk) {
    x.Good() && Authenticates(x) && Possible(x, run) && run.disk == d
  }

  lemma TracedIsGood(x: Ctx, run: Run, d: Disk)
    requires Traced(x, run, d)
    ensures x.Good() && TagsAre32(x.suite)
  {
  }

  lemma NothingPending(x: Ctx, content: seq<Byte>, durable: set<nat>)
    requires x.Good()
    ensures Arrived(x, content, durable, [])
  {
  }

  lemma AgreeAfter(x: Ctx, d: Disk, op: DiskOp, d': Disk, es: seq<Entry>, durable: set<nat>)
    requires x.Good() && WritesAgree(x, d) && DiskStep(x, d, op, d') && JournalSays(x, d, es, durable)
    requires d'.journal + d'.tail == d.journal + d.tail
    ensures JournalSays(x, d', es, durable)
  {
    hide DiskStep, Safe, Records;
    forall e | e in es ensures Safe(x, d', e.index) { StepKeepsSafe(x, d, op, d', e.index); }
  }

  function Written(d: Disk, w: Write): Disk
    requires w.offset + |w.data| <= |d.visible|
  {
    d.(visible := Splice(d.visible, w), writes := d.writes + [w])
  }

  lemma WriteStep(x: Ctx, run: Run, d: Disk, i: nat, es: seq<Entry>, durable: set<nat>, pending: seq<Entry>)
    requires Traced(x, run, d) && i < x.m.blockCount && |d.visible| == x.m.size
    requires JournalSays(x, d, es, durable) && Arrived(x, d.visible, durable, pending)
    ensures x.m.Offset(i) + |x.Block(i)| <= |d.visible|
    ensures var d' := Written(d, Write(x.m.Offset(i), x.Block(i)));
            && Traced(x, Then(run, WriteBlock(i), d'), d') && |d'.visible| == x.m.size
            && JournalSays(x, d', es, durable) && Arrived(x, d'.visible, durable, pending) && HasBlock(x, d'.visible, i)
  {
    hide Records, HasBlock, AllSafe, Splice, Manifest.Valid, Manifest.ExpectedLen;
    BlockLen(x, i);
    var w := Write(x.m.Offset(i), x.Block(i));
    var d' := Written(d, w);
    assert DiskStep(x, d, WriteBlock(i), d');
    AlwaysRecoverable(x, run);
    AgreeAfter(x, d, WriteBlock(i), d', es, durable);
    SpliceHasBlock(x, d.visible, i);
    assert Authentic(x, w);
    forall e | e in pending ensures HasBlock(x, d'.visible, e.index) { SpliceKeepsBlock(x, d.visible, w, e.index); }
  }

  lemma SyncStep(x: Ctx, run: Run, d: Disk, es: seq<Entry>, durable: set<nat>, pending: seq<Entry>)
    requires Traced(x, run, d) && JournalSays(x, d, es, durable) && Arrived(x, d.visible, durable, pending)
    ensures var d' := d.(synced := d.visible, writes := []);
            && Traced(x, Then(run, FileSync, d'), d') && JournalSays(x, d', es, durable)
  {
    hide Records, HasBlock, AllSafe;
    AlwaysRecoverable(x, run);
    AgreeAfter(x, d, FileSync, d.(synced := d.visible, writes := []), es, durable);
  }

  lemma AppendStep(x: Ctx, run: Run, d: Disk, es: seq<Entry>, e: Entry, from: nat, to: nat)
    requires Traced(x, run, d) && AllSafe(x, d, es) && e.Typed() && Safe(x, d, e.index)
    requires from <= to <= |Record(x.suite, e)| && d.journal + d.tail == Records(x.suite, es) + Record(x.suite, e)[..from]
    ensures var d' := d.(tail := d.tail + Record(x.suite, e)[from..to]);
            && Traced(x, Then(run, Append(e, from, to), d'), d') && AllSafe(x, d', es) && Safe(x, d', e.index)
            && d'.journal + d'.tail == Records(x.suite, es) + Record(x.suite, e)[..to]
  {
    hide Records, Record, HasBlock;
    var r := Record(x.suite, e);
    assert r[..to] == r[..from] + r[from..to];
    assert d.journal + (d.tail + r[from..to]) == (d.journal + d.tail) + r[from..to];
    assert DiskStep(x, d, Append(e, from, to), d.(tail := d.tail + r[from..to]));
  }

  lemma RecordsBack(s: Suite, es: seq<Entry>, e: Entry)
    ensures Records(s, es + [e]) == Records(s, es) + Record(s, e)
  {
    assert (es + [e])[..|es|] == es;
  }

  // The whole record on disk and flushed: its block has joined the journal.
  lemma RecordDone(x: Ctx, run: Run, d: Disk, es: seq<Entry>, e: Entry, durable: set<nat>)
    requires Traced(x, run, d) && AllSafe(x, d, es) && e.Typed() && Safe(x, d, e.index) && durable == Indices(es)
    requires d.journal + d.tail == Records(x.suite, es) + Record(x.suite, e)
    ensures var d' := JournalFlushed(d);
            Traced(x, Then(run, JournalSync, d'), d') && JournalSays(x, d', es + [e], durable + {e.index})
  {
    hide Record, Records, Indices, HasBlock, Authenticates, Ctx.Good;
    var d' := JournalFlushed(d);
    RecordsBack(x.suite, es, e);
    assert d'.journal + d'.tail == d.journal + d.tail;
    IndicesBack(es, e);
    assert DiskStep(x, d, JournalSync, d');
  }

  lemma OpenSteps(x: Ctx, run: Run, d: Disk)
    requires Traced(x, run, d)
    ensures var d1 := d.(visible := Resize(d.visible, x.m.size));
            var d2 := JournalRewritten(d1);
            && |d1.visible| == x.m.size
            && Traced(x, Then(run, SetLength, d1), d1)
            && Traced(x, Then(Then(run, SetLength, d1), DropTorn, d2), d2)
  {
    hide Authenticates, Ctx.Good;
    var d1 := d.(visible := Resize(d.visible, x.m.size));
    assert DiskStep(x, d, SetLength, d1);
    assert DiskStep(x, d1, DropTorn, JournalRewritten(d1));
  }

  // The whole records of a journal load, and name only blocks that are safe.
  lemma WholeRecordsLoad(x: Ctx, run: Run, d: Disk)
    requires Traced(x, run, d)
    ensures Load(x.suite, WholeRecords(d.journal + d.tail)).Some?
    ensures exists es: seq<Entry> :: AllSafe(x, d, es) && WholeRecords(d.journal + d.tail) == Records(x.suite, es) &&
              Load(x.suite, WholeRecords(d.journal + d.tail)).value == Indices(es)
  {
    hide HasBlock, Records, Record, Load, Authenticates, Indices;
    AlwaysRecoverable(x, run);
    var es: seq<Entry> :| Journaled(x, d, d.journal + d.tail, es);
    var bytes := d.journal + d.tail;
    var k := |bytes| / RECORD_LEN;
    LoadPrefix(x.suite, es, |bytes|);
    LoadPrefix(x.suite, es, k * RECORD_LEN);
    RecordsTake(x.suite, es, k);
    assert WholeRecords(bytes) == Records(x.suite, es)[..k * RECORD_LEN];
    assert k * RECORD_LEN / RECORD_LEN == k;
    assert AllSafe(x, d, es[..k]);
  }

  ghost predicate Earlier(p: Run, run: Run) {
    p == run || (run.Then? && Earlier(p, run.earlier))
  }

  lemma {:induction false} EarlierPossible(x: Ctx, p: Run, run: Run)
    requires x.Good() && Possible(x, run) && Earlier(p, run)
    ensures Possible(x, p)
  {
    if p != run { EarlierPossible(x, p, run.earlier); }
  }

  // Power lost between any two disk operations of a session, or during one:
  // the journal that is left loads, and every block it names is the sender's.
  lemma AnyCrashResumes(x: Ctx, run: Run, d: Disk, p: Run, crashed: Disk)
    requires Traced(x, run, d) && Earlier(p, run) && Crashed(p.disk, crashed)
    ensures Traced(x, Then(p, Crash, crashed), crashed)
    ensures var loaded := Load(x.suite, WholeRecords(crashed.journal + crashed.tail));
            loaded.Some? && forall i :: i in loaded.value ==> Safe(x, crashed, i)
  {
    hide Load, Records, Safe, Crashed;
    EarlierPossible(x, p, run);
    assert DiskStep(x, p.disk, Crash, crashed);
    WholeRecordsLoad(x, Then(p, Crash, crashed), crashed);
  }

  lemma {:induction false} RecordsTake(s: Suite, es: seq<Entry>, k: nat)
    requires TagsAre32(s) && k <= |es| && forall e :: e in es ==> e.Typed()
    ensures |Records(s, es)| == RECORD_LEN * |es|
    ensures Records(s, es)[..k * RECORD_LEN] == Records(s, es[..k])
  {
    hide Record;
    RecordsLen(s, es);
    if k < |es| {
      var n := |es| - 1;
      RecordsTake(s, es[..n], k);
      assert es[..n][..k] == es[..k];
      assert Records(s, es)[..k * RECORD_LEN] == Records(s, es[..n])[..k * RECORD_LEN];
    } else {
      assert es[..k] == es;
    }
  }

  // A flushed journal loses nothing to a crash: reopening finds the same blocks.
  lemma DurableSurvives(x: Ctx, d: Disk, es: seq<Entry>, durable: set<nat>, c: Disk)
    requires x.Good() && JournalSays(x, d, es, durable) && d.tail == [] && d.older == {} && Crashed(d, c)
    ensures Load(x.suite, WholeRecords(c.journal + c.tail)) == Some(durable)
  {
    hide Records, Load, Safe;
    RecordsLen(x.suite, es);
    assert c.journal + c.tail == Records(x.suite, es);
    assert WholeRecords(c.journal + c.tail) == Records(x.suite, es);
    LoadPrefix(x.suite, es, RECORD_LEN * |es|);
    assert Records(x.suite, es)[..RECORD_LEN * |es|] == Records(x.suite, es) && es[..|es|] == es;
  }

  lemma OpenedIsBlock(x: Ctx, run: Run, d: Disk, f: Frame)
    requires Traced(x, run, d) && Decrypt(x.suite, x.m, f).Some?
    ensures f.index < x.m.blockCount && Decrypt(x.suite, x.m, f).value == x.Block(f.index)
    ensures x.m.ExpectedLen(f.index) == Some(f.plainLen) && |x.Block(f.index)| == f.plainLen > 0
  {
    BlockInside(x.m, f.index);
    BlockLen(x, f.index);
  }

  lemma ArrivedBack(x: Ctx, content: seq<Byte>, durable: set<nat>, pending: seq<Entry>, e: Entry)
    requires x.Good() && Arrived(x, content, durable, pending)
    requires e.Typed() && e.index !in durable && HasBlock(x, content, e.index)
    requires x.m.ExpectedLen(e.index) == Some(e.len) && e.len > 0
    ensures Arrived(x, content, durable, pending + [e])
    ensures PendingLen(pending + [e]) == PendingLen(pending) + e.len
  {
    assert (pending + [e])[..|pending|] == pending;
  }

  lemma CompleteBytes(m: Manifest, durable: set<nat>)
    requires m.Valid() && |durable| == m.blockCount && forall i :: i in durable ==> i < m.blockCount
    ensures BytesOf(m, durable) == m.size
  {
    Pigeonhole(durable, m.blockCount);
    AllBlocksSum(m, durable, m.blockCount);
  }

  lemma RefusedIsUntraced(x: Ctx, run: Run, d: Disk)
    requires !x.m.Valid()
    ensures !Traced(x, run, d)
  {
  }
}
