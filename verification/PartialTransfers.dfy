// The long-lived partial-file writer. A block is recorded as received for good
// only after its bytes were flushed.
module PartialTransfers {
  import opened Options
  import opened Octets
  import opened Transfer
  import opened TransferDisk
  import opened TransferSession

  // Result of finalize: what was promoted to the destination, if anything.
  datatype Outcome = Incomplete | HashMismatch | Promoted(content: seq<Byte>)

  class PartialTransfer {
    const suite: Suite
    const m: Manifest
    var disk: Disk
    var durable: set<nat>
    var pending: seq<Entry>
    var pendingBytes: nat
    ghost const original: seq<Byte>
    ghost var run: Run
    ghost var entries: seq<Entry>

    ghost function X(): Ctx { Ctx(suite, m, original) }

    ghost predicate OnDisk()
      reads this
    {
      Traced(X(), run, disk) && |disk.visible| == m.size && JournalSays(X(), disk, entries, durable)
    }

    ghost predicate Valid()
      reads this
    {
      && OnDisk()
      && Arrived(X(), disk.visible, durable, pending)
      && pendingBytes == PendingLen(pending) < JOURNAL_CHECKPOINT_BYTES
    }

    ghost function Held(): set<nat>
      reads this
    {
      durable + Indices(pending)
    }

    function DurableBytes(): nat
      reads this
    {
      BytesOf(m, durable)
    }

    function ReceivedBytes(): nat
      reads this
    {
      DurableBytes() + PendingLen(pending)
    }

    predicate IsComplete()
      reads this
    {
      |durable| == m.blockCount && pending == []
    }

    constructor (suite: Suite, m: Manifest, disk: Disk, durable: set<nat>,
                 ghost original: seq<Byte>, ghost run: Run, ghost entries: seq<Entry>)
      ensures this.suite == suite && this.m == m && this.disk == disk && this.durable == durable
      ensures this.original == original && this.run == run && this.entries == entries
      ensures pending == [] && pendingBytes == 0
    {
      this.suite, this.m, this.disk, this.durable := suite, m, disk, durable;
      this.original, this.run, this.entries := original, run, entries;
      pending, pendingBytes := [], 0;
    }

    // One record: two writes, then a flush.
    method AppendRecord(e: Entry)
      requires OnDisk() && e.Typed() && Safe(X(), disk, e.index)
      modifies this`disk, this`durable, this`run, this`entries
      ensures OnDisk() && durable == old(durable) + {e.index}
      ensures disk.visible == old(disk.visible) && disk.synced == old(disk.synced)
      ensures e.index !in old(durable) ==> disk.tail == [] && disk.older == {}
      ensures e.index in old(durable) ==> disk == old(disk)
    {
      hide Traced, AllSafe, Safe, Record, Records;
      if e.index in durable {
        assert durable == durable + {e.index};
        return;
      }
      var prefix := RecordPrefix(e);
      var tag := suite.tag(prefix);
      ghost var r := Record(suite, e);
      TracedIsGood(X(), run, disk);
      Pieces(e);
      assert disk.journal + disk.tail == Records(suite, entries) + r[..0];
      AppendStep(X(), run, disk, entries, e, 0, 48);
      disk := disk.(tail := disk.tail + prefix);
      run := Then(run, Append(e, 0, 48), disk);
      AppendStep(X(), run, disk, entries, e, 48, RECORD_LEN);
      disk := disk.(tail := disk.tail + tag);
      run := Then(run, Append(e, 48, RECORD_LEN), disk);
      RecordDone(X(), run, disk, entries, e, durable);
      disk := JournalFlushed(disk);
      run := Then(run, JournalSync, disk);
      durable := durable + {e.index};
      entries := entries + [e];
    }

    lemma Pieces(e: Entry)
      requires e.Typed() && TagsAre32(suite)
      ensures var r := Record(suite, e);
              && |r| == RECORD_LEN && r[..0] == [] && r[0..48] == RecordPrefix(e)
              && r[48..RECORD_LEN] == suite.tag(RecordPrefix(e)) && r[..RECORD_LEN] == r
    {
      RecordRoundTrip(suite, e);
    }

    // Flush the file, then journal every pending block.
    method Checkpoint()
      requires OnDisk() && Arrived(X(), disk.visible, durable, pending) && pendingBytes == PendingLen(pending)
      modifies this`disk, this`durable, this`pending, this`pendingBytes, this`run, this`entries
      ensures Valid() && pending == [] && durable == old(Held())
      ensures disk.visible == old(disk.visible)
      ensures old(pending) != [] ==> disk.synced == disk.visible && disk.tail == [] && disk.older == {}
      ensures old(pending) == [] ==> disk == old(disk)
    {
      hide Traced, Arrived, Safe, HasBlock, JournalSays, Indices;
      NoIndices();
      assert pending[..0] == [];
      if pending == [] {
        assert durable + Indices(pending) == durable;
        return;
      }
      TracedIsGood(X(), run, disk);
      SyncStep(X(), run, disk, entries, durable, pending);
      disk := disk.(synced := disk.visible, writes := []);
      run := Then(run, FileSync, disk);
      var k := 0;
      while k < |pending|
        invariant 0 <= k <= |pending| && pending == old(pending) && pendingBytes == old(pendingBytes)
        invariant X().Good() && OnDisk() && disk.visible == old(disk.visible) && disk.synced == disk.visible
        invariant durable == old(durable) + Indices(pending[..k])
        invariant k > 0 ==> disk.tail == [] && disk.older == {}
        invariant Arrived(X(), disk.visible, old(durable), pending)
      {
        assert pending[k] in pending;
        assert pending[..k + 1] == pending[..k] + [pending[k]];
        IndicesBack(pending[..k], pending[k]);
        FlushedIsSafe(old(durable), k);
        AppendRecord(pending[k]);
        k := k + 1;
      }
      assert pending[..k] == pending;
      pending := [];
      pendingBytes := 0;
      NothingPending(X(), disk.visible, durable);
    }

    lemma FlushedIsSafe(before: set<nat>, k: nat)
      requires X().Good() && disk.synced == disk.visible && k < |pending|
      requires Arrived(X(), disk.visible, before, pending)
      ensures pending[k].Typed() && Safe(X(), disk, pending[k].index)
      ensures k == 0 ==> pending[k].index !in before + Indices(pending[..k])
    {
      assert pending[k] in pending;
    }

    // None: refused. due: the checkpoint interval has passed.
    method ReceiveEncodedBlock(encoded: seq<Byte>, due: bool) returns (received: Option<nat>)
      requires Valid()
      modifies this`disk, this`durable, this`pending, this`pendingBytes, this`run, this`entries
      ensures Valid()
      ensures received.None? <==>
                var f := Decode(encoded);
                f.None? || (f.value.index !in old(durable) && Decrypt(suite, m, f.value).None?)
      ensures received.None? || Decode(encoded).value.index in old(durable) ==> unchanged(this)
      ensures received.Some? ==>
                var i := Decode(encoded).value.index;
                && i < m.blockCount && HasBlock(X(), disk.visible, i)
                && Held() == old(Held()) + {i}
                && received == Some(if i in old(durable) then DurableBytes() else ReceivedBytes())
      ensures received.Some? && Decode(encoded).value.index !in old(durable) ==>
                var f := Decode(encoded).value;
                if due || old(pendingBytes) + f.plainLen >= 8388608 then
                  pending == [] && durable == old(Held()) + {f.index}
                else durable == old(durable) && pending == old(pending) + [Entry(f.index, f.plainLen, f.plainHash)]
    {
      hide Traced, AllSafe, Safe, HasBlock, Records, Indices, Decode, Pow256, Splice;
      TracedIsGood(X(), run, disk);
      var frame := Decode(encoded);
      if frame.None? { return None; }
      var f := frame.value;
      if f.index in durable {
        DurableIsSafe(f.index);
        assert Held() == Held() + {f.index};
        return Some(DurableBytes());
      }
      var plain := Decrypt(suite, m, f);
      if plain.None? { return None; }
      DecodedIsTyped(encoded);
      OpenedIsBlock(X(), run, disk, f);
      WriteStep(X(), run, disk, f.index, entries, durable, pending);
      disk := Written(disk, Write(m.Offset(f.index), plain.value));
      run := Then(run, WriteBlock(f.index), disk);
      var e := Entry(f.index, f.plainLen, f.plainHash);
      ArrivedBack(X(), disk.visible, durable, pending, e);
      IndicesBack(pending, e);
      pending := pending + [e];
      pendingBytes := pendingBytes + |plain.value|;
      assert Held() == old(Held()) + {f.index};
      if pendingBytes >= JOURNAL_CHECKPOINT_BYTES || due {
        Checkpoint();
        NoIndices();
        assert Held() == durable;
      }
      return Some(ReceivedBytes());
    }

    lemma DurableIsSafe(i: nat)
      requires OnDisk() && i in durable
      ensures i < m.blockCount && HasBlock(X(), disk.visible, i)
    {
      var e :| e in entries && e.index == i;
    }

    lemma DecodedIsTyped(encoded: seq<Byte>)
      requires Decode(encoded).Some?
      ensures Decode(encoded).value.Typed()
    {
      EncodeDecode(encoded);
    }

    // Which of its three outcomes, exactly: a block is missing; or none is, and
    // the sender's file has another hash than the manifest; or it is promoted.
    method Finalize() returns (outcome: Outcome)
      requires Valid()
      modifies this`disk, this`durable, this`pending, this`pendingBytes, this`run, this`entries
      ensures Valid() && durable == old(Held()) && pending == [] && disk.visible == old(disk.visible)
      ensures outcome.Incomplete? <==> exists i: nat :: i < m.blockCount && i !in old(Held())
      ensures outcome.HashMismatch? <==> !outcome.Incomplete? && suite.sha(original) != m.wholeHash
      ensures outcome.Promoted? <==> !outcome.Incomplete? && suite.sha(original) == m.wholeHash
      ensures outcome.Promoted? ==> outcome.content == original == disk.visible
      ensures !outcome.Incomplete? ==> DurableBytes() == m.size
    {
      hide Traced, AllSafe, Safe, HasBlock, Records, Indices, BytesOf;
      TracedIsGood(X(), run, disk);
      Checkpoint();
      forall i | i in durable ensures i < m.blockCount && HasBlock(X(), disk.visible, i) { DurableIsSafe(i); }
      WholeIsFull(durable, m.blockCount);
      if !IsComplete() { return Incomplete; }
      CompleteIsOriginal(X(), disk.visible, durable);
      CompleteBytes(m, durable);
      var content := disk.visible;
      if suite.sha(content) != m.wholeHash { return HashMismatch; }
      return Promoted(content);
    }
  }

  lemma SameFileSameSafe(x: Ctx, d: Disk, d': Disk, es: seq<Entry>)
    requires x.Good() && AllSafe(x, d, es) && d'.visible == d.visible && d'.synced == d.synced
    ensures AllSafe(x, d', es)
  {
  }

  // Opens the partial file and its journal, of a first session or of one that
  // ended anywhere. Null: the manifest or the journal is refused.
  method Open(suite: Suite, m: Manifest, disk: Disk, ghost original: seq<Byte>, ghost run: Run)
    returns (session: PartialTransfer?)
    ensures session == null <==> !m.Valid() || Load(suite, WholeRecords(disk.journal + disk.tail)).None?
    ensures session != null ==> fresh(session) && session.m == m && session.suite == suite && session.original == original
    ensures session != null ==> Load(suite, WholeRecords(disk.journal + disk.tail)) == Some(session.durable)
    ensures Traced(Ctx(suite, m, original), run, disk) ==> session != null && session.Valid() && session.pending == []
  {
    hide Traced, Possible, AllSafe, Load, WholeRecords, Records, Indices, Arrived;
    if !m.Valid() {
      RefusedIsUntraced(Ctx(suite, m, original), run, disk);
      return null;
    }
    var d := disk.(visible := Resize(disk.visible, m.size));
    ghost var run' := Then(run, SetLength, d);
    var bytes := disk.journal + disk.tail;
    ghost var x := Ctx(suite, m, original);
    if Traced(x, run, disk) {
      OpenSteps(x, run, disk);
      TracedIsGood(x, run, disk);
      WholeRecordsLoad(x, run', d);
    }
    var whole := WholeRecords(bytes);
    if whole != bytes {
      d := JournalRewritten(d);
      run' := Then(run', DropTorn, d);
    }
    var loaded := Load(suite, whole);
    if loaded.None? { return null; }
    ghost var es: seq<Entry> := [];
    if Traced(x, run, disk) {
      es :| AllSafe(x, disk.(visible := d.visible), es) && whole == Records(suite, es) && loaded.value == Indices(es);
      SameFileSameSafe(x, disk.(visible := d.visible), d, es);
    }
    session := new PartialTransfer(suite, m, d, loaded.value, original, run', es);
    if Traced(x, run, disk) { NothingPending(x, d.visible, loaded.value); }
  }

  // The same frame taken twice by a fresh session, no checkpoint between.
  method TakeTwice(session: PartialTransfer, encoded: seq<Byte>) returns (received: nat)
    requires session.Valid() && session.pending == [] && session.durable == {}
    requires var f := Decode(encoded);
             && f.Some? && Decrypt(session.suite, session.m, f.value).Some? && 2 * f.value.plainLen < JOURNAL_CHECKPOINT_BYTES
    modifies session
    ensures received == 2 * Decode(encoded).value.plainLen
  {
    hide Decode, Decrypt, HasBlock, PendingLen, BytesOf, Indices, PartialTransfer.OnDisk, Arrived;
    ghost var f := Decode(encoded).value;
    ghost var e := Entry(f.index, f.plainLen, f.plainHash);
    NothingHeld(session.m);
    PendingBack([], e);
    PendingBack([e], e);
    var first := session.ReceiveEncodedBlock(encoded, false);
    assert session.pending == [e];
    var second := session.ReceiveEncodedBlock(encoded, false);
    assert session.pending == [e] + [e];
    received := second.value;
  }

  // A block received twice before a checkpoint is reported twice: for every
  // one-block file below half the checkpoint, the report is twice its size.
  method ReceiveTwice(suite: Suite, m: Manifest, file: seq<Byte>) returns (received: nat)
    requires var x := Ctx(suite, m, file); x.Good() && Authenticates(x) && Opens(x)
    requires m.blockCount == 1 && 2 * m.size < JOURNAL_CHECKPOINT_BYTES
    ensures received == 2 * m.size > m.size
  {
    hide Encode, Decode, Decrypt, Load, Indices, WholeRecords, Records, HasBlock, Authenticates, Opens;
    ghost var x := Ctx(suite, m, file);
    var disk := Disk([], [], [], [], [], {});
    OneBlock(x);
    NothingToLoad(suite);
    SentBlockArrives(x, 0);
    var encoded := Encode(Encrypt(suite, m, 0, file).value).value;
    assert Traced(x, Start(disk), disk);
    var session := Open(suite, m, disk, file, Start(disk));
    received := TakeTwice(session, encoded);
  }

  lemma NothingHeld(m: Manifest)
    ensures BytesOf(m, {}) == 0 && PendingLen([]) == 0
  {
    NoneSum(m, m.blockCount);
  }

  lemma {:induction false} NoneSum(m: Manifest, n: nat)
    ensures Sum(m, {}, n) == 0
  {
    if n > 0 { NoneSum(m, n - 1); }
  }

  lemma OneBlock(x: Ctx)
    requires x.Good() && x.m.blockCount == 1
    ensures x.Block(0) == x.original && x.m.ExpectedLen(0) == Some(x.m.size)
  {
    BlockInside(x.m, 0);
    assert x.original[0..x.m.size] == x.original;
  }

  lemma NothingToLoad(suite: Suite)
    ensures WholeRecords([] + []) == [] && Load(suite, []) == Some({})
  {
  }

  lemma PendingBack(pending: seq<Entry>, e: Entry)
    ensures PendingLen(pending + [e]) == PendingLen(pending) + e.len
  {
    assert (pending + [e])[..|pending|] == pending;
  }

  method OvershootExample() returns (received: nat, size: nat)
    ensures received == 2 && size == 1
  {
    SmallHolds([7]);
    var x := Small([7]);
    size := x.m.size;
    received := ReceiveTwice(x.suite, x.m, [7]);
  }
}
