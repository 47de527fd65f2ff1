// Attachment protocol v2: the manifest's block geometry, the block frame and
// the journal record. Hashing and encryption are parameters.
module Transfer {
  import opened Options
  import opened Numbers
  import opened Octets

  const PROTOCOL_VERSION := 2
  const BLOCK_128K := 131072
  const BLOCK_1M := 1048576
  const BLOCK_4M := 4194304
  const MAX_ATTACHMENT_BYTES := 2147483648
  const AEAD_TAG_LEN := 16
  const FRAME_HEADER_LEN := 56
  const RECORD_LEN := 80
  const FRAME_MAGIC: seq<Byte> := [67, 65, 84, 50]    // "CAT2"
  const JOURNAL_MAGIC: seq<Byte> := [67, 65, 74, 50]  // "CAJ2"

  datatype Media = Media(width: Option<nat>, height: Option<nat>, durationMillis: Option<nat>)

  datatype Manifest = Manifest(version: nat, transferId: string, messageId: string, albumId: Option<string>,
                               fileName: string, mimeType: string, media: Option<Media>, thumbnail: seq<Byte>,
                               size: nat, blockSize: nat, blockCount: nat, wholeHash: seq<Byte>, digestPrefix: nat)
  {
    predicate Valid() {
      && version == PROTOCOL_VERSION
      && 1 <= |transferId| <= 160
      && 1 <= |messageId| <= 160
      && (albumId.Some? ==> |albumId.value| <= 160)
      && 1 <= |fileName| <= 255
      && 1 <= |mimeType| <= 255
      && |thumbnail| <= 64 * 1024
      && (media.Some? ==> media.value.width != Some(0) && media.value.height != Some(0) && media.value.durationMillis != Some(0))
      && 1 <= size <= MAX_ATTACHMENT_BYTES
      && (blockSize == BLOCK_128K || blockSize == BLOCK_1M || blockSize == BLOCK_4M)
      && blockCount != 0
      && blockCount == (size + blockSize - 1) / blockSize
    }

    function Offset(i: nat): nat { i * blockSize }

    // None: the manifest or the index is refused.
    function ExpectedLen(i: nat): Option<nat> {
      if !Valid() || i >= blockCount then None
      else
        assert Offset(i) < size by { BlockStartsInside(i); }
        Some(if size - Offset(i) < blockSize then size - Offset(i) else blockSize)
    }

    lemma BlockStartsInside(i: nat)
      requires Valid() && i < blockCount
      ensures Offset(i) < size
    {
      Ceiling(size, blockSize);
      assert i * blockSize <= (blockCount - 1) * blockSize;
    }
  }

  lemma Ceiling(n: nat, d: nat)
    requires n > 0 && d > 0
    ensures var c := (n + d - 1) / d; (c - 1) * d < n <= c * d
  {
    var c := (n + d - 1) / d;
    assert n + d - 1 == c * d + (n + d - 1) % d;
  }

  // ---- Blocks tile the file ----------------------------------------------------

  ghost predicate Covers(m: Manifest, i: nat, p: nat) {
    m.ExpectedLen(i).Some? && m.Offset(i) <= p < m.Offset(i) + m.ExpectedLen(i).value
  }

  lemma BlockInside(m: Manifest, i: nat)
    requires m.Valid() && i < m.blockCount
    ensures m.ExpectedLen(i).Some? && 1 <= m.ExpectedLen(i).value <= m.blockSize
    ensures m.Offset(i) + m.ExpectedLen(i).value <= m.size
    ensures i + 1 < m.blockCount ==> m.Offset(i) + m.ExpectedLen(i).value == m.Offset(i + 1)
    ensures i + 1 == m.blockCount ==> m.Offset(i) + m.ExpectedLen(i).value == m.size
  {
    m.BlockStartsInside(i);
    Ceiling(m.size, m.blockSize);
    assert m.Offset(i + 1) == m.Offset(i) + m.blockSize;
    if i + 1 < m.blockCount { m.BlockStartsInside(i + 1); }
  }

  lemma DivUnique(p: nat, b: nat, j: nat)
    requires b > 0 && j * b <= p < j * b + b
    ensures j == p / b
  {
    var i := p / b;
    assert p == i * b + p % b;
    MulOrder(j + 1, i, b);
    MulOrder(i + 1, j, b);
  }

  // Every byte of the file lies in exactly one block.
  lemma BlocksTile(m: Manifest, p: nat)
    requires m.Valid() && p < m.size
    ensures Covers(m, p / m.blockSize, p)
    ensures forall i: nat :: Covers(m, i, p) ==> i == p / m.blockSize
  {
    TileAt(m, p);
    forall j: nat | Covers(m, j, p) ensures j == p / m.blockSize {
      BlockInside(m, j);
      DivUnique(p, m.blockSize, j);
    }
  }

  lemma TileAt(m: Manifest, p: nat)
    requires m.Valid() && p < m.size
    ensures Covers(m, p / m.blockSize, p)
  {
    var b := m.blockSize;
    var i := p / b;
    assert p == i * b + p % b;
    Ceiling(m.size, b);
    MulOrder(m.blockCount, i, b);
  }

  function Sum(m: Manifest, blocks: set<nat>, n: nat): nat {
    if n == 0 then 0
    else Sum(m, blocks, n - 1) + if n - 1 in blocks && m.ExpectedLen(n - 1).Some? then m.ExpectedLen(n - 1).value else 0
  }

  // durable_bytes: the sum over the set, taken in index order.
  function BytesOf(m: Manifest, blocks: set<nat>): nat { Sum(m, blocks, m.blockCount) }

  // A full set adds up to the file, to the byte.
  lemma {:induction false} AllBlocksSum(m: Manifest, blocks: set<nat>, n: nat)
    requires m.Valid() && n <= m.blockCount && forall i :: 0 <= i < m.blockCount ==> i in blocks
    ensures Sum(m, blocks, n) == if n == m.blockCount then m.size else m.Offset(n)
  {
    if n > 0 {
      AllBlocksSum(m, blocks, n - 1);
      BlockInside(m, n - 1);
    }
  }

  // ---- The block frame ------------------------------------------------------------

  datatype Frame = Frame(digestPrefix: nat, index: nat, plainLen: nat, plainHash: seq<Byte>, cipher: seq<Byte>)
  {
    // What its Rust field types hold.
    predicate Typed() {
      digestPrefix < Pow256(8) && index < Pow256(4) && plainLen < Pow256(4) && |plainHash| == 32
    }
  }

  function Encode(f: Frame): Option<seq<Byte>> {
    if f.plainLen == 0 || |f.cipher| != f.plainLen + AEAD_TAG_LEN then None
    else
      Some(FRAME_MAGIC + ToBigEndian(PROTOCOL_VERSION, 2) + ToBigEndian(0, 2) + ToBigEndian(f.digestPrefix, 8)
           + ToBigEndian(f.index, 4) + ToBigEndian(f.plainLen, 4) + f.plainHash + f.cipher)
  }

  function Decode(e: seq<Byte>): Option<Frame> {
    if |e| < FRAME_HEADER_LEN + AEAD_TAG_LEN || e[..4] != FRAME_MAGIC then None
    else if BigEndian(e[4..6]) != PROTOCOL_VERSION then None
    else
      var f := Frame(BigEndian(e[8..16]), BigEndian(e[16..20]), BigEndian(e[20..24]), e[24..56], e[56..]);
      if f.plainLen == 0 || |f.cipher| != f.plainLen + AEAD_TAG_LEN then None else Some(f)
  }

  lemma {:induction false} DecodeEncode(f: Frame)
    requires f.Typed() && Encode(f).Some?
    ensures Decode(Encode(f).value) == Some(f)
  {
    var e := Encode(f).value;
    assert e[..4] == FRAME_MAGIC;
    assert e[4..6] == ToBigEndian(PROTOCOL_VERSION, 2);
    assert e[8..16] == ToBigEndian(f.digestPrefix, 8);
    assert e[16..20] == ToBigEndian(f.index, 4);
    assert e[20..24] == ToBigEndian(f.plainLen, 4);
    assert e[24..56] == f.plainHash;
    assert e[56..] == f.cipher;
    VersionDigits();
    BigEndianRoundTrip(f.digestPrefix, 8);
    BigEndianRoundTrip(f.index, 4);
    BigEndianRoundTrip(f.plainLen, 4);
  }

  lemma VersionDigits()
    ensures Pow256(2) == 65536
    ensures BigEndian(ToBigEndian(PROTOCOL_VERSION, 2)) == PROTOCOL_VERSION
  {
    assert Pow256(0) == 1 && Pow256(1) == 256;
    BigEndianRoundTrip(PROTOCOL_VERSION, 2);
  }

  lemma ZeroDigits()
    ensures ToBigEndian(0, 2) == [0, 0]
  {
    assert ToBigEndian(0, 1) == [0];
  }

  // Decoding does not read the two reserved bytes, so encoding again gives
  // back the same frame bytes exactly when those were zero.
  lemma EncodeDecode(e: seq<Byte>)
    requires Decode(e).Some?
    ensures Decode(e).value.Typed() && Encode(Decode(e).value).Some?
    ensures Encode(Decode(e).value) == Some(e) <==> e[6] == 0 && e[7] == 0
  {
    hide BigEndian, ToBigEndian, Pow256;
    var f := Decode(e).value;
    BigEndianUnique(e[4..6]);
    BigEndianUnique(e[8..16]);
    BigEndianUnique(e[16..20]);
    BigEndianUnique(e[20..24]);
    var x := Encode(f).value;
    assert x[4..6] == e[4..6] && x[8..16] == e[8..16] && x[16..20] == e[16..20] && x[20..24] == e[20..24];
    assert x[24..56] == e[24..56] && x[56..] == e[56..] && x[..4] == e[..4];
    ZeroDigits();
    assert x[6..8] == [0, 0] && x[6] == x[6..8][0] && x[7] == x[6..8][1];
    if e[6] == 0 && e[7] == 0 {
      assert e[6..8] == [0, 0];
      assert e == e[..4] + e[4..6] + e[6..8] + e[8..16] + e[16..20] + e[20..24] + e[24..56] + e[56..];
    }
  }

  // ---- The journal record --------------------------------------------------------

  // tag: HMAC under the journal key. seal, open: authenticated encryption of
  // the given block under this manifest. sha: SHA-256.
  datatype Suite = Suite(tag: seq<Byte> -> seq<Byte>, seal: (nat, seq<Byte>) -> seq<Byte>,
                         open: (nat, seq<Byte>) -> Option<seq<Byte>>, sha: seq<Byte> -> seq<Byte>)

  ghost predicate TagsAre32(s: Suite) { forall x :: |s.tag(x)| == 32 }

  datatype Entry = Entry(index: nat, len: nat, hash: seq<Byte>)
  {
    predicate Typed() { index < Pow256(4) && len < Pow256(4) && |hash| == 32 }
  }

  function RecordPrefix(e: Entry): seq<Byte> {
    JOURNAL_MAGIC + ToBigEndian(PROTOCOL_VERSION, 2) + ToBigEndian(0, 2) + ToBigEndian(e.index, 4) + ToBigEndian(e.len, 4) + e.hash
  }

  function Record(s: Suite, e: Entry): seq<Byte> { RecordPrefix(e) + s.tag(RecordPrefix(e)) }

  function Records(s: Suite, es: seq<Entry>): seq<Byte> {
    if es == [] then [] else Records(s, es[..|es| - 1]) + Record(s, es[|es| - 1])
  }

  function Indices(es: seq<Entry>): set<nat> { set e | e in es :: e.index }

  function RecordIndex(s: Suite, r: seq<Byte>): Option<nat>
    requires |r| == RECORD_LEN
  {
    if r[..4] != JOURNAL_MAGIC || BigEndian(r[4..6]) != PROTOCOL_VERSION then None
    else if s.tag(r[..48]) != r[48..] then None
    else Some(BigEndian(r[8..12]))
  }

  // Reading a journal: whole records in order; a torn last one is ignored, a
  // whole one that fails its checks refuses the journal.
  function Load(s: Suite, bytes: seq<Byte>): Option<set<nat>>
    decreases |bytes|
  {
    if |bytes| < RECORD_LEN then Some({})
    else
      var i := RecordIndex(s, bytes[..RECORD_LEN]);
      var more := Load(s, bytes[RECORD_LEN..]);
      if i.None? || more.None? then None else Some({i.value} + more.value)
  }

  lemma RecordRoundTrip(s: Suite, e: Entry)
    requires TagsAre32(s) && e.Typed()
    ensures |Record(s, e)| == RECORD_LEN && |RecordPrefix(e)| == 48
    ensures RecordIndex(s, Record(s, e)) == Some(e.index)
  {
    var r := Record(s, e);
    assert |s.tag(RecordPrefix(e))| == 32;
    assert r[..48] == RecordPrefix(e) && r[48..] == s.tag(RecordPrefix(e));
    assert r[..4] == JOURNAL_MAGIC && r[4..6] == ToBigEndian(PROTOCOL_VERSION, 2) && r[8..12] == ToBigEndian(e.index, 4);
    VersionDigits();
    BigEndianRoundTrip(e.index, 4);
  }

  lemma {:induction false} RecordsLen(s: Suite, es: seq<Entry>)
    requires TagsAre32(s) && forall e :: e in es ==> e.Typed()
    ensures |Records(s, es)| == RECORD_LEN * |es|
  {
    if es != [] {
      forall e | e in es[..|es| - 1] ensures e in es { }
      RecordsLen(s, es[..|es| - 1]);
      assert es[|es| - 1] in es;
      RecordRoundTrip(s, es[|es| - 1]);
    }
  }

  lemma {:induction false} RecordsFront(s: Suite, e: Entry, es: seq<Entry>)
    ensures Records(s, [e] + es) == Record(s, e) + Records(s, es)
  {
    if es == [] {
      assert [e] + es == [e] && [e][..0] == [];
      assert Records(s, [e]) == Records(s, []) + Record(s, e);
    } else {
      var n := |es| - 1;
      assert ([e] + es)[..n + 1] == [e] + es[..n];
      RecordsFront(s, e, es[..n]);
    }
  }

  lemma IndicesFront(e: Entry, es: seq<Entry>)
    ensures Indices([e] + es) == {e.index} + Indices(es)
  {
    forall x ensures x in Indices([e] + es) <==> x in {e.index} + Indices(es) {
      if x in Indices(es) {
        var y :| y in es && y.index == x;
        assert y in [e] + es;
      }
      if x == e.index { assert e in [e] + es; }
    }
  }

  // Whatever prefix of a journal survives, loading it yields exactly the
  // entries whose records survived whole.
  lemma {:induction false} LoadPrefix(s: Suite, es: seq<Entry>, n: nat)
    requires TagsAre32(s) && (forall e :: e in es ==> e.Typed()) && n <= |Records(s, es)|
    ensures n / RECORD_LEN <= |es|
    ensures Load(s, Records(s, es)[..n]) == Some(Indices(es[..n / RECORD_LEN]))
    decreases |es|
  {
    hide RecordIndex, Record, RecordPrefix, Records;
    RecordsLen(s, es);
    if n < RECORD_LEN {
      assert es[..0] == [] && Indices([]) == {};
    } else {
      var e, rest := es[0], es[1..];
      assert es == [e] + rest;
      RecordsFront(s, e, rest);
      RecordRoundTrip(s, e);
      var bytes := Records(s, es)[..n];
      assert bytes[..RECORD_LEN] == Record(s, e);
      assert bytes[RECORD_LEN..] == Records(s, rest)[..n - RECORD_LEN];
      LoadPrefix(s, rest, n - RECORD_LEN);
      var k := n / RECORD_LEN;
      assert (n - RECORD_LEN) / RECORD_LEN == k - 1;
      assert es[..k] == [e] + rest[..k - 1];
      IndicesFront(e, rest[..k - 1]);
    }
  }
}
