// Which manifests, frames and journal records the receiver accepts, exactly,
// in their fields and bytes.
module TransferAnswers {
  import opened Options
  import opened Numbers
  import opened Octets
  import opened Transfer
  import opened TransferDisk
  import opened TransferSession

  // A number of four bytes, high byte first.
  function Four(b: seq<Byte>, i: nat): nat
    requires i + 4 <= |b|
  {
    16777216 * (b[i] as nat) + 65536 * (b[i + 1] as nat) + 256 * (b[i + 2] as nat) + (b[i + 3] as nat)
  }

  lemma TwoBytes(b: seq<Byte>, i: nat)
    requires i + 2 <= |b|
    ensures BigEndian(b[i..i + 2]) == 256 * (b[i] as nat) + (b[i + 1] as nat)
  {
    var d := b[i..i + 2];
    assert d[..1][..0] == [] && d[..1] == [b[i]] && BigEndian(d[..1]) == b[i];
  }

  lemma FourBytes(b: seq<Byte>, i: nat)
    requires i + 4 <= |b|
    ensures BigEndian(b[i..i + 4]) == Four(b, i)
  {
    var d := b[i..i + 4];
    TwoBytes(b, i);
    assert d[..3][..2] == b[i..i + 2] && d[..3] == b[i..i + 3];
    assert BigEndian(d[..3]) == 256 * BigEndian(d[..2]) + d[2];
    assert d[..2] == b[i..i + 2];
  }

  lemma EightBytes(b: seq<Byte>, i: nat)
    requires i + 8 <= |b|
    ensures BigEndian(b[i..i + 8]) == 4294967296 * Four(b, i) + Four(b, i + 4)
  {
    FourBytes(b, i);
    Append(b[i..i + 4], b[i + 4]);
    Append(b[i..i + 5], b[i + 5]);
    Append(b[i..i + 6], b[i + 6]);
    Append(b[i..i + 7], b[i + 7]);
    assert b[i..i + 4] + [b[i + 4]] == b[i..i + 5] && b[i..i + 5] + [b[i + 5]] == b[i..i + 6];
    assert b[i..i + 6] + [b[i + 6]] == b[i..i + 7] && b[i..i + 7] + [b[i + 7]] == b[i..i + 8];
  }

  lemma Append(d: seq<Byte>, x: Byte)
    ensures BigEndian(d + [x]) == 256 * BigEndian(d) + x
  {
    assert (d + [x])[..|d|] == d;
  }

  // ---- Manifests ----------------------------------------------------------------------

  // A manifest is accepted exactly within these bounds and with as many blocks
  // as its size takes.
  lemma ManifestExactly(m: Manifest)
    ensures m.Valid() <==>
              && m.version == 2 && 1 <= |m.transferId| <= 160 && 1 <= |m.messageId| <= 160
              && (m.albumId.Some? ==> |m.albumId.value| <= 160) && 1 <= |m.fileName| <= 255 && 1 <= |m.mimeType| <= 255
              && |m.thumbnail| <= 65536
              && (m.media.Some? ==> m.media.value.width != Some(0) && m.media.value.height != Some(0) && m.media.value.durationMillis != Some(0))
              && 1 <= m.size <= 2147483648 && (m.blockSize == 131072 || m.blockSize == 1048576 || m.blockSize == 4194304)
              && (m.blockCount - 1) * m.blockSize < m.size <= m.blockCount * m.blockSize
  {
    if m.size > 0 && m.blockSize > 0 {
      Ceiling(m.size, m.blockSize);
      CeilingUnique(m.size, m.blockSize, m.blockCount);
    }
  }

  lemma CeilingUnique(n: nat, d: nat, c: nat)
    requires n > 0 && d > 0
    ensures (c - 1) * d < n <= c * d <==> c == (n + d - 1) / d
  {
    var q := (n + d - 1) / d;
    Ceiling(n, d);
    MulOrder(c, q - 1, d);
    MulOrder(q, c - 1, d);
  }

  // ---- Frames -------------------------------------------------------------------------

  // A frame is accepted exactly if it is "CAT2", version 2, and as long as its
  // length field says; its fields are where the sender put them.
  lemma FrameExactly(e: seq<Byte>)
    ensures Decode(e).Some? <==>
              && |e| > 72 && e[0] == 67 && e[1] == 65 && e[2] == 84 && e[3] == 50 && e[4] == 0 && e[5] == 2
              && |e| == 72 + Four(e, 20)
    ensures Decode(e).Some? ==>
              var f := Decode(e).value;
              && f.digestPrefix == 4294967296 * Four(e, 8) + Four(e, 12) && f.index == Four(e, 16) && f.plainLen == Four(e, 20)
              && f.plainHash == e[24..56] && f.cipher == e[56..]
  {
    hide BigEndian;
    if |e| >= 72 {
      TwoBytes(e, 4);
      EightBytes(e, 8);
      FourBytes(e, 16);
      FourBytes(e, 20);
      assert e[..4] == FRAME_MAGIC <==> e[0] == 67 && e[1] == 65 && e[2] == 84 && e[3] == 50 by {
        assert e[..4] == [e[0], e[1], e[2], e[3]];
      }
    }
  }

  // What is encrypted is accepted exactly if it is for this manifest, of a block
  // of it with that block's length, opens, and opens to bytes with the hash.
  lemma BlockExactly(s: Suite, m: Manifest, f: Frame)
    requires m.Valid()
    ensures Decrypt(s, m, f).Some? <==>
              && f.digestPrefix == m.digestPrefix && f.index < m.blockCount
              && f.plainLen == (if (f.index + 1) * m.blockSize <= m.size then m.blockSize else m.size - f.index * m.blockSize)
              && |f.cipher| == f.plainLen + 16
              && s.open(f.index, f.cipher).Some? && s.sha(s.open(f.index, f.cipher).value) == f.plainHash
    ensures Decrypt(s, m, f).Some? ==> Decrypt(s, m, f) == s.open(f.index, f.cipher)
  {
    if f.index < m.blockCount { m.BlockStartsInside(f.index); }
  }

  // ---- Journals -----------------------------------------------------------------------

  // A whole record passes exactly if it is "CAJ2", version 2, with its tag.
  predicate Passes(s: Suite, r: seq<Byte>)
    requires |r| == 80
  {
    r[0] == 67 && r[1] == 65 && r[2] == 74 && r[3] == 50 && r[4] == 0 && r[5] == 2 && s.tag(r[..48]) == r[48..]
  }

  lemma RecordExactly(s: Suite, r: seq<Byte>)
    requires |r| == 80
    ensures RecordIndex(s, r).Some? <==> Passes(s, r)
    ensures Passes(s, r) ==> RecordIndex(s, r) == Some(Four(r, 8))
  {
    hide BigEndian;
    TwoBytes(r, 4);
    FourBytes(r, 8);
    assert r[..4] == [r[0], r[1], r[2], r[3]];
  }

  function RecordAt(bytes: seq<Byte>, k: nat): (r: seq<Byte>)
    requires 80 * k + 80 <= |bytes|
    ensures |r| == 80
  {
    bytes[80 * k..80 * k + 80]
  }

  lemma NextRecord(bytes: seq<Byte>, k: nat)
    requires 80 * k + 160 <= |bytes|
    ensures RecordAt(bytes[80..], k) == RecordAt(bytes, k + 1)
  {
    var a, b := RecordAt(bytes[80..], k), RecordAt(bytes, k + 1);
    forall i | 0 <= i < 80 ensures a[i] == b[i] { assert a[i] == bytes[80..][80 * k + i] == bytes[80 * k + 80 + i]; }
  }

  ghost predicate AllPass(s: Suite, bytes: seq<Byte>) {
    forall k: nat :: 80 * k + 80 <= |bytes| ==> Passes(s, RecordAt(bytes, k))
  }

  // A journal loads exactly if every whole record passes, and then to the
  // blocks they name.
  lemma {:induction false} LoadExactly(s: Suite, bytes: seq<Byte>)
    ensures Load(s, bytes).Some? <==> AllPass(s, bytes)
    ensures Load(s, bytes).Some? ==>
              forall i :: i in Load(s, bytes).value <==> exists k: nat :: 80 * k + 80 <= |bytes| && Four(RecordAt(bytes, k), 8) == i
    decreases |bytes|
  {
    hide RecordIndex, Passes, Four;
    if |bytes| >= 80 {
      var first, rest := bytes[..80], bytes[80..];
      assert RecordAt(bytes, 0) == first;
      RecordExactly(s, first);
      LoadExactly(s, rest);
      forall k: nat | 80 * k + 80 <= |rest| ensures RecordAt(rest, k) == RecordAt(bytes, k + 1) { NextRecord(bytes, k); }
      Shifted(s, bytes);
      if Load(s, bytes).Some? {
        forall i ensures i in Load(s, bytes).value <==> exists k: nat :: 80 * k + 80 <= |bytes| && Four(RecordAt(bytes, k), 8) == i {
          if i in Load(s, rest).value {
            var k: nat :| 80 * k + 80 <= |rest| && Four(RecordAt(rest, k), 8) == i;
            NextRecord(bytes, k);
          }
          if exists k: nat :: 80 * k + 80 <= |bytes| && Four(RecordAt(bytes, k), 8) == i {
            var k: nat :| 80 * k + 80 <= |bytes| && Four(RecordAt(bytes, k), 8) == i;
            if k > 0 { NextRecord(bytes, k - 1); }
          }
        }
      }
    }
  }

  lemma Shifted(s: Suite, bytes: seq<Byte>)
    requires |bytes| >= 80
    ensures AllPass(s, bytes) <==> Passes(s, RecordAt(bytes, 0)) && AllPass(s, bytes[80..])
  {
    hide Passes;
    var rest := bytes[80..];
    if Passes(s, RecordAt(bytes, 0)) && AllPass(s, rest) {
      forall k: nat | 80 * k + 80 <= |bytes| ensures Passes(s, RecordAt(bytes, k)) {
        if k > 0 { NextRecord(bytes, k - 1); }
      }
    }
    if AllPass(s, bytes) {
      forall k: nat | 80 * k + 80 <= |rest| ensures Passes(s, RecordAt(rest, k)) { NextRecord(bytes, k); }
    }
  }

  // The loader keeps the whole records, and what it drops is not a whole one.
  lemma WholeExactly(bytes: seq<Byte>)
    ensures var whole := WholeRecords(bytes); whole <= bytes && |whole| % 80 == 0 && |bytes| - |whole| < 80
  {
  }
}
