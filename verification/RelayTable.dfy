// The relay's queue_entries table as a value: rows in id order, the SQL row
// selections the relay uses, and how deletions act on counts and byte sums.
module RelayTable {
  import opened Options

  const PAIRING := "pairing_announcement"
  const MAX_PAIRING_PER_MAILBOX := 8

  // A stored envelope; body stands for the rest of the JSON text.
  datatype Envelope = Envelope(kind: Option<string>, sender: Option<string>,
                               messageId: Option<string>, size: nat, body: string)
  {
    predicate IsPairing() { kind == Some(PAIRING) }

    // The unique-index key: a message id of 1..256 characters, else NULL.
    function DedupKey(): Option<string> {
      if messageId.Some? && 0 < |messageId.value| <= 256 then messageId else None
    }
  }

  datatype Lease = Lease(id: string, until: nat)

  datatype Row = Row(id: nat, mailbox: string, at: nat, envelope: Envelope,
                     source: Option<string>, lease: Option<Lease>)

  // The WHERE clauses of the relay's statements.
  type Selector = Row -> bool

  function Everything(): Selector { (r: Row) => true }
  function InMailbox(m: string): Selector { (r: Row) => r.mailbox == m }
  function Pairing(m: string): Selector { (r: Row) => r.mailbox == m && r.envelope.IsPairing() }
  function PairingFrom(m: string, sender: string): Selector {
    (r: Row) => r.mailbox == m && r.envelope.IsPairing() && r.envelope.sender == Some(sender)
  }
  function Keyed(m: string, key: string): Selector {
    (r: Row) => r.mailbox == m && r.envelope.DedupKey() == Some(key)
  }
  function FromSource(source: string): Selector { (r: Row) => r.source == Some(source) }
  function Expired(cutoff: nat): Selector { (r: Row) => r.at < cutoff }
  function HeldUnder(m: string, leaseId: string): Selector {
    (r: Row) => r.mailbox == m && r.lease.Some? && r.lease.value.id == leaseId
  }
  function AnyOf(ids: set<nat>): Selector { (r: Row) => r.id in ids }
  function Leased(): Selector { (r: Row) => r.lease.Some? }
  function LeasedIn(m: string): Selector { (r: Row) => r.mailbox == m && r.lease.Some? }
  function UnleasedIn(m: string): Selector { (r: Row) => r.mailbox == m && r.lease.None? }
  // lease_id IS NULL AND kind != 'pairing_announcement': in SQL a row without
  // a kind does not pass this test.
  function UnleasedNamed(m: string): Selector {
    (r: Row) => r.mailbox == m && r.lease.None? && r.envelope.kind.Some? && !r.envelope.IsPairing()
  }
  // The unleased rows that test misses.
  function UnleasedOther(m: string): Selector {
    (r: Row) => r.mailbox == m && r.lease.None? && (r.envelope.kind.None? || r.envelope.IsPairing())
  }
  // source IS ?1 does match NULL.
  function UnleasedOf(holder: Option<string>): Selector { (r: Row) => r.lease.None? && r.source == holder }

  ghost predicate Sorted(rows: seq<Row>) {
    forall i, j :: 0 <= i < j < |rows| ==> rows[i].id < rows[j].id
  }

  function Select(rows: seq<Row>, s: Selector): seq<Row> {
    if rows == [] then []
    else Select(rows[..|rows| - 1], s) + if s(rows[|rows| - 1]) then [rows[|rows| - 1]] else []
  }

  function Without(rows: seq<Row>, s: Selector): seq<Row> {
    if rows == [] then []
    else Without(rows[..|rows| - 1], s) + if s(rows[|rows| - 1]) then [] else [rows[|rows| - 1]]
  }

  function Count(rows: seq<Row>, s: Selector): nat {
    if rows == [] then 0
    else Count(rows[..|rows| - 1], s) + if s(rows[|rows| - 1]) then 1 else 0
  }

  function Bytes(rows: seq<Row>, s: Selector): nat {
    if rows == [] then 0
    else Bytes(rows[..|rows| - 1], s) + if s(rows[|rows| - 1]) then rows[|rows| - 1].envelope.size else 0
  }

  function Ids(rows: seq<Row>): (ids: set<nat>) {
    set r | r in rows :: r.id
  }

  // ---- Order and extensionality -------------------------------------------

  lemma {:induction false} InSelect(rows: seq<Row>, s: Selector)
    ensures forall r :: r in Select(rows, s) <==> r in rows && s(r)
  {
    if rows != [] {
      InSelect(rows[..|rows| - 1], s);
      assert rows == rows[..|rows| - 1] + [rows[|rows| - 1]];
    }
  }

  lemma {:induction false} InWithout(rows: seq<Row>, s: Selector)
    ensures forall r :: r in Without(rows, s) <==> r in rows && !s(r)
  {
    if rows != [] {
      InWithout(rows[..|rows| - 1], s);
      assert rows == rows[..|rows| - 1] + [rows[|rows| - 1]];
    }
  }

  lemma SplitLast(rows: seq<Row>)
    requires Sorted(rows) && rows != []
    ensures var n := |rows| - 1;
            && Sorted(rows[..n])
            && (forall r :: r in rows <==> r in rows[..n] || r == rows[n])
            && (forall r :: r in rows[..n] ==> r.id < rows[n].id)
  {
    var n := |rows| - 1;
    assert rows == rows[..n] + [rows[n]];
  }

  lemma AppendSorted(rows: seq<Row>, r: Row)
    requires Sorted(rows) && forall x :: x in rows ==> x.id < r.id
    ensures Sorted(rows + [r])
  {
    forall i, j | 0 <= i < j < |rows| + 1 ensures (rows + [r])[i].id < (rows + [r])[j].id {
      assert (rows + [r])[i] == rows[i] && rows[i] in rows;
    }
  }

  lemma {:induction false} SelectSorted(rows: seq<Row>, s: Selector)
    requires Sorted(rows)
    ensures Sorted(Select(rows, s))
  {
    if rows != [] {
      var n := |rows| - 1;
      SplitLast(rows);
      SelectSorted(rows[..n], s);
      InSelect(rows[..n], s);
      AppendSorted(Select(rows[..n], s), rows[n]);
    }
  }

  lemma {:induction false} WithoutSorted(rows: seq<Row>, s: Selector)
    requires Sorted(rows)
    ensures Sorted(Without(rows, s))
  {
    if rows != [] {
      var n := |rows| - 1;
      SplitLast(rows);
      WithoutSorted(rows[..n], s);
      InWithout(rows[..n], s);
      AppendSorted(Without(rows[..n], s), rows[n]);
    }
  }

  // A table is determined by its rows.
  lemma {:induction false} SameRows(a: seq<Row>, b: seq<Row>)
    requires Sorted(a) && Sorted(b)
    requires forall r :: r in a <==> r in b
    ensures a == b
  {
    assert a != [] ==> a[|a| - 1] in b;
    assert b != [] ==> b[|b| - 1] in a;
    if a != [] {
      SplitLast(a);
      SplitLast(b);
      SameRows(a[..|a| - 1], b[..|b| - 1]);
      assert a == a[..|a| - 1] + [a[|a| - 1]];
      assert b == b[..|b| - 1] + [b[|b| - 1]];
    }
  }

  lemma SameId(rows: seq<Row>, a: Row, b: Row)
    requires Sorted(rows) && a in rows && b in rows && a.id == b.id
    ensures a == b
  {
    var i :| 0 <= i < |rows| && rows[i] == a;
    var j :| 0 <= j < |rows| && rows[j] == b;
  }

  // ---- Deletions only shrink ----------------------------------------------

  ghost predicate SubTable(kept: seq<Row>, rows: seq<Row>) {
    Sorted(kept) && Sorted(rows) && forall r :: r in kept ==> r in rows
  }

  lemma WithoutIsSub(rows: seq<Row>, s: Selector)
    requires Sorted(rows)
    ensures SubTable(Without(rows, s), rows) && SubTable(Select(rows, s), rows)
  {
    SelectSorted(rows, s);
    WithoutSorted(rows, s);
    InSelect(rows, s);
    InWithout(rows, s);
  }

  // Whatever is deleted, no selection grows; a selection none of whose rows
  // is deleted stays as it was.
  lemma {:induction false} SubTableMeasures(kept: seq<Row>, rows: seq<Row>, s: Selector)
    requires SubTable(kept, rows)
    ensures Count(kept, s) <= Count(rows, s) && Bytes(kept, s) <= Bytes(rows, s)
    ensures (forall r :: r in rows && s(r) ==> r in kept) ==>
              Count(kept, s) == Count(rows, s) && Bytes(kept, s) == Bytes(rows, s)
  {
    assert kept != [] ==> kept[|kept| - 1] in rows;
    if rows != [] {
      var n := |rows| - 1;
      SplitLast(rows);
      if kept != [] { SplitLast(kept); }
      if kept != [] && kept[|kept| - 1] == rows[n] {
        SubTableMeasures(kept[..|kept| - 1], rows[..n], s);
      } else {
        assert rows[n] !in kept;
        SubTableMeasures(kept, rows[..n], s);
      }
    }
  }

  lemma {:induction false} CountIsSelect(rows: seq<Row>, s: Selector)
    ensures Count(rows, s) == |Select(rows, s)|
  {
    if rows != [] {
      CountIsSelect(rows[..|rows| - 1], s);
    }
  }

  lemma FilterAppend(rows: seq<Row>, r: Row, d: Selector)
    ensures Select(rows + [r], d) == if d(r) then Select(rows, d) + [r] else Select(rows, d)
    ensures Without(rows + [r], d) == if d(r) then Without(rows, d) else Without(rows, d) + [r]
  {
    assert (rows + [r])[..|rows|] == rows;
  }

  // A deletion splits every count and byte sum in two.
  lemma {:induction false} SplitMeasures(rows: seq<Row>, d: Selector, s: Selector)
    ensures Count(rows, s) == Count(Without(rows, d), s) + Count(Select(rows, d), s)
    ensures Bytes(rows, s) == Bytes(Without(rows, d), s) + Bytes(Select(rows, d), s)
  {
    if rows != [] {
      var head, last := rows[..|rows| - 1], rows[|rows| - 1];
      SplitMeasures(head, d, s);
      assert rows == head + [last];
      FilterAppend(head, last, d);
      AppendOne(head, last, s);
      if d(last) {
        AppendOne(Select(head, d), last, s);
      } else {
        AppendOne(Without(head, d), last, s);
      }
    }
  }

  lemma SelectById(rows: seq<Row>, v: Row)
    requires Sorted(rows) && v in rows
    ensures Select(rows, AnyOf({v.id})) == [v]
  {
    SelectSorted(rows, AnyOf({v.id}));
    InSelect(rows, AnyOf({v.id}));
    forall r ensures r in Select(rows, AnyOf({v.id})) <==> r in [v] {
      if r in rows && r.id == v.id { SameId(rows, r, v); }
    }
    SameRows(Select(rows, AnyOf({v.id})), [v]);
  }

  // Deleting one row changes the measures by that row.
  lemma RemoveOne(rows: seq<Row>, v: Row, s: Selector)
    requires Sorted(rows) && v in rows
    ensures Count(Without(rows, AnyOf({v.id})), s) == Count(rows, s) - if s(v) then 1 else 0
    ensures Bytes(Without(rows, AnyOf({v.id})), s) == Bytes(rows, s) - if s(v) then v.envelope.size else 0
  {
    SplitMeasures(rows, AnyOf({v.id}), s);
    SelectById(rows, v);
    AppendOne([], v, s);
    assert [] + [v] == [v];
  }

  lemma AppendOne(rows: seq<Row>, r: Row, s: Selector)
    ensures Count(rows + [r], s) == Count(rows, s) + if s(r) then 1 else 0
    ensures Bytes(rows + [r], s) == Bytes(rows, s) + if s(r) then r.envelope.size else 0
  {
    assert (rows + [r])[..|rows|] == rows;
  }

  lemma InAfterRemove(rows: seq<Row>, v: Row)
    requires Sorted(rows) && v in rows
    ensures forall r :: r in Without(rows, AnyOf({v.id})) <==> r in rows && r != v
  {
    InWithout(rows, AnyOf({v.id}));
    forall r | r in rows ensures r.id == v.id <==> r == v {
      if r.id == v.id { SameId(rows, r, v); }
    }
  }

  lemma SplitFirst(rows: seq<Row>)
    requires Sorted(rows) && rows != []
    ensures Sorted(rows[1..])
    ensures forall r :: r in rows[1..] <==> r in rows && r != rows[0]
    ensures forall r :: r in rows[1..] ==> rows[0].id < r.id
  {
    assert rows == [rows[0]] + rows[1..];
  }

  // Deleting the oldest selected row leaves the later ones, in order.
  lemma SelectAfterFirst(rows: seq<Row>, s: Selector)
    requires Sorted(rows) && Select(rows, s) != []
    ensures var v := Select(rows, s)[0];
            v in rows && s(v) && Select(Without(rows, AnyOf({v.id})), s) == Select(rows, s)[1..]
  {
    var v := Select(rows, s)[0];
    assert v in Select(rows, s);
    InSelect(rows, s);
    InSelect(Without(rows, AnyOf({v.id})), s);
    SelectSorted(rows, s);
    SplitFirst(Select(rows, s));
    InAfterRemove(rows, v);
    WithoutSorted(rows, AnyOf({v.id}));
    SelectSorted(Without(rows, AnyOf({v.id})), s);
    SameRows(Select(Without(rows, AnyOf({v.id})), s), Select(rows, s)[1..]);
  }

  // ... and a selection that misses the deleted row stays as it was.
  lemma SelectAfterOther(rows: seq<Row>, v: Row, s: Selector)
    requires Sorted(rows) && v in rows && !s(v)
    ensures Select(Without(rows, AnyOf({v.id})), s) == Select(rows, s)
  {
    var rest := Without(rows, AnyOf({v.id}));
    InAfterRemove(rows, v);
    InSelect(rows, s);
    InSelect(rest, s);
    SelectSorted(rows, s);
    WithoutSorted(rows, AnyOf({v.id}));
    SelectSorted(rest, s);
    SameRows(Select(rest, s), Select(rows, s));
  }

  // Deleting in two goes is deleting at once.
  lemma WithoutTwice(rows: seq<Row>, a: set<nat>, b: set<nat>)
    requires Sorted(rows)
    ensures Without(Without(rows, AnyOf(a)), AnyOf(b)) == Without(rows, AnyOf(a + b))
  {
    WithoutSorted(rows, AnyOf(a));
    WithoutSorted(Without(rows, AnyOf(a)), AnyOf(b));
    WithoutSorted(rows, AnyOf(a + b));
    InWithout(rows, AnyOf(a));
    InWithout(Without(rows, AnyOf(a)), AnyOf(b));
    InWithout(rows, AnyOf(a + b));
    SameRows(Without(Without(rows, AnyOf(a)), AnyOf(b)), Without(rows, AnyOf(a + b)));
  }

  lemma WithoutNone(rows: seq<Row>, s: Selector)
    requires Sorted(rows) && forall r :: r in rows ==> !s(r)
    ensures Without(rows, s) == rows
  {
    WithoutSorted(rows, s);
    InWithout(rows, s);
    SameRows(Without(rows, s), rows);
  }

  lemma IdsOfPrefix(v: seq<Row>, k: nat)
    requires k < |v|
    ensures Ids(v[..k + 1]) == Ids(v[..k]) + {v[k].id}
  {
    assert v[..k + 1] == v[..k] + [v[k]];
  }
}
