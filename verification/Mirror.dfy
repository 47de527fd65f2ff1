// The updater's directory mirror: copy every entry over, then remove what the
// source does not have. Trees of plain files and directories.
module Mirror {
  import opened Octets

  const MAX_ATTEMPTS := 120

  type Name = string

  datatype Node = File(content: seq<Byte>, mode: nat) | Dir(mode: nat, entries: map<Name, Node>)

  // In what order a directory's names are read.
  type Order = set<Name> -> seq<Name>

  // What the operating system decides: that order, and the mode of a new directory.
  datatype System = System(list: Order, newMode: nat)
  {
    function Listing(d: Node): seq<Name>
      requires d.Dir?
    {
      list(d.entries.Keys)
    }

    function NewDir(): Node { Dir(newMode, map[]) }
  }

  ghost predicate Distinct(names: seq<Name>) { forall i, j :: 0 <= i < j < |names| ==> names[i] != names[j] }

  ghost predicate Lists(list: Order) {
    forall s :: Distinct(list(s)) && forall n :: n in list(s) <==> n in s
  }

  function Temp(name: Name): (t: Name)
    ensures t != name
  {
    assert |"." + name + ".updating"| == |name| + 10;
    "." + name + ".updating"
  }

  // ---- What one successful attempt does ------------------------------------------

  // A file copied into place through its temporary name.
  function Placed(dst: map<Name, Node>, name: Name, file: Node): map<Name, Node> { (dst - {name, Temp(name)})[name := file] }

  // The directory that a copy of a source directory goes into: the one that is
  // there, which keeps its mode, or a new one.
  function Into(dst: map<Name, Node>, name: Name, os: System): (d: Node)
    ensures d.Dir?
  {
    if name in dst && dst[name].Dir? then dst[name] else os.NewDir()
  }

  function Copied(src: Node, names: seq<Name>, dst: map<Name, Node>, os: System): map<Name, Node>
    requires src.Dir?
    decreases src, |names|
  {
    if names == [] then dst
    else
      var before := Copied(src, names[..|names| - 1], dst, os);
      var n := names[|names| - 1];
      if n !in src.entries then before
      else
        var entry := src.entries[n];
        if entry.File? then Placed(before, n, entry)
        else before[n := Merged(entry, Into(before, n, os), os)]
  }

  // A source directory copied into one that is there.
  function Merged(src: Node, into: Node, os: System): (d: Node)
    requires src.Dir? && into.Dir?
    ensures d.Dir?
    decreases src
  {
    Dir(into.mode, Copied(src, os.Listing(src), into.entries, os))
  }

  function Kept(src: Node, dst: map<Name, Node>): map<Name, Node>
    requires src.Dir?
    decreases src
  {
    map n | n in dst && n in src.entries ::
      if src.entries[n].Dir? && dst[n].Dir? then Dir(dst[n].mode, Kept(src.entries[n], dst[n].entries)) else dst[n]
  }

  function Synced(src: Node, dst: map<Name, Node>, os: System): map<Name, Node>
    requires src.Dir?
  {
    Kept(src, Copied(src, os.Listing(src), dst, os))
  }

  // ---- When that makes the destination the source -------------------------------------

  ghost predicate Precedes(names: seq<Name>, a: Name, b: Name) {
    exists i, j :: 0 <= i < j < |names| && names[i] == a && names[j] == b
  }

  // In every directory, a file read after the entry that has its temporary
  // name would take that entry with it.
  ghost predicate Clean(src: Node, list: Order)
    decreases src
  {
    src.Dir? ==>
      && (forall x :: x in src.entries && src.entries[x].File? && Temp(x) in src.entries ==> Precedes(list(src.entries.Keys), x, Temp(x)))
      && forall d :: d in src.entries ==> Clean(src.entries[d], list)
  }

  // Some file of names takes n as its temporary name, at or after place i.
  ghost predicate Swept(src: Node, names: seq<Name>, n: Name, i: nat)
    requires src.Dir?
  {
    exists k :: i <= k < |names| && names[k] in src.entries && src.entries[names[k]].File? && Temp(names[k]) == n
  }

  // The entry n, copied into the directory found when its turn came.
  function Landed(src: Node, n: Name, before: map<Name, Node>, os: System): Node
    requires src.Dir? && n in src.entries
  {
    if src.entries[n].File? then src.entries[n] else Merged(src.entries[n], Into(before, n, os), os)
  }

  // An entry at place i of the listing is there afterwards, as copied, unless
  // a later file swept it away; then nothing is there.
  lemma {:induction false} LandsUnlessSwept(src: Node, names: seq<Name>, dst: map<Name, Node>, os: System, i: nat)
    requires src.Dir? && i < |names| && Distinct(names) && names[i] in src.entries
    ensures var copied := Copied(src, names, dst, os);
            if Swept(src, names, names[i], i) then names[i] !in copied
            else names[i] in copied && copied[names[i]] == Landed(src, names[i], Copied(src, names[..i], dst, os), os)
    decreases |names|
  {
    var last := |names| - 1;
    var front, n := names[..last], names[i];
    if i < last {
      LandsUnlessSwept(src, front, dst, os, i);
      SweptBack(src, names, n, i);
      assert front[..i] == names[..i];
    } else {
      NotSweptAlone(src, names, i);
    }
  }

  // A name the listing does not have is as before, or swept away.
  lemma {:induction false} Untouched(src: Node, names: seq<Name>, dst: map<Name, Node>, os: System, n: Name)
    requires src.Dir? && n !in names
    ensures var copied := Copied(src, names, dst, os);
            if Swept(src, names, n, 0) then n !in copied
            else (n in copied <==> n in dst) && (n in dst ==> copied[n] == dst[n])
    decreases |names|
  {
    if names != [] {
      Untouched(src, names[..|names| - 1], dst, os, n);
      SweptBack(src, names, n, 0);
    }
  }

  lemma NotSweptAlone(src: Node, names: seq<Name>, i: nat)
    requires src.Dir? && i == |names| - 1
    ensures !Swept(src, names, names[i], i)
  {
  }

  lemma SweptBack(src: Node, names: seq<Name>, n: Name, i: nat)
    requires src.Dir? && i < |names|
    ensures var m := names[|names| - 1];
            Swept(src, names, n, i) <==>
              Swept(src, names[..|names| - 1], n, i) || (m in src.entries && src.entries[m].File? && Temp(m) == n)
  {
    var last := |names| - 1;
    var front, m := names[..last], names[last];
    if Swept(src, front, n, i) {
      var k :| i <= k < last && front[k] in src.entries && src.entries[front[k]].File? && Temp(front[k]) == n;
      assert names[k] == front[k];
    }
    if Swept(src, names, n, i) {
      var k :| i <= k < |names| && names[k] in src.entries && src.entries[names[k]].File? && Temp(names[k]) == n;
      assert k < last ==> front[k] == names[k];
    }
  }

  lemma InPlace(names: seq<Name>, i: nat, j: nat)
    requires Distinct(names) && i < |names| && j < |names|
    ensures Precedes(names, names[i], names[j]) <==> i < j
  {
  }

  ghost predicate NoneSwept(src: Node, list: Order)
    requires src.Dir?
  {
    var names := list(src.entries.Keys);
    forall i :: 0 <= i < |names| ==> !Swept(src, names, names[i], i)
  }

  // In terms of the listing, clean here means no entry is swept.
  lemma CleanHere(src: Node, list: Order)
    requires src.Dir? && Lists(list)
    ensures (forall x :: x in src.entries && src.entries[x].File? && Temp(x) in src.entries ==>
                           Precedes(list(src.entries.Keys), x, Temp(x))) <==> NoneSwept(src, list)
  {
    var names := list(src.entries.Keys);
    assert forall n :: n in names <==> n in src.entries;
    if NoneSwept(src, list) {
      forall x | x in src.entries && src.entries[x].File? && Temp(x) in src.entries ensures Precedes(names, x, Temp(x)) {
        var i :| 0 <= i < |names| && names[i] == x;
        var j :| 0 <= j < |names| && names[j] == Temp(x);
        assert !Swept(src, names, names[j], j);
        InPlace(names, i, j);
      }
    } else {
      var i :| 0 <= i < |names| && Swept(src, names, names[i], i);
      var k :| i <= k < |names| && names[k] in src.entries && src.entries[names[k]].File? && Temp(names[k]) == names[i];
      assert names[i] in src.entries;
      InPlace(names, k, i);
    }
  }

  // ---- Modes of directories -------------------------------------------------------------

  ghost predicate TakesName(src: Node, n: Name)
    requires src.Dir?
  {
    exists x :: x in src.entries && src.entries[x].File? && Temp(x) == n
  }

  // The directory that a clean source's directory n is copied into, in terms
  // of the destination before: the one there, unless a file takes it for its
  // temporary name, or a new one.
  ghost function Found(src: Node, dst: map<Name, Node>, n: Name, os: System): (d: Node)
    requires src.Dir?
    ensures d.Dir?
  {
    if TakesName(src, n) then os.NewDir() else Into(dst, n, os)
  }

  // No directory's mode is copied: at every depth, each has it already, or gets
  // it because it is what new directories have.
  ghost predicate ModesMet(src: Node, dst: map<Name, Node>, os: System)
    requires src.Dir?
    decreases src
  {
    forall d :: d in src.entries && src.entries[d].Dir? ==>
      var found := Found(src, dst, d, os);
      found.mode == src.entries[d].mode && ModesMet(src.entries[d], found.entries, os)
  }

  // The source's entries but for the modes of directories.
  ghost predicate Alike(src: Node, out: map<Name, Node>)
    requires src.Dir?
    decreases src
  {
    && out.Keys == src.entries.Keys
    && forall n :: n in src.entries ==>
         var entry := src.entries[n];
         if entry.Dir? then out[n].Dir? && Alike(entry, out[n].entries) else out[n] == entry
  }

  lemma FoundAtTurn(src: Node, dst: map<Name, Node>, os: System, i: nat)
    requires src.Dir? && Lists(os.list) && NoneSwept(src, os.list) && i < |os.Listing(src)|
    ensures var names := os.Listing(src);
            Into(Copied(src, names[..i], dst, os), names[i], os) == Found(src, dst, names[i], os)
  {
    var names := os.Listing(src);
    var front, n := names[..i], names[i];
    Untouched(src, front, dst, os, n);
    assert !Swept(src, names, n, i);
    if TakesName(src, n) {
      var x :| x in src.entries && src.entries[x].File? && Temp(x) == n;
      assert x in names;
      var k :| 0 <= k < |names| && names[k] == x;
      assert front[k] == x;
    }
  }

  // Every entry lands, and what is below a directory is itself synced.
  lemma SyncedUnswept(src: Node, dst: map<Name, Node>, os: System)
    requires src.Dir? && Lists(os.list) && NoneSwept(src, os.list)
    ensures Synced(src, dst, os).Keys == src.entries.Keys
    ensures forall n :: n in src.entries && src.entries[n].File? ==> Synced(src, dst, os)[n] == src.entries[n]
    ensures forall n :: n in src.entries && src.entries[n].Dir? ==>
              var found := Found(src, dst, n, os);
              Synced(src, dst, os)[n] == Dir(found.mode, Synced(src.entries[n], found.entries, os))
  {
    var names := os.Listing(src);
    var copied := Copied(src, names, dst, os);
    forall n | n in src.entries
      ensures n in copied
      ensures copied[n] == if src.entries[n].File? then src.entries[n] else Merged(src.entries[n], Found(src, dst, n, os), os)
    {
      assert n in names;
      var i :| 0 <= i < |names| && names[i] == n;
      LandsUnlessSwept(src, names, dst, os, i);
      FoundAtTurn(src, dst, os, i);
    }
  }

  // An entry swept away is missing at the end.
  lemma SweptIsMissing(src: Node, dst: map<Name, Node>, os: System)
    requires src.Dir? && Lists(os.list) && !NoneSwept(src, os.list)
    ensures exists n :: n in src.entries && n !in Synced(src, dst, os)
  {
    var names := os.Listing(src);
    var i :| 0 <= i < |names| && Swept(src, names, names[i], i);
    assert names[i] in src.entries;
    LandsUnlessSwept(src, names, dst, os, i);
    assert names[i] !in Synced(src, dst, os);
  }

  // From any destination a successful attempt yields the source but for the
  // modes of directories, if and only if the source is clean.
  lemma {:induction false} MirrorsButModes(src: Node, dst: map<Name, Node>, os: System)
    requires src.Dir? && Lists(os.list)
    ensures Alike(src, Synced(src, dst, os)) <==> Clean(src, os.list)
    decreases src
  {
    CleanHere(src, os.list);
    if NoneSwept(src, os.list) {
      SyncedUnswept(src, dst, os);
      forall d | d in src.entries && src.entries[d].Dir?
        ensures Alike(src.entries[d], Synced(src, dst, os)[d].entries) <==> Clean(src.entries[d], os.list)
      {
        MirrorsButModes(src.entries[d], Found(src, dst, d, os).entries, os);
      }
    } else {
      SweptIsMissing(src, dst, os);
    }
  }

  // It yields exactly the source if and only if the source is clean and the
  // modes of its directories were met.
  lemma {:induction false} MirrorsExactly(src: Node, dst: map<Name, Node>, os: System)
    requires src.Dir? && Lists(os.list)
    ensures Synced(src, dst, os) == src.entries <==> Clean(src, os.list) && ModesMet(src, dst, os)
    decreases src
  {
    CleanHere(src, os.list);
    if NoneSwept(src, os.list) {
      SyncedUnswept(src, dst, os);
      forall d | d in src.entries && src.entries[d].Dir?
        ensures var found := Found(src, dst, d, os);
                Synced(src, dst, os)[d] == src.entries[d] <==>
                  found.mode == src.entries[d].mode && Clean(src.entries[d], os.list) && ModesMet(src.entries[d], found.entries, os)
      {
        MirrorsExactly(src.entries[d], Found(src, dst, d, os).entries, os);
      }
      assert (forall d :: d in src.entries ==> Synced(src, dst, os)[d] == src.entries[d]) <==> Synced(src, dst, os) == src.entries;
    } else {
      SweptIsMissing(src, dst, os);
    }
  }

  // ---- The attempts ----------------------------------------------------------------------

  // Whether the operating system refuses the next change.
  method Refused() returns (r: bool)
  {
    r := *;
  }

  // What a refused change leaves of a directory: anything.
  method Partial() returns (dst: map<Name, Node>)
  {
    dst := *;
  }

  method CopyFile(file: Node, name: Name, dst: map<Name, Node>) returns (ok: bool, out: map<Name, Node>)
    requires file.File?
    ensures ok ==> out == Placed(dst, name, file)
  {
    out := dst;
    var temp := Temp(name);
    if name in out && out[name].Dir? {
      ok := Remove();
      if !ok { out := Partial(); return; }
      out := out - {name};
    }
    if temp in out {
      ok := Remove();
      if !ok { out := Partial(); return; }
      out := out - {temp};
    }
    var mode: nat := *;
    out := out[temp := File(file.content, mode)];
    out := out[temp := File(file.content, file.mode)];
    var stuck := Refused();
    if stuck { out := Partial(); return false, out; }
    if name in out {
      ok := Remove();
      if !ok { out := Partial(); return; }
      out := out - {name};
    }
    out := (out - {temp})[name := out[temp]];
    ok := true;
  }

  method Remove() returns (ok: bool)
  {
    var stuck := Refused();
    ok := !stuck;
  }

  // The directory to copy into, which need not be new.
  method PrepareDirectory(name: Name, dst: map<Name, Node>, os: System) returns (ok: bool, out: map<Name, Node>)
    ensures ok ==> out == dst[name := Into(dst, name, os)]
  {
    out := dst;
    if name in out && out[name].File? {
      ok := Remove();
      if !ok { out := Partial(); return; }
      out := out - {name};
    }
    if name !in out {
      var stuck := Refused();
      if stuck { return false, out; }
      out := out[name := os.NewDir()];
    }
    ok := true;
  }

  // One more name of the listing.
  lemma CopiedOneMore(src: Node, names: seq<Name>, i: nat, dst: map<Name, Node>, os: System)
    requires src.Dir? && i < |names| && names[i] in src.entries
    ensures var before, entry := Copied(src, names[..i], dst, os), src.entries[names[i]];
            Copied(src, names[..i + 1], dst, os) ==
              if entry.File? then Placed(before, names[i], entry) else before[names[i] := Merged(entry, Into(before, names[i], os), os)]
  {
    assert names[..i + 1][..i] == names[..i];
  }

  lemma NothingCopied(src: Node, names: seq<Name>, dst: map<Name, Node>, os: System)
    requires src.Dir?
    ensures Copied(src, names[..0], dst, os) == dst
  {
  }

  method CopyEntries(src: Node, dst: map<Name, Node>, os: System) returns (ok: bool, out: map<Name, Node>)
    requires src.Dir? && Lists(os.list)
    ensures ok ==> out == Copied(src, os.Listing(src), dst, os)
    decreases src
  {
    hide Into, Placed, Copied;
    var names := os.Listing(src);
    out := dst;
    NothingCopied(src, names, dst, os);
    var i := 0;
    while i < |names|
      invariant 0 <= i <= |names| && out == Copied(src, names[..i], dst, os)
    {
      var name := names[i];
      assert name in src.entries.Keys;
      var entry := src.entries[name];
      CopiedOneMore(src, names, i, dst, os);
      ghost var before := out;
      if entry.Dir? {
        ok, out := PrepareDirectory(name, out, os);
        if !ok { return; }
        var copied;
        ok, copied := CopyEntries(entry, out[name].entries, os);
        out := out[name := Dir(out[name].mode, copied)];
        assert ok ==> out[name] == Merged(entry, Into(before, name, os), os);
      } else {
        ok, out := CopyFile(entry, name, out);
      }
      if !ok { return; }
      i := i + 1;
    }
    assert names[..i] == names;
    ok := true;
  }

  method RemoveStale(src: Node, dst: map<Name, Node>) returns (ok: bool, out: map<Name, Node>)
    requires src.Dir?
    ensures ok ==> out == Kept(src, dst)
    decreases src
  {
    out := dst;
    var todo := dst.Keys;
    while todo != {}
      invariant todo <= dst.Keys && forall n :: n in todo ==> n in out && out[n] == dst[n]
      invariant forall n :: n in out ==> n in dst
      invariant forall n :: n in dst && n !in todo ==> (n in out <==> n in src.entries)
      invariant forall n :: n in out && n !in todo ==>
                  out[n] == if src.entries[n].Dir? && dst[n].Dir? then Dir(dst[n].mode, Kept(src.entries[n], dst[n].entries)) else dst[n]
      decreases |todo|
    {
      var n :| n in todo;
      todo := todo - {n};
      if n !in src.entries {
        ok := Remove();
        if !ok { out := Partial(); return; }
        out := out - {n};
      } else if src.entries[n].Dir? && dst[n].Dir? {
        var below;
        ok, below := RemoveStale(src.entries[n], dst[n].entries);
        out := out[n := Dir(dst[n].mode, below)];
        if !ok { return; }
      }
    }
    assert out == Kept(src, dst);
    ok := true;
  }

  method SyncDirectories(src: Node, dst: map<Name, Node>, os: System) returns (ok: bool, out: map<Name, Node>)
    requires src.Dir? && Lists(os.list)
    ensures ok ==> out == Synced(src, dst, os)
  {
    ok, out := CopyEntries(src, dst, os);
    if !ok { return; }
    ok, out := RemoveStale(src, out);
  }

  // Tries until one attempt succeeds, each starting from what the last left.
  method Apply(src: Node, dst: map<Name, Node>, os: System) returns (applied: bool, out: map<Name, Node>, attempts: nat, ghost left: map<Name, Node>)
    requires src.Dir? && Lists(os.list)
    ensures attempts <= 120 && (!applied ==> attempts == 120)
    ensures applied ==> (Alike(src, out) <==> Clean(src, os.list))
    ensures applied ==> (out == src.entries <==> Clean(src, os.list) && ModesMet(src, left, os))
    ensures attempts <= 1 ==> left == dst
  {
    applied, out, attempts, left := false, dst, 0, dst;
    while attempts < MAX_ATTEMPTS && !applied
      invariant attempts <= MAX_ATTEMPTS && (attempts == 0 ==> out == dst) && (attempts <= 1 ==> left == dst)
      invariant applied ==> out == Synced(src, left, os)
      decreases MAX_ATTEMPTS - attempts, if applied then 0 else 1
    {
      left := out;
      applied, out := SyncDirectories(src, out, os);
      attempts := attempts + 1;
    }
    if applied {
      MirrorsButModes(src, left, os);
      MirrorsExactly(src, left, os);
    }
  }

  // ---- In the order of names ---------------------------------------------------------

  // Names compare character by character; a prefix comes first.
  predicate Before(a: Name, b: Name) {
    b != [] && (a == [] || a[0] < b[0] || (a[0] == b[0] && Before(a[1..], b[1..])))
  }

  lemma {:induction false} BeforeOrders(a: Name, b: Name, c: Name)
    ensures !Before(a, a) && (a == b || Before(a, b) || Before(b, a))
    ensures Before(a, b) && Before(b, c) ==> Before(a, c)
  {
    if a != [] && b != [] && c != [] {
      BeforeOrders(a[1..], b[1..], c[1..]);
      assert a == [a[0]] + a[1..] && b == [b[0]] + b[1..];
    } else if a != [] && b != [] {
      BeforeOrders(a[1..], b[1..], []);
      assert a == [a[0]] + a[1..] && b == [b[0]] + b[1..];
    } else if a != [] {
      BeforeOrders(a[1..], [], []);
    }
  }

  lemma FirstExists(s: set<Name>)
    requires s != {}
    ensures exists n :: n in s && forall m :: m in s && m != n ==> Before(n, m)
  {
    var n :| n in s;
    var rest := s;
    while rest != {}
      invariant rest <= s && n in s && forall m :: m in s && m !in rest && m != n ==> Before(n, m)
      decreases |rest|
    {
      var x :| x in rest;
      rest := rest - {x};
      BeforeOrders(x, n, x);
      if x != n && Before(x, n) {
        forall m | m in s && m !in rest && m != x ensures Before(x, m) { BeforeOrders(x, n, m); }
        n := x;
      }
    }
  }

  ghost function First(s: set<Name>): (n: Name)
    requires s != {}
    ensures n in s && forall m :: m in s && m != n ==> Before(n, m)
  {
    FirstExists(s);
    var n :| n in s && forall m :: m in s && m != n ==> Before(n, m);
    n
  }

  // The listing of read_directory: sorted by name.
  ghost function ByName(s: set<Name>): seq<Name>
    decreases |s|
  {
    if s == {} then [] else [First(s)] + ByName(s - {First(s)})
  }

  ghost function NameOrder(): Order { s => ByName(s) }

  ghost function ReadingByName(newMode: nat): System { System(NameOrder(), newMode) }

  lemma {:induction false} ByNameIn(s: set<Name>)
    ensures forall n :: n in ByName(s) <==> n in s
    decreases |s|
  {
    hide Before;
    if s != {} { ByNameIn(s - {First(s)}); }
  }

  lemma {:induction false} ByNameSorted(s: set<Name>, i: nat, j: nat)
    requires i < j < |ByName(s)|
    ensures Before(ByName(s)[i], ByName(s)[j])
    decreases |s|
  {
    hide Before;
    var rest := ByName(s - {First(s)});
    ByNameIn(s - {First(s)});
    if i == 0 {
      assert ByName(s)[j] == rest[j - 1] && rest[j - 1] in rest;
    } else {
      ByNameSorted(s - {First(s)}, i - 1, j - 1);
    }
  }

  lemma ByNameLists()
    ensures Lists(NameOrder())
  {
    hide Before, ByName;
    var list := NameOrder();
    forall s ensures Distinct(list(s)) && forall n :: n in list(s) <==> n in s {
      ByNameIn(s);
      forall i, j | 0 <= i < j < |list(s)| ensures list(s)[i] != list(s)[j] {
        ByNameSorted(s, i, j);
        BeforeOrders(list(s)[i], list(s)[i], list(s)[i]);
      }
    }
  }

  lemma PrecedesByName(s: set<Name>, a: Name, b: Name)
    requires a in s && b in s && a != b
    ensures Precedes(ByName(s), a, b) <==> Before(a, b)
  {
    hide Before, ByName;
    ByNameIn(s);
    BeforeOrders(a, b, a);
    var i: nat :| i < |ByName(s)| && ByName(s)[i] == a;
    var j: nat :| j < |ByName(s)| && ByName(s)[j] == b;
    ByNameLists();
    assert Distinct(NameOrder()(s));
    InPlace(ByName(s), i, j);
    if i < j { ByNameSorted(s, i, j); } else { ByNameSorted(s, j, i); }
    BeforeOrders(b, a, b);
    BeforeOrders(a, a, a);
  }

  // No file sorts after an entry beside it that has its temporary name.
  ghost predicate CleanByName(src: Node)
    decreases src
  {
    src.Dir? ==>
      && (forall x :: x in src.entries && src.entries[x].File? && Temp(x) in src.entries ==> Before(x, Temp(x)))
      && forall d :: d in src.entries ==> CleanByName(src.entries[d])
  }

  lemma {:induction false} CleanIsByName(src: Node)
    ensures Clean(src, NameOrder()) <==> CleanByName(src)
    decreases src
  {
    if src.Dir? {
      forall d | d in src.entries ensures Clean(src.entries[d], NameOrder()) <==> CleanByName(src.entries[d]) {
        CleanIsByName(src.entries[d]);
      }
      forall x | x in src.entries && Temp(x) in src.entries
        ensures Precedes(ByName(src.entries.Keys), x, Temp(x)) <==> Before(x, Temp(x))
      {
        PrecedesByName(src.entries.Keys, x, Temp(x));
      }
    }
  }

  // What the updater does, listing by name: but for modes of directories it
  // reproduces exactly the sources in which no file sorts after an entry with
  // its temporary name; those modes besides exactly where they were met.
  lemma MirrorsByName(src: Node, dst: map<Name, Node>, newMode: nat)
    requires src.Dir?
    ensures var os := ReadingByName(newMode);
            && (Alike(src, Synced(src, dst, os)) <==> CleanByName(src))
            && (Synced(src, dst, os) == src.entries <==> CleanByName(src) && ModesMet(src, dst, os))
  {
    ByNameLists();
    MirrorsButModes(src, dst, ReadingByName(newMode));
    MirrorsExactly(src, dst, ReadingByName(newMode));
    CleanIsByName(src);
  }

  // "a" sorts after ".a.updating", so the mirror loses that entry, whatever
  // the destination was.
  lemma SweptExample(dst: map<Name, Node>, mode: nat, newMode: nat)
    ensures var src := Dir(mode, map["a" := File([1], 0), ".a.updating" := File([2], 0)]);
            !CleanByName(src) && !Alike(src, Synced(src, dst, ReadingByName(newMode)))
  {
    var src := Dir(mode, map["a" := File([1], 0), ".a.updating" := File([2], 0)]);
    assert Temp("a") == ".a.updating";
    assert !Before("a", ".a.updating");
    assert src.entries["a"].File?;
    MirrorsByName(src, dst, newMode);
  }

  const PRIVATE := 0x1C0  // rwx------

  // A private directory becomes whatever new directories are, or stays what
  // it was.
  lemma ModeExample(mode: nat, was: nat, newMode: nat)
    ensures var src, os := Dir(mode, map["d" := Dir(PRIVATE, map[])]), ReadingByName(newMode);
            && CleanByName(src)
            && (Synced(src, map[], os) == src.entries <==> newMode == PRIVATE)
            && (Synced(src, map["d" := Dir(was, map[])], os) == src.entries <==> was == PRIVATE)
  {
    var src, os := Dir(mode, map["d" := Dir(PRIVATE, map[])]), ReadingByName(newMode);
    var there: map<Name, Node> := map["d" := Dir(was, map[])];
    assert src.entries["d"] == Dir(PRIVATE, map[]);
    assert ModesMet(src.entries["d"], map[], os);
    MirrorsByName(src, map[], newMode);
    MirrorsByName(src, there, newMode);
    assert Found(src, map[], "d", os) == os.NewDir();
    assert Found(src, there, "d", os) == Dir(was, map[]);
  }
}
