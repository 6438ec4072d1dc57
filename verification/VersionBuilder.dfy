/** VersionSet::Builder: the files of a level after an edit (db/version_set.cc). */
module VersionBuilder {
  import opened Common
  import opened InternalKeys
  import opened Lsm
  import opened VersionSet

  /** BySmallestKey: smallest key, ties by file number. */
  predicate Before(f: File, g: File) {
    Compare(f.smallest, g.smallest) < 0 || (Compare(f.smallest, g.smallest) == 0 && f.number < g.number)
  }

  /** Where a file stands in that order; two files with one place are tied. */
  datatype Place = Place(smallest: InternalKey, number: nat)

  function PlaceOf(f: File): Place {
    Place(f.smallest, f.number)
  }

  /** As a std::set keeps its elements: in order, without ties. */
  ghost predicate Ordered(files: seq<File>) {
    forall i, j :: 0 <= i < j < |files| ==> Before(files[i], files[j])
  }

  /** As a version keeps a level: in order, ties not ruled out. */
  ghost predicate InOrder(files: seq<File>) {
    forall i, j :: 0 <= i < j < |files| ==> !Before(files[j], files[i])
  }

  lemma BeforeIsTotal(f: File, g: File)
    ensures Before(f, g) ==> !Before(g, f)
    ensures !Before(f, g) && !Before(g, f) <==> PlaceOf(f) == PlaceOf(g)
  {
    CompareIsLess(f.smallest, g.smallest);
    CompareIsLess(g.smallest, f.smallest);
  }

  lemma NotBeforeTransitive(f: File, g: File, h: File)
    requires !Before(g, f) && !Before(h, g)
    ensures !Before(h, f)
    ensures Before(f, g) || Before(g, h) ==> Before(f, h)
  {
    CompareIsLess(f.smallest, g.smallest);
    CompareIsLess(g.smallest, h.smallest);
    CompareIsLess(f.smallest, h.smallest);
    CompareIsLess(g.smallest, f.smallest);
    CompareIsLess(h.smallest, g.smallest);
    CompareIsLess(h.smallest, f.smallest);
  }

  // ----- saving one level -----

  /** The old files and the added ones in order, an old one before an added one it ties with. */
  function Merge(base: seq<File>, added: seq<File>): seq<File>
    decreases |base| + |added|
  {
    if |added| == 0 then base
    else if |base| > 0 && !Before(added[0], base[0]) then [base[0]] + Merge(base[1..], added)
    else [added[0]] + Merge(base, added[1..])
  }

  function Drop(files: seq<File>, deleted: set<nat>): seq<File> {
    if |files| == 0 then []
    else (if files[0].number in deleted then [] else [files[0]]) + Drop(files[1..], deleted)
  }

  method MaybeAddFile(v: seq<File>, deleted: set<nat>, f: File) returns (v': seq<File>)
    ensures v' == v + Drop([f], deleted)
  {
    v' := if f.number in deleted then v else v + [f];
  }

  lemma {:induction false} DropJoin(a: seq<File>, b: seq<File>, deleted: set<nat>)
    ensures Drop(a + b, deleted) == Drop(a, deleted) + Drop(b, deleted)
  {
    if a == [] {
      assert a + b == b;
    } else {
      assert (a + b)[1..] == a[1..] + b;
      DropJoin(a[1..], b, deleted);
    }
  }

  /** SaveTo for one level: the two lists merged, less what is deleted. */
  method SaveTo(base: seq<File>, added: seq<File>, deleted: set<nat>) returns (v: seq<File>)
    ensures v == Drop(Merge(base, added), deleted)
  {
    hide Merge, Drop, Before;
    v := [];
    var i, j := 0, 0;
    assert base[0..] == base && added[0..] == added;
    while j < |added|
      invariant i <= |base| && j <= |added|
      invariant v + Drop(Merge(base[i..], added[j..]), deleted) == Drop(Merge(base, added), deleted)
    {
      while i < |base| && !Before(added[j], base[i])
        invariant i <= |base|
        invariant v + Drop(Merge(base[i..], added[j..]), deleted) == Drop(Merge(base, added), deleted)
      {
        TakeBase(v, base, i, added, j, deleted);
        v := MaybeAddFile(v, deleted, base[i]);
        i := i + 1;
      }
      TakeAdded(v, base, i, added, j, deleted);
      v := MaybeAddFile(v, deleted, added[j]);
      j := j + 1;
    }
    while i < |base|
      invariant i <= |base| && j == |added|
      invariant v + Drop(Merge(base[i..], added[j..]), deleted) == Drop(Merge(base, added), deleted)
    {
      TakeBase(v, base, i, added, j, deleted);
      v := MaybeAddFile(v, deleted, base[i]);
      i := i + 1;
    }
    assert base[i..] == [] && added[j..] == [];
    NothingLeft(deleted);
  }

  lemma NothingLeft(deleted: set<nat>)
    ensures Drop(Merge([], []), deleted) == []
  {}

  lemma TakeBase(v: seq<File>, base: seq<File>, i: nat, added: seq<File>, j: nat, deleted: set<nat>)
    requires i < |base| && j <= |added| && (j < |added| ==> !Before(added[j], base[i]))
    ensures v + Drop(Merge(base[i..], added[j..]), deleted)
         == (v + Drop([base[i]], deleted)) + Drop(Merge(base[i + 1..], added[j..]), deleted)
  {
    hide Before;
    var rest := Merge(base[i + 1..], added[j..]);
    assert base[i..][1..] == base[i + 1..];
    assert Merge(base[i..], added[j..]) == [base[i]] + rest by {
      assert j == |added| ==> Merge(base[i + 1..], added[j..]) == base[i + 1..];
    }
    DropJoin([base[i]], rest, deleted);
  }

  lemma TakeAdded(v: seq<File>, base: seq<File>, i: nat, added: seq<File>, j: nat, deleted: set<nat>)
    requires i <= |base| && j < |added| && (i < |base| ==> Before(added[j], base[i]))
    ensures v + Drop(Merge(base[i..], added[j..]), deleted)
         == (v + Drop([added[j]], deleted)) + Drop(Merge(base[i..], added[j + 1..]), deleted)
  {
    hide Before;
    var rest := Merge(base[i..], added[j + 1..]);
    assert added[j..][1..] == added[j + 1..];
    assert Merge(base[i..], added[j..]) == [added[j]] + rest;
    DropJoin([added[j]], rest, deleted);
  }

  // ----- what a saved level holds -----

  /** The files of a list at one place, in the list's order. */
  function Tied(files: seq<File>, p: Place): seq<File> {
    if |files| == 0 then []
    else (if PlaceOf(files[0]) == p then [files[0]] else []) + Tied(files[1..], p)
  }

  lemma {:induction false} TiedMembers(files: seq<File>, p: Place)
    ensures forall f :: f in Tied(files, p) <==> f in files && PlaceOf(f) == p
  {
    if files != [] {
      TiedMembers(files[1..], p);
      assert files == [files[0]] + files[1..];
    }
  }

  lemma {:induction false} TiedMerge(base: seq<File>, added: seq<File>, p: Place)
    requires InOrder(base)
    ensures Tied(Merge(base, added), p) == Tied(base, p) + Tied(added, p)
    decreases |base| + |added|
  {
    hide Before, PlaceOf, Merge, Tied;
    MergeHead(base, added);
    TiedHead(base, p);
    TiedHead(added, p);
    if |added| > 0 {
      if |base| > 0 && !Before(added[0], base[0]) {
        TiedMerge(base[1..], added, p);
        TiedFirst(base[0], Merge(base[1..], added), p);
      } else {
        TiedMerge(base, added[1..], p);
        TiedFirst(added[0], Merge(base, added[1..]), p);
        NoneTied(base, added[0]);
      }
    }
  }

  lemma MergeHead(base: seq<File>, added: seq<File>)
    ensures |added| == 0 ==> Merge(base, added) == base
    ensures |added| > 0 && |base| > 0 && !Before(added[0], base[0])
      ==> Merge(base, added) == [base[0]] + Merge(base[1..], added)
    ensures |added| > 0 && (|base| == 0 || Before(added[0], base[0]))
      ==> Merge(base, added) == [added[0]] + Merge(base, added[1..])
  {}

  lemma TiedFirst(f: File, rest: seq<File>, p: Place)
    ensures Tied([f] + rest, p) == (if PlaceOf(f) == p then [f] else []) + Tied(rest, p)
  {
    assert ([f] + rest)[1..] == rest;
  }

  lemma TiedHead(files: seq<File>, p: Place)
    ensures |files| == 0 ==> Tied(files, p) == []
    ensures |files| > 0 ==> Tied(files, p) == (if PlaceOf(files[0]) == p then [files[0]] else []) + Tied(files[1..], p)
  {}

  lemma NoneTied(base: seq<File>, f: File)
    requires InOrder(base) && (|base| > 0 ==> Before(f, base[0]))
    ensures Tied(base, PlaceOf(f)) == []
  {
    hide Before;
    TiedMembers(base, PlaceOf(f));
    forall i | 0 <= i < |base| ensures PlaceOf(base[i]) != PlaceOf(f) {
      if i > 0 {
        NotBeforeTransitive(f, base[0], base[i]) by {
          BeforeIsTotal(f, base[0]);
        }
      }
      BeforeIsTotal(f, base[i]);
    }
    if Tied(base, PlaceOf(f)) != [] {
      assert Tied(base, PlaceOf(f))[0] in Tied(base, PlaceOf(f));
      assert false;
    }
  }

  lemma {:induction false} MergeMembers(base: seq<File>, added: seq<File>)
    ensures forall f :: f in Merge(base, added) <==> f in base || f in added
    decreases |base| + |added|
  {
    hide Before;
    if |added| == 0 {
    } else if |base| > 0 && !Before(added[0], base[0]) {
      MergeMembers(base[1..], added);
      assert base == [base[0]] + base[1..];
    } else {
      MergeMembers(base, added[1..]);
      assert added == [added[0]] + added[1..];
    }
  }

  lemma {:induction false} DropMembers(files: seq<File>, deleted: set<nat>)
    ensures forall f :: f in Drop(files, deleted) <==> f in files && f.number !in deleted
  {
    if files != [] {
      DropMembers(files[1..], deleted);
      assert files == [files[0]] + files[1..];
    }
  }

  lemma {:induction false} TiedDrop(files: seq<File>, deleted: set<nat>, p: Place)
    ensures Tied(Drop(files, deleted), p) == if p.number in deleted then [] else Tied(files, p)
  {
    if files != [] {
      TiedDrop(files[1..], deleted, p);
      TiedHead(files, p);
      TiedFirst(files[0], Drop(files[1..], deleted), p);
      assert [] + Drop(files[1..], deleted) == Drop(files[1..], deleted);
    }
  }

  lemma FirstInOrder(f: File, rest: seq<File>)
    requires InOrder(rest) && forall g :: g in rest ==> !Before(g, f)
    ensures InOrder([f] + rest)
  {
    hide Before;
    var files := [f] + rest;
    forall i, j | 0 <= i < j < |files| ensures !Before(files[j], files[i]) {
      assert files[j] == rest[j - 1] && rest[j - 1] in rest;
    }
  }

  lemma {:induction false} MergeInOrder(base: seq<File>, added: seq<File>)
    requires InOrder(base) && InOrder(added)
    ensures InOrder(Merge(base, added))
    decreases |base| + |added|
  {
    hide Before, PlaceOf;
    if |added| == 0 {
    } else if |base| > 0 && !Before(added[0], base[0]) {
      MergeInOrder(base[1..], added);
      MergeMembers(base[1..], added);
      forall g | g in Merge(base[1..], added) ensures !Before(g, base[0]) {
        if g in added {
          HeadFirst(added, g);
          NotBeforeTransitive(base[0], added[0], g);
        }
      }
      FirstInOrder(base[0], Merge(base[1..], added));
    } else {
      MergeInOrder(base, added[1..]);
      MergeMembers(base, added[1..]);
      forall g | g in Merge(base, added[1..]) ensures !Before(g, added[0]) {
        if g in base {
          HeadFirst(base, g);
          BeforeIsTotal(added[0], base[0]);
          NotBeforeTransitive(added[0], base[0], g);
        }
      }
      FirstInOrder(added[0], Merge(base, added[1..]));
    }
  }

  lemma HeadFirst(files: seq<File>, g: File)
    requires InOrder(files) && g in files
    ensures !Before(g, files[0])
  {
    BeforeIsTotal(g, g);
  }

  lemma {:induction false} DropInOrder(files: seq<File>, deleted: set<nat>)
    requires InOrder(files)
    ensures InOrder(Drop(files, deleted))
  {
    hide Before;
    if files != [] {
      DropInOrder(files[1..], deleted);
      DropMembers(files[1..], deleted);
      if files[0].number !in deleted {
        FirstInOrder(files[0], Drop(files[1..], deleted));
      }
    }
  }

  /** A list in order is known from what it holds at each place. */
  lemma {:induction false} SameTies(a: seq<File>, b: seq<File>)
    requires InOrder(a) && InOrder(b)
    requires forall p :: Tied(a, p) == Tied(b, p)
    ensures a == b
  {
    hide Before, PlaceOf;
    if b != [] {
      assert Tied(a, PlaceOf(b[0])) == Tied(b, PlaceOf(b[0]));
      NotFirst(b, a);
    }
    if a != [] {
      SameHead(a, b);
      forall p ensures Tied(a[1..], p) == Tied(b[1..], p) {
        assert Tied(a, p) == Tied(b, p);
        TiedHead(a, p);
        TiedHead(b, p);
        if PlaceOf(a[0]) == p {
          assert Tied(a, p)[1..] == Tied(a[1..], p);
          assert Tied(b, p)[1..] == Tied(b[1..], p);
        } else {
          assert Tied(a, p) == Tied(a[1..], p);
          assert Tied(b, p) == Tied(b[1..], p);
        }
      }
      SameTies(a[1..], b[1..]);
    }
  }

  lemma SameHead(a: seq<File>, b: seq<File>)
    requires InOrder(a) && InOrder(b) && a != []
    requires forall p :: Tied(a, p) == Tied(b, p)
    ensures b != [] && a[0] == b[0]
  {
    hide Before, PlaceOf, Tied, InOrder;
    var p := PlaceOf(a[0]);
    assert Tied(b, p) == Tied(a, p);
    NotFirst(a, b);
    assert Tied(a, PlaceOf(b[0])) == Tied(b, PlaceOf(b[0]));
    NotFirst(b, a);
    BeforeIsTotal(a[0], b[0]);
    TiedHead(a, p);
    TiedHead(b, p);
    assert Tied(a, p)[0] == a[0] && Tied(b, p)[0] == b[0];
  }

  lemma NotFirst(a: seq<File>, b: seq<File>)
    requires InOrder(b) && a != [] && Tied(b, PlaceOf(a[0])) == Tied(a, PlaceOf(a[0]))
    ensures b != [] && !Before(a[0], b[0])
  {
    TiedMembers(a, PlaceOf(a[0]));
    TiedMembers(b, PlaceOf(a[0]));
    assert a[0] in b;
    HeadFirst(b, a[0]);
  }

  // ----- many edits in one builder -----

  /** What one edit says of one level. */
  datatype LevelEdit = LevelEdit(deleted: seq<nat>, added: seq<File>)

  ghost function Marks(numbers: seq<nat>): set<nat> {
    set n | n in numbers
  }

  ghost function NumbersOf(files: seq<File>): set<nat> {
    set f | f in files :: f.number
  }

  /** The builder's deleted_files and added_files for the level. */
  datatype LevelState = LevelState(deleted: set<nat>, added: seq<File>)

  /** std::set::insert: nothing happens if a tied file is there. */
  function Insert(files: seq<File>, f: File): seq<File> {
    if |files| == 0 || Before(f, files[0]) then [f] + files
    else if Before(files[0], f) then [files[0]] + Insert(files[1..], f)
    else files
  }

  function InsertAll(files: seq<File>, fs: seq<File>): seq<File> {
    if |fs| == 0 then files else Insert(InsertAll(files, fs[..|fs| - 1]), fs[|fs| - 1])
  }

  /** Apply, for the level: deletions first, and a file added is no longer deleted, even if a tie keeps it out. */
  method Apply(s: LevelState, e: LevelEdit) returns (t: LevelState)
    ensures t == Applied(s, e)
  {
    t := s;
    for i := 0 to |e.deleted|
      invariant t == LevelState(s.deleted + Marks(e.deleted[..i]), s.added)
    {
      assert e.deleted[..i + 1] == e.deleted[..i] + [e.deleted[i]];
      t := t.(deleted := t.deleted + {e.deleted[i]});
    }
    assert e.deleted[..|e.deleted|] == e.deleted;
    ghost var marked := t.deleted;
    for i := 0 to |e.added|
      invariant t.deleted == marked - NumbersOf(e.added[..i])
      invariant t.added == InsertAll(s.added, e.added[..i])
    {
      assert e.added[..i + 1] == e.added[..i] + [e.added[i]];
      assert e.added[..i + 1][..i] == e.added[..i];
      t := LevelState(t.deleted - {e.added[i].number}, Insert(t.added, e.added[i]));
    }
    assert e.added[..|e.added|] == e.added;
  }

  ghost function Applied(s: LevelState, e: LevelEdit): LevelState {
    LevelState((s.deleted + Marks(e.deleted)) - NumbersOf(e.added), InsertAll(s.added, e.added))
  }

  const Fresh := LevelState({}, [])

  ghost function AllApplied(edits: seq<LevelEdit>): LevelState
    decreases |edits|
  {
    if |edits| == 0 then Fresh else Applied(AllApplied(edits[..|edits| - 1]), edits[|edits| - 1])
  }

  /** What SaveTo makes of the builder's state. */
  function SavedFrom(base: seq<File>, s: LevelState): seq<File> {
    Drop(Merge(base, s.added), s.deleted)
  }

  /** The level after one edit in a builder of its own. */
  ghost function AfterEdit(files: seq<File>, e: LevelEdit): seq<File> {
    SavedFrom(files, Applied(Fresh, e))
  }

  ghost function OneByOne(base: seq<File>, edits: seq<LevelEdit>): seq<File>
    decreases |edits|
  {
    if |edits| == 0 then base else AfterEdit(OneByOne(base, edits[..|edits| - 1]), edits[|edits| - 1])
  }

  // ----- std::set::insert -----

  lemma {:induction false} InsertMembers(files: seq<File>, f: File)
    ensures forall g :: g in Insert(files, f) ==> g in files || g == f
    ensures forall g :: g in files ==> g in Insert(files, f)
  {
    hide Before;
    if |files| > 0 && !Before(f, files[0]) && Before(files[0], f) {
      InsertMembers(files[1..], f);
      assert files == [files[0]] + files[1..];
    }
  }

  lemma OrderedFrom(f: File, rest: seq<File>)
    requires Ordered(rest) && forall g :: g in rest ==> Before(f, g)
    ensures Ordered([f] + rest)
  {
    hide Before;
    var files := [f] + rest;
    forall i, j | 0 <= i < j < |files| ensures Before(files[i], files[j]) {
      assert files[j] == rest[j - 1] && rest[j - 1] in rest;
    }
  }

  lemma OrderedIsInOrder(files: seq<File>)
    requires Ordered(files)
    ensures InOrder(files)
  {
    forall i, j | 0 <= i < j < |files| ensures !Before(files[j], files[i]) {
      BeforeIsTotal(files[i], files[j]);
    }
  }

  /** The set stays in order, and holds what it held and the first file of each place. */
  lemma {:induction false} InsertTied(files: seq<File>, f: File, p: Place)
    requires Ordered(files)
    ensures Ordered(Insert(files, f))
    ensures Tied(Insert(files, f), p) == if PlaceOf(f) == p && Tied(files, p) == [] then [f] else Tied(files, p)
  {
    hide Before, PlaceOf;
    if |files| == 0 {
    } else if Before(f, files[0]) {
      OrderedIsInOrder(files);
      NoneTied(files, f);
      forall g | g in files ensures Before(f, g) {
        HeadFirst(files, g);
        BeforeIsTotal(f, files[0]);
        NotBeforeTransitive(f, files[0], g);
      }
      OrderedFrom(f, files);
    } else {
      BeforeIsTotal(files[0], f);
      if Before(files[0], f) {
        InsertTied(files[1..], f, p);
        InsertMembers(files[1..], f);
        OrderedFrom(files[0], Insert(files[1..], f));
      }
    }
  }

  lemma {:induction false} InsertAllTied(files: seq<File>, fs: seq<File>, p: Place)
    requires Ordered(files)
    ensures Ordered(InsertAll(files, fs))
    ensures Tied(InsertAll(files, fs), p) == if Tied(files, p) != [] then Tied(files, p) else Tied(InsertAll([], fs), p)
    decreases |fs|
  {
    hide Before, PlaceOf;
    if |fs| > 0 {
      var before, f := fs[..|fs| - 1], fs[|fs| - 1];
      InsertAllTied(files, before, p);
      InsertAllOrdered([], before);
      InsertTied(InsertAll(files, before), f, p);
      InsertTied(InsertAll([], before), f, p);
    }
  }

  lemma {:induction false} InsertAllOrdered(files: seq<File>, fs: seq<File>)
    requires Ordered(files)
    ensures Ordered(InsertAll(files, fs))
    ensures forall f :: f in InsertAll(files, fs) ==> f in files || f in fs
    decreases |fs|
  {
    hide Before;
    if |fs| > 0 {
      InsertAllOrdered(files, fs[..|fs| - 1]);
      var was, f := InsertAll(files, fs[..|fs| - 1]), fs[|fs| - 1];
      InsertTied(was, f, PlaceOf(f));
      InsertMembers(was, f);
    }
  }

  /** A set holds at most one file of a place. */
  lemma OneTied(files: seq<File>, p: Place)
    requires Ordered(files)
    ensures |Tied(files, p)| <= 1
  {
    if files != [] {
      OneTied(files[1..], p);
      if PlaceOf(files[0]) == p && files[1..] != [] {
        OrderedIsInOrder(files[1..]);
        NoneTied(files[1..], files[0]);
      }
    }
  }

  // ----- folding edits -----

  lemma AppliedOrdered(s: LevelState, e: LevelEdit)
    requires Ordered(s.added)
    ensures Ordered(Applied(s, e).added)
  {
    InsertAllOrdered(s.added, e.added);
  }

  lemma SavedInOrder(base: seq<File>, s: LevelState)
    requires InOrder(base) && Ordered(s.added)
    ensures InOrder(SavedFrom(base, s))
  {
    OrderedIsInOrder(s.added);
    MergeInOrder(base, s.added);
    DropInOrder(Merge(base, s.added), s.deleted);
  }

  lemma AfterEditInOrder(files: seq<File>, e: LevelEdit)
    requires InOrder(files)
    ensures InOrder(AfterEdit(files, e))
  {
    hide InOrder, SavedFrom;
    AppliedOrdered(Fresh, e);
    SavedInOrder(files, Applied(Fresh, e));
  }

  lemma SavedTied(base: seq<File>, s: LevelState, p: Place)
    requires InOrder(base)
    ensures Tied(SavedFrom(base, s), p) == if p.number in s.deleted then [] else Tied(base, p) + Tied(s.added, p)
  {
    hide Merge, Drop, Tied;
    TiedMerge(base, s.added, p);
    TiedDrop(Merge(base, s.added), s.deleted, p);
  }

  /** The files an edit brings in: of those tied, the first. */
  ghost function Brings(e: LevelEdit): seq<File> {
    InsertAll([], e.added)
  }

  /** Where the edit adds a number the builder holds: a base file of it must not be marked deleted; a file
      added before must, if it is marked, be the one that comes in, and otherwise have nothing added in its place. */
  ghost predicate NoReuse(base: seq<File>, s: LevelState, e: LevelEdit) {
    && (forall f :: f in base && f.number in s.deleted ==> f.number !in NumbersOf(e.added))
    && (forall h :: h in s.added && h.number in NumbersOf(e.added) ==>
          if h.number in s.deleted then h in Brings(e) else Tied(Brings(e), PlaceOf(h)) == [])
  }

  /** The same place by place. */
  ghost predicate NoReuseAt(base: seq<File>, s: LevelState, e: LevelEdit, p: Place) {
    p.number in NumbersOf(e.added) ==>
      if p.number in s.deleted then
        Tied(base, p) == [] && (Tied(s.added, p) != [] ==> Tied(s.added, p) == Tied(Brings(e), p))
      else
        Tied(s.added, p) == [] || Tied(Brings(e), p) == []
  }

  lemma NoReusePlaceByPlace(base: seq<File>, s: LevelState, e: LevelEdit)
    requires Ordered(s.added)
    ensures NoReuse(base, s, e) <==> forall p :: NoReuseAt(base, s, e, p)
  {
    hide Tied, InsertAll, NumbersOf, Ordered, Before;
    InsertAllOrdered([], e.added) by { NoneOrdered(); }
    if NoReuse(base, s, e) {
      forall p ensures NoReuseAt(base, s, e, p) {
        NoReuseThere(base, s, e, p);
      }
    }
    if forall p :: NoReuseAt(base, s, e, p) {
      forall f | f in base && f.number in s.deleted ensures f.number !in NumbersOf(e.added) {
        assert NoReuseAt(base, s, e, PlaceOf(f));
        TiedMembers(base, PlaceOf(f));
      }
      forall h | h in s.added && h.number in NumbersOf(e.added)
        ensures if h.number in s.deleted then h in Brings(e) else Tied(Brings(e), PlaceOf(h)) == []
      {
        assert NoReuseAt(base, s, e, PlaceOf(h));
        TiedMembers(s.added, PlaceOf(h));
        TiedMembers(Brings(e), PlaceOf(h));
      }
    }
  }

  lemma NoneOrdered()
    ensures Ordered([])
  {}

  lemma NoReuseThere(base: seq<File>, s: LevelState, e: LevelEdit, p: Place)
    requires Ordered(s.added) && Ordered(Brings(e)) && NoReuse(base, s, e)
    ensures NoReuseAt(base, s, e, p)
  {
    hide Tied, InsertAll, NumbersOf, Ordered, Before;
    TiedMembers(base, p);
    TiedMembers(s.added, p);
    TiedMembers(Brings(e), p);
    OneTied(s.added, p);
    OneTied(Brings(e), p);
    if p.number in NumbersOf(e.added) {
      if Tied(base, p) != [] {
        assert Tied(base, p)[0] in Tied(base, p);
      }
      if Tied(s.added, p) != [] {
        var h := Tied(s.added, p)[0];
        assert h in Tied(s.added, p) && Tied(s.added, p) == [h];
      }
    }
  }

  /** At one place: the two ways agree just when nothing is reused there. */
  lemma FoldStepAt(base: seq<File>, s: LevelState, e: LevelEdit, p: Place)
    requires InOrder(base) && Ordered(s.added)
    ensures Tied(SavedFrom(base, Applied(s, e)), p) == Tied(AfterEdit(SavedFrom(base, s), e), p)
       <==> NoReuseAt(base, s, e, p)
  {
    hide Tied, SavedFrom, InsertAll, NumbersOf, Marks, InOrder, Ordered, Before;
    SavedTied(base, s, p);
    SavedTied(base, Applied(s, e), p);
    SavedInOrder(base, s);
    SavedTied(SavedFrom(base, s), Applied(Fresh, e), p);
    InsertAllTied(s.added, e.added, p);
    InsertAllOrdered([], e.added) by { NoneOrdered(); }
    OneTied(s.added, p);
    OneTied(Brings(e), p);
    BringsNumber(e, p);
    SmallSums(Tied(base, p), Tied(s.added, p), Tied(Brings(e), p));
  }

  lemma BringsNumber(e: LevelEdit, p: Place)
    ensures Tied(Brings(e), p) != [] ==> p.number in NumbersOf(e.added)
  {
    InsertAllOrdered([], e.added);
    TiedMembers(Brings(e), p);
    if Tied(Brings(e), p) != [] {
      assert Tied(Brings(e), p)[0] in Tied(Brings(e), p);
    }
  }

  lemma SmallSums(b: seq<File>, a: seq<File>, n: seq<File>)
    requires |a| <= 1 && |n| <= 1
    ensures b + (if a != [] then a else n) == n <==> b == [] && (a != [] ==> a == n)
    ensures b + (if a != [] then a else n) == (b + a) + n <==> a == [] || n == []
    ensures [] + n == n
  {
    if a != [] {
      assert |b + a| == |b| + 1;
      assert b == [] ==> b + a == a;
    } else {
      assert |b + n| == |b| + |n|;
      assert (b + a) + n == b + n;
      assert b == [] ==> b + n == n;
    }
    assert n == [] ==> (b + a) + n == b + a;
  }

  /** One more edit in the builder is one more save, just when it reuses no number. */
  lemma FoldStepIff(base: seq<File>, s: LevelState, e: LevelEdit)
    requires InOrder(base) && Ordered(s.added)
    ensures SavedFrom(base, Applied(s, e)) == AfterEdit(SavedFrom(base, s), e) <==> NoReuse(base, s, e)
  {
    hide Tied, SavedFrom, AfterEdit, Applied, NoReuse, NoReuseAt, InOrder, Ordered;
    var folded, single := SavedFrom(base, Applied(s, e)), AfterEdit(SavedFrom(base, s), e);
    NoReusePlaceByPlace(base, s, e);
    forall p ensures Tied(folded, p) == Tied(single, p) <==> NoReuseAt(base, s, e, p) {
      FoldStepAt(base, s, e, p);
    }
    if NoReuse(base, s, e) {
      forall p ensures Tied(folded, p) == Tied(single, p) {
        assert NoReuseAt(base, s, e, p);
      }
      AppliedOrdered(s, e);
      SavedInOrder(base, Applied(s, e));
      SavedInOrder(base, s);
      AfterEditInOrder(SavedFrom(base, s), e);
      SameTies(folded, single);
    }
    if folded == single {
      forall p ensures NoReuseAt(base, s, e, p) {
        assert Tied(folded, p) == Tied(single, p);
      }
    }
  }

  ghost predicate NoneReused(base: seq<File>, edits: seq<LevelEdit>) {
    forall n | 0 <= n < |edits| :: NoReuse(base, AllApplied(edits[..n]), edits[n])
  }

  /** Folding the edits into one builder and saving once is saving after each, at every point along the way,
      just when no edit reuses a number. */
  lemma FoldedIsOneByOneIff(base: seq<File>, edits: seq<LevelEdit>)
    requires InOrder(base)
    ensures NoneReused(base, edits) <==>
      forall n | 0 <= n <= |edits| :: SavedFrom(base, AllApplied(edits[..n])) == OneByOne(base, edits[..n])
  {
    hide NoReuse, SavedFrom, AfterEdit, Applied, InOrder, Ordered;
    if NoneReused(base, edits) {
      forall n | 0 <= n <= |edits|
        ensures SavedFrom(base, AllApplied(edits[..n])) == OneByOne(base, edits[..n])
      {
        FoldedIsOneByOne(base, edits, n);
      }
    }
    if forall n | 0 <= n <= |edits| :: SavedFrom(base, AllApplied(edits[..n])) == OneByOne(base, edits[..n]) {
      forall n | 0 <= n < |edits|
        ensures NoReuse(base, AllApplied(edits[..n]), edits[n])
      {
        var next := n + 1;
        assert SavedFrom(base, AllApplied(edits[..next])) == OneByOne(base, edits[..next]);
        OneMoreEdit(base, edits, n);
        AllAppliedOrdered(edits[..n]);
        FoldStepIff(base, AllApplied(edits[..n]), edits[n]);
      }
    }
  }

  lemma OneMoreEdit(base: seq<File>, edits: seq<LevelEdit>, n: nat)
    requires n < |edits|
    ensures AllApplied(edits[..n + 1]) == Applied(AllApplied(edits[..n]), edits[n])
    ensures OneByOne(base, edits[..n + 1]) == AfterEdit(OneByOne(base, edits[..n]), edits[n])
  {
    hide AfterEdit, Applied;
    assert edits[..n + 1][..n] == edits[..n];
  }

  lemma {:induction false} AllAppliedOrdered(edits: seq<LevelEdit>)
    ensures Ordered(AllApplied(edits).added)
    decreases |edits|
  {
    hide Applied, Before;
    if |edits| > 0 {
      AllAppliedOrdered(edits[..|edits| - 1]);
      AppliedOrdered(AllApplied(edits[..|edits| - 1]), edits[|edits| - 1]);
    }
  }

  lemma {:induction false} FoldedIsOneByOne(base: seq<File>, edits: seq<LevelEdit>, n: nat)
    requires InOrder(base) && NoneReused(base, edits) && n <= |edits|
    ensures SavedFrom(base, AllApplied(edits[..n])) == OneByOne(base, edits[..n])
    decreases n
  {
    hide NoReuse, AfterEdit, Applied, SavedFrom, InOrder, Ordered;
    if n == 0 {
      assert edits[..0] == [];
      NothingApplied(base);
    } else {
      FoldedIsOneByOne(base, edits, n - 1);
      OneMoreEdit(base, edits, n - 1);
      AllAppliedOrdered(edits[..n - 1]);
      FoldStepIff(base, AllApplied(edits[..n - 1]), edits[n - 1]);
    }
  }

  lemma NothingApplied(base: seq<File>)
    ensures SavedFrom(base, Fresh) == base
  {
    if base != [] {
      NothingApplied(base[1..]);
      assert base == [base[0]] + base[1..];
    }
  }

  /** In particular when no number is added to the level twice. */
  lemma AddedOnceIsNoReuse(base: seq<File>, edits: seq<LevelEdit>)
    requires InOrder(base)
    requires forall n, f, g | 0 <= n < |edits| && f in edits[n].added && g in base :: f.number != g.number
    requires forall m, n, f, g | 0 <= m < n < |edits| && f in edits[m].added && g in edits[n].added ::
      f.number != g.number
    ensures NoneReused(base, edits) && SavedFrom(base, AllApplied(edits)) == OneByOne(base, edits)
  {
    hide AllApplied, InOrder, SavedFrom, Brings, Before;
    forall n | 0 <= n < |edits| ensures NoReuse(base, AllApplied(edits[..n]), edits[n]) {
      AddedBefore(edits[..n]);
      var s := AllApplied(edits[..n]);
      forall h | h in s.added ensures h.number !in NumbersOf(edits[n].added) {
        var m :| 0 <= m < n && h in edits[..n][m].added;
        assert h in edits[m].added;
      }
    }
    assert edits[..|edits|] == edits;
    FoldedIsOneByOne(base, edits, |edits|);
  }

  lemma {:induction false} AddedBefore(edits: seq<LevelEdit>)
    ensures forall h :: h in AllApplied(edits).added ==> exists m :: 0 <= m < |edits| && h in edits[m].added
    decreases |edits|
  {
    hide Before;
    if |edits| > 0 {
      var most, last := edits[..|edits| - 1], edits[|edits| - 1];
      AddedBefore(most);
      AllAppliedOrdered(most);
      InsertAllOrdered(AllApplied(most).added, last.added);
      forall h | h in AllApplied(edits).added ensures exists m :: 0 <= m < |edits| && h in edits[m].added {
        if h !in last.added {
          var m :| 0 <= m < |most| && h in most[m].added;
          assert h in edits[m].added;
        }
      }
    }
  }

  // ----- what folding loses, and what it brings back -----

  lemma SavedMembers(base: seq<File>, s: LevelState)
    ensures forall f :: f in SavedFrom(base, s) <==> (f in base || f in s.added) && f.number !in s.deleted
  {
    MergeMembers(base, s.added);
    DropMembers(Merge(base, s.added), s.deleted);
  }

  /** No file the edit brings in is kept out by another at its place, unless the base has it. */
  ghost predicate NoneShutOut(base: seq<File>, s: LevelState, e: LevelEdit) {
    forall g :: g in Brings(e) && Tied(s.added, PlaceOf(g)) != [] ==> g in s.added || g in base
  }

  /** The edit in the builder loses no file that an edit after a save would have, just when it shuts none out. */
  lemma FoldStepLosesNothingIff(base: seq<File>, s: LevelState, e: LevelEdit)
    requires Ordered(s.added)
    ensures (forall f :: f in AfterEdit(SavedFrom(base, s), e) ==> f in SavedFrom(base, Applied(s, e)))
       <==> NoneShutOut(base, s, e)
  {
    hide Tied, SavedFrom, InsertAll, Ordered, Before, PlaceOf;
    SavedMembers(base, s);
    SavedAfterApply(base, s, e);
    SavedMembers(SavedFrom(base, s), Applied(Fresh, e));
  }

  /** A file the edit brings in is there after a save, whatever was before; so one shut out is lost. */
  lemma ShutOutIsLost(base: seq<File>, s: LevelState, e: LevelEdit, files: seq<File>)
    requires Ordered(s.added)
    requires forall f :: f in AfterEdit(files, e) ==> f in SavedFrom(base, Applied(s, e))
    ensures NoneShutOut(base, s, e)
  {
    hide Tied, SavedFrom, InsertAll, Ordered, Before, PlaceOf;
    SavedAfterApply(base, s, e);
    SavedMembers(files, Applied(Fresh, e));
  }

  lemma SavedAfterApply(base: seq<File>, s: LevelState, e: LevelEdit)
    requires Ordered(s.added)
    ensures var s' := Applied(s, e);
      forall f :: f in SavedFrom(base, s') <==>
        (f in base || f in s.added || (f in Brings(e) && Tied(s.added, PlaceOf(f)) == [])) && f.number !in s'.deleted
    ensures forall g :: g in Brings(e) ==> g.number in NumbersOf(e.added)
  {
    hide Tied, SavedFrom, InsertAll, Ordered, Before, PlaceOf;
    SavedMembers(base, Applied(s, e));
    forall f
      ensures f in InsertAll(s.added, e.added) <==> f in s.added || (f in Brings(e) && Tied(s.added, PlaceOf(f)) == [])
    {
      HeldAfter(s.added, e, f);
    }
    InsertAllOrdered([], e.added) by { NoneOrdered(); }
  }

  lemma HeldAfter(added: seq<File>, e: LevelEdit, f: File)
    requires Ordered(added)
    ensures f in InsertAll(added, e.added) <==> f in added || (f in Brings(e) && Tied(added, PlaceOf(f)) == [])
  {
    hide Tied, InsertAll, Before;
    InsertAllTied(added, e.added, PlaceOf(f));
    TiedMembers(InsertAll(added, e.added), PlaceOf(f));
    TiedMembers(added, PlaceOf(f));
    TiedMembers(Brings(e), PlaceOf(f));
    InsertAllTied([], e.added, PlaceOf(f));
    OneTied(added, PlaceOf(f));
    assert f in added ==> f in Tied(added, PlaceOf(f));
  }

  /** Folding the first n edits loses no file that saving after each of them keeps. */
  ghost predicate KeepsAll(base: seq<File>, edits: seq<LevelEdit>, n: nat)
    requires n <= |edits|
  {
    forall f :: f in OneByOne(base, edits[..n]) ==> f in SavedFrom(base, AllApplied(edits[..n]))
  }

  /** Folding loses nothing, at every point along the way, just when no edit shuts a file out. */
  lemma FoldedLosesNothingIff(base: seq<File>, edits: seq<LevelEdit>)
    ensures (forall n | 0 <= n <= |edits| :: KeepsAll(base, edits, n)) <==>
      forall n | 0 <= n < |edits| :: NoneShutOut(base, AllApplied(edits[..n]), edits[n])
  {
    hide SavedFrom, Applied, AfterEdit, NoneShutOut, Ordered, KeepsAll;
    if forall n | 0 <= n < |edits| :: NoneShutOut(base, AllApplied(edits[..n]), edits[n]) {
      forall n | 0 <= n <= |edits| ensures KeepsAll(base, edits, n) {
        FoldedLosesNothing(base, edits, n);
      }
    }
    if forall n | 0 <= n <= |edits| :: KeepsAll(base, edits, n) {
      forall n | 0 <= n < |edits| ensures NoneShutOut(base, AllApplied(edits[..n]), edits[n]) {
        var next := n + 1;
        assert KeepsAll(base, edits, next);
        LastIsNotShutOut(base, edits, n);
      }
    }
  }

  lemma LastIsNotShutOut(base: seq<File>, edits: seq<LevelEdit>, n: nat)
    requires n < |edits| && KeepsAll(base, edits, n + 1)
    ensures NoneShutOut(base, AllApplied(edits[..n]), edits[n])
  {
    hide SavedFrom, Applied, AfterEdit, NoneShutOut, Ordered;
    OneMoreEdit(base, edits, n);
    AllAppliedOrdered(edits[..n]);
    ShutOutIsLost(base, AllApplied(edits[..n]), edits[n], OneByOne(base, edits[..n]));
  }

  lemma {:induction false} FoldedLosesNothing(base: seq<File>, edits: seq<LevelEdit>, n: nat)
    requires n <= |edits|
    requires forall m | 0 <= m < |edits| :: NoneShutOut(base, AllApplied(edits[..m]), edits[m])
    ensures KeepsAll(base, edits, n)
    decreases n
  {
    hide SavedFrom, Applied, AfterEdit, NoneShutOut, Ordered;
    if n == 0 {
      assert edits[..0] == [];
      NothingApplied(base);
    } else {
      var s := AllApplied(edits[..n - 1]);
      FoldedLosesNothing(base, edits, n - 1);
      OneMoreEdit(base, edits, n - 1);
      AllAppliedOrdered(edits[..n - 1]);
      FoldStepLosesNothingIff(base, s, edits[n - 1]);
      AfterEditGrows(OneByOne(base, edits[..n - 1]), SavedFrom(base, s), edits[n - 1]);
    }
  }

  lemma AfterEditGrows(fewer: seq<File>, more: seq<File>, e: LevelEdit)
    requires forall f :: f in fewer ==> f in more
    ensures forall f :: f in AfterEdit(fewer, e) ==> f in AfterEdit(more, e)
  {
    hide SavedFrom;
    SavedMembers(fewer, Applied(Fresh, e));
    SavedMembers(more, Applied(Fresh, e));
  }

  function Added(f: File): LevelEdit {
    LevelEdit([], [f])
  }

  function Deleted(f: File): LevelEdit {
    LevelEdit([f.number], [])
  }

  lemma TwoEdits(base: seq<File>, a: LevelEdit, b: LevelEdit)
    ensures AllApplied([a, b]) == Applied(Applied(Fresh, a), b)
    ensures OneByOne(base, [a, b]) == AfterEdit(AfterEdit(base, a), b)
  {
    hide Applied, AfterEdit;
    assert [a, b][..1] == [a] && [a][..0] == [];
    assert AllApplied([a]) == Applied(AllApplied([]), a);
    assert OneByOne(base, [a]) == AfterEdit(OneByOne(base, []), a);
  }

  lemma AppliedOne(s: LevelState, f: File)
    ensures Applied(s, Added(f)) == LevelState(s.deleted - {f.number}, Insert(s.added, f))
    ensures Applied(s, Deleted(f)) == LevelState(s.deleted + {f.number}, s.added)
    ensures s.deleted <= {f.number} ==> Applied(s, Added(f)).deleted == {}
    ensures s.deleted <= {f.number} ==> Applied(s, Deleted(f)).deleted == {f.number}
  {
    assert [f][..0] == [] && InsertAll(s.added, []) == s.added;
    assert InsertAll(s.added, [f]) == Insert(s.added, f);
    assert NumbersOf([f]) == {f.number} && NumbersOf([]) == {};
    assert Marks([f.number]) == {f.number} && Marks([]) == {};
  }

  lemma InsertOne(f: File, g: File)
    ensures Insert([], f) == [f]
    ensures PlaceOf(f) == PlaceOf(g) ==> Insert([f], g) == [f]
  {
    BeforeIsTotal(f, g);
  }

  lemma SavedOne(f: File, deleted: set<nat>)
    ensures SavedFrom([], LevelState(deleted, [f])) == if f.number in deleted then [] else [f]
    ensures SavedFrom([f], LevelState(deleted, [])) == if f.number in deleted then [] else [f]
    ensures SavedFrom([], LevelState(deleted, [])) == []
  {
    assert [f][1..] == [];
    assert Merge([], [f]) == [f] && Merge([f], []) == [f];
    assert Drop([f], deleted) == if f.number in deleted then [] else [f];
  }

  lemma SavedTwo(b: File, a: File)
    ensures SavedFrom([b], LevelState({}, [a])) == if Before(a, b) then [a, b] else [b, a]
  {
    hide Before;
    assert [a][1..] == [] && [b][1..] == [];
    MergeHead([b], [a]);
    MergeHead([b], []);
    MergeHead([], [a]);
    assert Merge([], []) == [];
    DropJoin([a], [b], {});
    DropJoin([b], [a], {});
    assert Drop([a], {}) == [a] && Drop([b], {}) == [b];
    assert [a] + [b] == [a, b] && [b] + [a] == [b, a];
  }

  /** Of two files added at one place the builder keeps the first; saved one at a time both are there. */
  lemma TiedAddIsLost(f: File, g: File)
    requires f != g && PlaceOf(f) == PlaceOf(g)
    ensures SavedFrom([], AllApplied([Added(f), Added(g)])) == [f]
    ensures OneByOne([], [Added(f), Added(g)]) == [f, g]
  {
    hide SavedFrom, Applied, Insert;
    TwoEdits([], Added(f), Added(g));
    AppliedOne(Fresh, f);
    AppliedOne(LevelState({}, [f]), g);
    AppliedOne(Fresh, g);
    InsertOne(f, g);
    InsertOne(g, f);
    BeforeIsTotal(f, g);
    SavedOne(f, {});
    SavedTwo(f, g);
  }

  /** Added, deleted and added again as another file: the builder has the first, one at a time the second. */
  lemma DeletedAddReturns(f: File, g: File)
    requires f != g && PlaceOf(f) == PlaceOf(g)
    ensures SavedFrom([], AllApplied([Added(f), Deleted(f), Added(g)])) == [f]
    ensures OneByOne([], [Added(f), Deleted(f), Added(g)]) == [g]
  {
    hide SavedFrom, Applied, Insert;
    var edits := [Added(f), Deleted(f), Added(g)];
    OneMoreEdit([], edits, 2);
    assert edits[..2] == [Added(f), Deleted(f)] && edits[..3] == edits;
    TwoEdits([], Added(f), Deleted(f));
    AppliedOne(Fresh, f);
    AppliedOne(LevelState({}, [f]), f);
    AppliedOne(LevelState({f.number}, [f]), g);
    AppliedOne(Fresh, g);
    InsertOne(f, g);
    InsertOne(g, f);
    SavedOne(f, {f.number});
    SavedOne(f, {});
    SavedOne(g, {});
  }

  /** A number of the base deleted and then added again brings the old file back beside the new, be it the same. */
  lemma AddedTwiceComesBack(was: File, now: File)
    requires was.number == now.number
    ensures SavedFrom([was], AllApplied([Deleted(was), Added(now)]))
         == if Before(now, was) then [now, was] else [was, now]
    ensures OneByOne([was], [Deleted(was), Added(now)]) == [now]
  {
    hide SavedFrom, Applied, Insert, Before;
    TwoEdits([was], Deleted(was), Added(now));
    AppliedOne(Fresh, was);
    AppliedOne(LevelState({was.number}, []), now);
    AppliedOne(Fresh, now);
    InsertOne(now, was);
    SavedOne(was, {was.number});
    SavedOne(now, {});
    SavedTwo(was, now);
  }

  // ----- an edit on the tree -----

  /** Without ties the saved list is in strict order. */
  lemma SavedWithoutTies(base: seq<File>, s: LevelState)
    requires Ordered(base) && Ordered(s.added)
    requires forall f, g :: f in base && g in s.added ==> PlaceOf(f) != PlaceOf(g)
    ensures Ordered(SavedFrom(base, s))
  {
    hide Before, SavedFrom, Tied;
    OrderedIsInOrder(base);
    SavedInOrder(base, s);
    var v := SavedFrom(base, s);
    forall p ensures |Tied(v, p)| <= 1 {
      SavedTied(base, s, p);
      OneTied(base, p);
      OneTied(s.added, p);
      TiedMembers(base, p);
      TiedMembers(s.added, p);
      assert Tied(base, p) != [] ==> Tied(base, p)[0] in base;
      assert Tied(s.added, p) != [] ==> Tied(s.added, p)[0] in s.added;
    }
    OnePerPlaceIsOrdered(v);
  }

  lemma {:induction false} OnePerPlaceIsOrdered(files: seq<File>)
    requires InOrder(files) && forall p :: |Tied(files, p)| <= 1
    ensures Ordered(files)
  {
    hide Before, PlaceOf;
    if files != [] {
      forall p ensures |Tied(files[1..], p)| <= 1 {
        assert |Tied(files, p)| <= 1;
        TiedHead(files, p);
      }
      OnePerPlaceIsOrdered(files[1..]);
      var p := PlaceOf(files[0]);
      assert |Tied(files, p)| <= 1;
      TiedMembers(files[1..], p);
      forall g | g in files[1..] ensures Before(files[0], g) {
        HeadFirst(files, g);
        BeforeIsTotal(files[0], g);
      }
      OrderedFrom(files[0], files[1..]);
      assert files == [files[0]] + files[1..];
    }
  }

  /** Ordered by smallest key, files without overlap form a sorted level. */
  lemma OrderedDisjointIsSorted(files: seq<File>)
    requires Ordered(files) && Spans(files) && LevelDisjoint(ToSet(files))
    ensures FilesSorted(files)
  {
    forall i, j | 0 <= i < j < |files| ensures Less(files[i].largest, files[j].smallest) {
      assert Before(files[i], files[j]);
      BeforeIsTotal(files[i], files[j]);
      assert files[i] in ToSet(files) && files[j] in ToSet(files) && Disjoint(files[i], files[j]);
      CompareIsLess(files[i].smallest, files[j].smallest);
      assert SpanOk(files[i]) && SpanOk(files[j]);
    }
  }

  ghost function Numbers(files: set<File>): set<nat> {
    set f | f in files :: f.number
  }

  /** The edit of a compaction, applied level by level, is the Install of the merge tree; so is that of a
      trivial move, whose one added file is the one deleted a level up. */
  lemma SavedLevelIsInstalled(levels: Levels, level: nat, in0: set<File>, in1: set<File>, outputs: set<File>,
                              l: nat, base: seq<File>, e: LevelEdit)
    requires NumbersDistinct(levels) && level + 1 < |levels| && in0 <= levels[level] && in1 <= levels[level + 1]
    requires forall f, m, g :: f in outputs && 0 <= m < |levels| && g in levels[m] && f.number == g.number ==> f == g
    requires forall f, g :: f in outputs && g in outputs && f.number == g.number ==> f == g
    requires outputs !! in1 && l < |levels| && InOrder(base) && ToSet(base) == levels[l]
    requires Marks(e.deleted) == if l == level then Numbers(in0) else if l == level + 1 then Numbers(in1) else {}
    requires ToSet(e.added) == if l == level + 1 then outputs else {}
    ensures ToSet(AfterEdit(base, e)) == Install(levels, level, in0, in1, outputs)[l]
  {
    hide SavedFrom, InsertAll, NumbersDistinct, InOrder, Before;
    var s := Applied(Fresh, e);
    SavedMembers(base, s);
    assert AfterEdit(base, e) == SavedFrom(base, s);
    assert forall f :: f in e.added <==> f in ToSet(e.added);
    AllBrought(e);
    forall f | f in levels[l]
      ensures l == level ==> (f.number in Marks(e.deleted) <==> f in in0)
      ensures l == level + 1 ==> (f.number in Marks(e.deleted) <==> f in in1)
    {
      DistinctAt(levels, l, l);
    }
    forall f | f in outputs && l == level + 1
      ensures f.number !in Marks(e.deleted)
    {}
    forall f ensures f in AfterEdit(base, e) <==> f in Install(levels, level, in0, in1, outputs)[l] {
      assert f in base <==> f in ToSet(base);
    }
  }

  lemma DistinctAt(levels: Levels, a: nat, b: nat)
    requires NumbersDistinct(levels) && a < |levels| && b < |levels|
    ensures forall f, g :: f in levels[a] && g in levels[b] && f.number == g.number ==> f == g
  {}

  /** Files with numbers of their own all come in. */
  lemma AllBrought(e: LevelEdit)
    requires forall f, g :: f in e.added && g in e.added && f.number == g.number ==> f == g
    ensures forall f :: f in Brings(e) <==> f in e.added
  {
    AllInserted(e.added);
  }

  lemma {:induction false} AllInserted(fs: seq<File>)
    requires forall f, g :: f in fs && g in fs && f.number == g.number ==> f == g
    ensures forall f :: f in InsertAll([], fs) <==> f in fs
    decreases |fs|
  {
    hide Before, Tied;
    if |fs| > 0 {
      var before, f := fs[..|fs| - 1], fs[|fs| - 1];
      AllInserted(before);
      InsertAllOrdered([], before);
      InsertAllOrdered([], fs);
      var was := InsertAll([], before);
      InsertMembers(was, f);
      InsertTied(was, f, PlaceOf(f));
      TiedMembers(was, PlaceOf(f));
      TiedMembers(Insert(was, f), PlaceOf(f));
      if Tied(was, PlaceOf(f)) != [] {
        assert Tied(was, PlaceOf(f))[0] in Tied(was, PlaceOf(f));
      }
    }
  }
}
