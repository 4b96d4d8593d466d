/** Duplicate groups: ECU descriptions that share one transport target, and the group's
    representative, whose handle carries the detection lock. */
module DuplicateGroups {
  import opened Bytes

  /** Transport target of a loaded description; Unidentified has neither resolved DoIP addresses nor
      CAN identifiers. */
  datatype Target = Doip(gateway: u16, logical: u16) | Can(request: u32, response: u32) | Unidentified

  type Database = map<Name, Target>

  /** `mark_duplicate_ecus_by_address`: the other descriptions of the same target. */
  function DuplicatesOf(db: Database, name: Name): (r: set<Name>)
    requires name in db
    ensures forall n :: n in r <==> n in db && n != name && db[n] == db[name] && db[name] != Unidentified
  {
    if db[name] == Unidentified then {} else set n | n in db && n != name && db[n] == db[name]
  }

  /** Names by identified target, as far as the enumeration has come. */
  type Groups = map<Target, seq<Name>>

  ghost predicate Grouped(db: Database, seen: seq<Name>, groups: Groups) {
    Proper(groups) && Right(db, seen, groups) && Complete(db, seen, groups)
  }

  ghost predicate Proper(groups: Groups) { forall t :: t in groups ==> groups[t] != [] && Distinct(groups[t]) }

  /** Whoever is listed was seen and has that target. */
  ghost predicate Right(db: Database, seen: seq<Name>, groups: Groups) {
    forall t, n :: t in groups && n in groups[t] ==> n in seen && n in db && db[n] == t && t != Unidentified
  }

  /** Whoever was seen and has a target is listed. */
  ghost predicate Complete(db: Database, seen: seq<Name>, groups: Groups) {
    forall n :: n in seen && n in db && db[n] != Unidentified ==> db[n] in groups && n in groups[db[n]]
  }

  function Listed(groups: Groups, t: Target): seq<Name> { if t in groups then groups[t] else [] }

  function Added(groups: Groups, t: Target, name: Name): Groups { groups[t := Listed(groups, t) + [name]] }

  lemma AddToGroup(db: Database, seen: seq<Name>, groups: Groups, name: Name)
    requires Grouped(db, seen, groups) && name in db && name !in seen && db[name] != Unidentified
    ensures Grouped(db, seen + [name], Added(groups, db[name], name))
  {
    AddedIsProper(groups, db[name], name);
    AddedIsRight(db, seen, groups, name);
    AddedIsComplete(db, seen, groups, name);
  }

  lemma AddedIsProper(groups: Groups, t: Target, name: Name)
    requires Proper(groups) && name !in Listed(groups, t)
    ensures Proper(Added(groups, t, name))
  {
    var longer := Added(groups, t, name);
    forall u | u in longer ensures longer[u] != [] && Distinct(longer[u]) {
      if u == t { DistinctAppend(Listed(groups, t), name); } else { assert longer[u] == groups[u]; }
    }
  }

  lemma AddedIsRight(db: Database, seen: seq<Name>, groups: Groups, name: Name)
    requires Right(db, seen, groups) && name in db && db[name] != Unidentified
    ensures Right(db, seen + [name], Added(groups, db[name], name))
  {
    var longer := Added(groups, db[name], name);
    forall u, n | u in longer && n in longer[u]
      ensures n in seen + [name] && n in db && db[n] == u && u != Unidentified
    {
      if !(u == db[name] && n == name) { assert u in groups && n in groups[u]; }
    }
  }

  lemma AddedIsComplete(db: Database, seen: seq<Name>, groups: Groups, name: Name)
    requires Complete(db, seen, groups) && name in db
    ensures Complete(db, seen + [name], Added(groups, db[name], name))
  {
    var t := db[name];
    var longer := Added(groups, t, name);
    forall n | n in seen + [name] && n in db && db[n] != Unidentified
      ensures db[n] in longer && n in longer[db[n]]
    {
      if n == name {
        assert longer[t][|longer[t]| - 1] == name;
      } else {
        assert n in seen && n in groups[db[n]];
        assert groups[db[n]] <= longer[db[n]];
      }
    }
  }

  lemma DistinctAppend(names: seq<Name>, name: Name)
    requires Distinct(names) && name !in names
    ensures Distinct(names + [name])
  {
    var longer := names + [name];
    forall i, j | 0 <= i < j < |longer| ensures longer[i] != longer[j] {
      assert longer[i] == names[i];
      if j < |names| { assert longer[j] == names[j]; }
    }
  }

  /** First loop: group the loaded descriptions, in the arbitrary order of a hash map. */
  method GroupByTarget(db: Database, order: seq<Name>) returns (groups: Groups)
    requires Distinct(order) && forall n :: n in order <==> n in db
    ensures Grouped(db, order, groups)
  {
    groups := map[];
    for i := 0 to |order|
      invariant Grouped(db, order[..i], groups)
    {
      var name := order[i];
      assert order[..i + 1] == order[..i] + [name];
      assert name !in order[..i];
      var target := db[name];
      if target != Unidentified {
        AddToGroup(db, order[..i], groups, name);
        groups := Added(groups, target, name);
      }
    }
    assert order[..|order|] == order;
  }

  /** Second loop: whoever shares a group with somebody is told who. An ECU without a mark has no
      duplicates. */
  method MarkDuplicates(db: Database, order: seq<Name>, targets: seq<Target>) returns (marks: map<Name, set<Name>>)
    requires Distinct(order) && forall n :: n in order <==> n in db
    requires forall n :: n in db && db[n] != Unidentified ==> db[n] in targets
    ensures forall a, b :: a in marks && b in marks[a] <==> a in db && b in db && a != b && SameGroup(db, a, b)
    ensures forall a :: a in marks ==> marks[a] != {}
    ensures forall a :: a in db ==> DuplicatesOf(db, a) == if a in marks then marks[a] else {}
  {
    var groups := GroupByTarget(db, order);
    marks := map[];
    for i := 0 to |targets|
      invariant forall a :: a in marks ==> a in db && marks[a] == DuplicatesOf(db, a) != {}
      invariant forall a :: a in db && db[a] in targets[..i] && DuplicatesOf(db, a) != {} ==> a in marks
    {
      assert targets[..i + 1] == targets[..i] + [targets[i]];
      if targets[i] in groups {
        var names := groups[targets[i]];
        MembersOf(db, order, groups, targets[i]);
        if |names| > 1 {
          marks := MarkGroup(db, names, marks);
        }
      }
    }
    assert targets[..|targets|] == targets;
    forall a, b ensures a in marks && b in marks[a] <==> a in db && b in db && a != b && SameGroup(db, a, b) {
      assert a in db ==> (b in DuplicatesOf(db, a) <==> b in db && a != b && SameGroup(db, a, b));
    }
  }

  /** A group holds exactly the descriptions of its target; alone in it means no duplicates. */
  lemma MembersOf(db: Database, order: seq<Name>, groups: Groups, t: Target)
    requires Grouped(db, order, groups) && t in groups && forall n :: n in db ==> n in order
    ensures forall n :: n in groups[t] <==> n in db && db[n] == t
    ensures t != Unidentified
    ensures forall n :: n in groups[t] ==> DuplicatesOf(db, n) == (set m | m in groups[t] && m != n)
    ensures forall n :: n in groups[t] ==> (DuplicatesOf(db, n) == {} <==> |groups[t]| == 1)
  {
    var names := groups[t];
    assert names[0] in names && db[names[0]] == t && t != Unidentified;
    forall n ensures n in names <==> n in db && db[n] == t {
      if n in db && db[n] == t { assert n in order; }
    }
    forall n | n in names
      ensures DuplicatesOf(db, n) == (set m | m in names && m != n)
      ensures DuplicatesOf(db, n) == {} <==> |names| == 1
    {
      OthersOf(db, names, n);
    }
  }

  lemma OthersOf(db: Database, names: seq<Name>, n: Name)
    requires n in names && Distinct(names) && n in db && db[n] != Unidentified
    requires forall m :: m in names <==> m in db && db[m] == db[n]
    ensures DuplicatesOf(db, n) == (set m | m in names && m != n)
    ensures DuplicatesOf(db, n) == {} <==> |names| == 1
  {
    var others := DuplicatesOf(db, n);
    assert forall m :: m in others <==> m in names && m != n;
    if |names| > 1 {
      NotAlone(names, n);
      var m :| m in names && m != n;
      assert m in others;
    } else {
      assert n == names[0];
      assert forall m :: m in names ==> m == names[0];
    }
  }

  lemma NotAlone(names: seq<Name>, n: Name)
    requires |names| > 1 && Distinct(names)
    ensures exists m :: m in names && m != n
  {
    assert names[0] != names[1] && names[0] in names && names[1] in names;
  }

  method MarkGroup(db: Database, names: seq<Name>, marks0: map<Name, set<Name>>) returns (marks: map<Name, set<Name>>)
    requires forall n :: n in names ==> n in db && DuplicatesOf(db, n) == (set m | m in names && m != n)
    ensures marks.Keys == marks0.Keys + (set n | n in names)
    ensures forall n :: n in marks ==> marks[n] == if n in names then DuplicatesOf(db, n) else marks0[n]
  {
    marks := marks0;
    for i := 0 to |names|
      invariant marks.Keys == marks0.Keys + (set n | n in names[..i])
      invariant forall n :: n in marks ==> marks[n] == if n in names[..i] then DuplicatesOf(db, n) else marks0[n]
    {
      assert names[..i + 1] == names[..i] + [names[i]];
      marks := marks[names[i] := set m | m in names && m != names[i]];
    }
    assert names[..|names|] == names;
  }

  /** The smallest name of a non-empty set. */
  ghost predicate IsMin(names: set<Name>, m: Name) {
    m in names && forall n :: n in names ==> LexLeq(m, n)
  }

  lemma {:induction false} MinExists(names: set<Name>)
    requires names != {}
    ensures exists m :: IsMin(names, m)
  {
    var x :| x in names;
    var rest := names - {x};
    LexTotal(x, x);
    assert forall n :: n in names ==> n == x || n in rest;
    if rest == {} {
      assert IsMin(names, x);
    } else {
      MinExists(rest);
      var m :| IsMin(rest, m);
      LexTotal(x, m);
      if LexLeq(x, m) {
        forall n | n in names ensures LexLeq(x, n) {
          if n != x { LexTransitive(x, m, n); }
        }
        assert IsMin(names, x);
      } else {
        assert IsMin(names, m);
      }
    }
  }

  ghost function Min(names: set<Name>): (m: Name)
    requires names != {}
    ensures IsMin(names, m)
  {
    MinExists(names);
    var m :| IsMin(names, m);
    m
  }

  /** `duplicate_group_representative` */
  ghost function Representative(db: Database, name: Name): (r: Name) {
    if name !in db then name
    else Min((set n | n in DuplicatesOf(db, name) && n in db) + {name})
  }

  predicate SameGroup(db: Database, a: Name, b: Name)
    requires a in db && b in db
  {
    a == b || (db[a] == db[b] && db[a] != Unidentified)
  }

  /** Two loaded descriptions share their representative exactly when they are in one group; the
      representative is a loaded member and its own representative. */
  lemma RepresentativeIdentifiesGroup(db: Database, a: Name, b: Name)
    requires a in db && b in db
    ensures Representative(db, a) == Representative(db, b) <==> SameGroup(db, a, b)
    ensures Representative(db, a) in db && SameGroup(db, a, Representative(db, a))
    ensures Representative(db, Representative(db, a)) == Representative(db, a)
    ensures forall n :: n in db && SameGroup(db, a, n) ==> LexLeq(Representative(db, a), n)
  {
    var r := Representative(db, a);
    assert SameGroup(db, a, r) && SameGroup(db, b, Representative(db, b));
    SameMembersSameMin(db, a, r);
    if SameGroup(db, a, b) {
      SameMembersSameMin(db, a, b);
    }
  }

  lemma SameMembersSameMin(db: Database, a: Name, b: Name)
    requires a in db && b in db && SameGroup(db, a, b)
    ensures Representative(db, a) == Representative(db, b)
  {
    LexAntisymmetric(Representative(db, a), Representative(db, b));
  }
}
