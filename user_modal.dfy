/** The form state of the "Add New User" modal: one nested user record, the
    dotted input names that address its leaves, the non-destructive update
    applied on every input event, and the modal that holds the record and
    hands it over on submit. */
module UserModal {
  import opened StringSplit

  datatype Option<T> = None | Some(value: T)

  /** A value as the form state holds it: a string leaf, or a plain object
      whose keys map to further values. */
  datatype Val = Str(s: string) | Obj(fields: map<string, Val>)

  /** A top-level object: the form state itself. */
  type Record = map<string, Val>

  /** The record the modal starts from: the user's top-level keys, with every
      leaf below them "" (see `InitialRecord`). */
  function Initial(): (r: Record)
    ensures r.Keys == {"name", "username", "email", "address", "phone", "website", "company"}
  {
    map[
      "name" := Str(""),
      "username" := Str(""),
      "email" := Str(""),
      "address" := Obj(map[
        "street" := Str(""),
        "suite" := Str(""),
        "city" := Str(""),
        "zipcode" := Str(""),
        "geo" := Obj(map["lat" := Str(""), "lng" := Str("")])]),
      "phone" := Str(""),
      "website" := Str(""),
      "company" := Obj(map["name" := Str(""), "catchPhrase" := Str(""), "bs" := Str("")])]
  }

  /** The `name` attributes of the form's inputs, in the order they appear. */
  const FormFields: seq<string> := [
    "name", "username", "email", "phone", "website",
    "address.street", "address.suite", "address.city", "address.zipcode",
    "address.geo.lat", "address.geo.lng",
    "company.name", "company.catchPhrase", "company.bs"]

  // ---------------------------------------------------------------------------
  // Input names

  /** Where an input event writes: a top-level key, a key inside a top-level
      object, or a key inside an object inside a top-level object. */
  datatype Path =
    | Key(key: string)
    | Member(field: string, subfield: string)
    | Nested(field: string, subfield: string, nestedField: string)

  function Segments(p: Path): (segs: seq<string>)
    ensures 1 <= |segs| <= 3
  {
    match p
    case Key(k) => [k]
    case Member(f, s) => [f, s]
    case Nested(f, s, n) => [f, s, n]
  }

  /** The input name that addresses `p`: its segments joined by dots. */
  function PathName(p: Path): string
  {
    Join(Segments(p), '.')
  }

  /** A path some input name parses to: no segment holds a dot, and the third
      segment, when there is one, is not empty. */
  predicate WellFormed(p: Path)
    ensures WellFormed(p) ==> forall i :: 0 <= i < |Segments(p)| ==> '.' !in Segments(p)[i]
  {
    match p
    case Key(k) => '.' !in k
    case Member(f, s) => '.' !in f && '.' !in s
    case Nested(f, s, n) => '.' !in f && '.' !in s && '.' !in n && n != ""
  }

  /** How an event handler reads an input name: a name without a dot is a
      top-level key; otherwise the name is split on dots, the first three
      pieces are taken, and a missing or empty third piece (falsy in
      JavaScript) selects the two-level update. */
  function ParsePath(name: string): (p: Path)
    ensures p.Key? <==> '.' !in name
    ensures WellFormed(p)
  {
    if '.' !in name then Key(name)
    else
      SplitCount(name, '.');
      SplitPiecesLackSeparator(name, '.');
      var parts := Split(name, '.');
      if |parts| >= 3 && parts[2] != "" then Nested(parts[0], parts[1], parts[2])
      else Member(parts[0], parts[1])
  }

  /** Parsing the name of a well-formed path gives the path back. */
  lemma ParseRender(p: Path)
    requires WellFormed(p)
    ensures ParsePath(PathName(p)) == p
  {
    var segs := Segments(p);
    SplitJoin(segs, '.');
    if !p.Key? {
      assert '.' in PathName(p) by {
        assert |Split(PathName(p), '.')| >= 2;
      }
    }
  }

  /** A path is well-formed exactly when it is the parse of its own name. */
  lemma WellFormedIsRoundTrip(p: Path)
    ensures WellFormed(p) <==> ParsePath(PathName(p)) == p
  {
    if WellFormed(p) {
      ParseRender(p);
    }
  }

  /** Pieces after the third are ignored. */
  lemma ExtraSegmentsIgnored(name: string)
    requires |Split(name, '.')| >= 3
    ensures ParsePath(name) == ParsePath(Join(Split(name, '.')[..3], '.'))
  {
    var parts := Split(name, '.');
    var first := parts[..3];
    SplitPiecesLackSeparator(name, '.');
    SplitJoin(first, '.');
    SplitCount(name, '.');
    SplitCount(Join(first, '.'), '.');
  }

  /** An empty third piece, as in "address.street.", takes the two-level branch. */
  lemma EmptyThirdSegment(field: string, subfield: string)
    requires '.' !in field && '.' !in subfield
    ensures ParsePath(field + "." + subfield + ".") == Member(field, subfield)
  {
    var parts := [field, subfield, ""];
    SplitJoin(parts, '.');
    calc {
      Join(parts, '.');
      field + "." + Join([subfield, ""], '.');
      field + "." + (subfield + "." + "");
      field + "." + subfield + ".";
    }
  }

  // ---------------------------------------------------------------------------
  // Reading and updating the record

  /** The string leaf reached from `v` by following `path`, if there is one. */
  function LeafAt(v: Val, path: seq<string>): Option<string>
  {
    if path == [] then (if v.Str? then Some(v.s) else None)
    else if v.Obj? && path[0] in v.fields then LeafAt(v.fields[path[0]], path[1..])
    else None
  }

  /** What an input bound to `name` displays: `formData.name`,
      `formData.address.street`, `formData.address.geo.lat` and so on. */
  function Get(rec: Record, name: string): (r: Option<string>)
    ensures r.Some? ==> Segments(ParsePath(name))[0] in rec
    ensures match ParsePath(name)
      case Key(k) =>
        k in rec && rec[k].Str? ==> r == Some(rec[k].s)
      case Member(f, s) =>
        f in rec && rec[f].Obj? && s in rec[f].fields && rec[f].fields[s].Str?
        ==> r == Some(rec[f].fields[s].s)
      case Nested(f, s, n) =>
        f in rec && rec[f].Obj? && s in rec[f].fields && rec[f].fields[s].Obj?
        && n in rec[f].fields[s].fields && rec[f].fields[s].fields[n].Str?
        ==> r == Some(rec[f].fields[s].fields[n].s)
  {
    match ParsePath(name)
    case Key(k) =>
      assert [k][1..] == [];
      assert k in rec ==> LeafAt(Obj(rec), [k]) == LeafAt(rec[k], []);
      LeafAt(Obj(rec), [k])
    case Member(f, s) =>
      assert [f, s][1..] == [s] && [s][1..] == [];
      assert f in rec && rec[f].Obj? ==> LeafAt(Obj(rec), [f, s]) == LeafAt(rec[f], [s]);
      LeafAt(Obj(rec), [f, s])
    case Nested(f, s, n) =>
      assert [f, s, n][1..] == [s, n] && [s, n][1..] == [n] && [n][1..] == [];
      assert f in rec && rec[f].Obj? ==> LeafAt(Obj(rec), [f, s, n]) == LeafAt(rec[f], [s, n]);
      assert f in rec && rec[f].Obj? && s in rec[f].fields && rec[f].fields[s].Obj? ==>
        LeafAt(rec[f], [s, n]) == LeafAt(rec[f].fields[s], [n]);
      assert (f in rec && rec[f].Obj? && s in rec[f].fields && rec[f].fields[s].Obj? &&
              n in rec[f].fields[s].fields) ==>
        LeafAt(rec[f].fields[s], [n]) == LeafAt(rec[f].fields[s].fields[n], []);
      LeafAt(Obj(rec), [f, s, n])
  }

  /** What `...obj[key]` contributes to an object literal: the fields of the
      object stored under `key`, or nothing when the key is absent (spreading
      `undefined` adds no keys). */
  function SpreadAt(obj: Record, key: string): Record
    requires key in obj ==> obj[key].Obj?
  {
    if key in obj then obj[key].fields else map[]
  }

  /** The event handler can run on `rec` for path `p` without spreading a
      string into an object and without reading a key of `undefined` (the
      three-level update looks up `subfield` inside `rec[field]`, which
      throws when `field` is absent). */
  predicate Applicable(rec: Record, p: Path)
  {
    match p
    case Key(_) => true
    case Member(f, _) => f in rec ==> rec[f].Obj?
    case Nested(f, s, _) =>
      && f in rec && rec[f].Obj?
      && (s in rec[f].fields ==> rec[f].fields[s].Obj?)
  }

  /** The new form state after an input named `name` reports `value`: a fresh
      record built by object spreads, copying every sibling at every level. */
  function Update(rec: Record, name: string, value: string): (r: Record)
    requires Applicable(rec, ParsePath(name))
    ensures Get(r, name) == Some(value)
    ensures Applicable(r, ParsePath(name))
    ensures r.Keys == rec.Keys + {Segments(ParsePath(name))[0]}
  {
    match ParsePath(name)
    case Key(k) =>
      var r := rec[k := Str(value)];
      assert [k][1..] == [];
      assert LeafAt(Obj(r), [k]) == Some(value);
      r
    case Member(f, s) =>
      var r := rec[f := Obj(SpreadAt(rec, f)[s := Str(value)])];
      assert [f, s][1..] == [s];
      assert LeafAt(r[f], [s]) == Some(value);
      assert LeafAt(Obj(r), [f, s]) == Some(value);
      r
    case Nested(f, s, n) =>
      var outer := SpreadAt(rec, f);
      var r := rec[f := Obj(outer[s := Obj(SpreadAt(outer, s)[n := Str(value)])])];
      assert [f, s, n][1..] == [s, n] && [s, n][1..] == [n];
      assert LeafAt(r[f].fields[s], [n]) == Some(value);
      assert LeafAt(r[f], [s, n]) == Some(value);
      assert LeafAt(Obj(r), [f, s, n]) == Some(value);
      r
  }

  // ---------------------------------------------------------------------------
  // The initial record and the form's input names

  /** Every leaf below `v` is the empty string. */
  predicate AllLeavesEmpty(v: Val)
  {
    match v
    case Str(t) => t == ""
    case Obj(m) => forall k :: k in m ==> AllLeavesEmpty(m[k])
  }

  /** The objects inside the initial record have exactly the user's keys. */
  lemma InitialRecord()
    ensures Initial()["address"].Obj? && Initial()["company"].Obj?
    ensures Initial()["address"].fields.Keys == {"street", "suite", "city", "zipcode", "geo"}
    ensures Initial()["address"].fields["geo"].Obj?
    ensures Initial()["address"].fields["geo"].fields.Keys == {"lat", "lng"}
    ensures Initial()["company"].fields.Keys == {"name", "catchPhrase", "bs"}
  {
  }

  /** Every leaf of the initial record is "". */
  lemma InitialLeavesEmpty()
    ensures AllLeavesEmpty(Obj(Initial()))
  {
  }

  /** `name` is the input name of the well-formed path `p`, so parsing it gives `p`
      and it resolves to the empty leaf of the initial record. */
  lemma NamesInitialLeaf(p: Path, name: string)
    requires WellFormed(p) && PathName(p) == name
    requires LeafAt(Obj(Initial()), Segments(p)) == Some("")
    ensures ParsePath(name) == p && PathName(ParsePath(name)) == name
    ensures Get(Initial(), name) == Some("")
  {
    ParseRender(p);
  }

  /** The paths behind the form's input names, in the same order. */
  const FormPaths: seq<Path> := [
    Key("name"), Key("username"), Key("email"), Key("phone"), Key("website"),
    Member("address", "street"), Member("address", "suite"), Member("address", "city"),
    Member("address", "zipcode"),
    Nested("address", "geo", "lat"), Nested("address", "geo", "lng"),
    Member("company", "name"), Member("company", "catchPhrase"), Member("company", "bs")]

  /** The `i`-th input name of the form is the dotted name of the `i`-th
      path, and that path reaches an empty leaf of the initial record. */
  predicate FormPathOk(i: nat)
  {
    && |FormPaths| == |FormFields| && i < |FormFields|
    && WellFormed(FormPaths[i]) && PathName(FormPaths[i]) == FormFields[i]
    && LeafAt(Obj(Initial()), Segments(FormPaths[i])) == Some("")
  }

  /** The input named "address.street". */
  lemma FormPathOk5()
    ensures FormPathOk(5)
  {
    assert FormPaths[5] == Member("address", "street");
    assert PathName(Member("address", "street")) == "address" + "." + "street";
    assert "address" + "." + "street" == "address.street";
  }

  /** The input named "address.suite". */
  lemma FormPathOk6()
    ensures FormPathOk(6)
  {
    assert FormPaths[6] == Member("address", "suite");
    assert PathName(Member("address", "suite")) == "address" + "." + "suite";
    assert "address" + "." + "suite" == "address.suite";
  }

  /** The input named "address.city". */
  lemma FormPathOk7()
    ensures FormPathOk(7)
  {
    assert FormPaths[7] == Member("address", "city");
    assert PathName(Member("address", "city")) == "address" + "." + "city";
    assert "address" + "." + "city" == "address.city";
  }

  /** The input named "address.zipcode". */
  lemma FormPathOk8()
    ensures FormPathOk(8)
  {
    assert FormPaths[8] == Member("address", "zipcode");
    assert PathName(Member("address", "zipcode")) == "address" + "." + "zipcode";
    assert "address" + "." + "zipcode" == "address.zipcode";
  }

  /** The input named "address.geo.lat". */
  lemma FormPathOk9()
    ensures FormPathOk(9)
  {
    assert FormPaths[9] == Nested("address", "geo", "lat");
    assert PathName(Nested("address", "geo", "lat")) == "address" + "." + "geo" + "." + "lat";
    assert "address" + "." + "geo" + "." + "lat" == "address.geo.lat";
  }

  /** The input named "address.geo.lng". */
  lemma FormPathOk10()
    ensures FormPathOk(10)
  {
    assert FormPaths[10] == Nested("address", "geo", "lng");
    assert PathName(Nested("address", "geo", "lng")) == "address" + "." + "geo" + "." + "lng";
    assert "address" + "." + "geo" + "." + "lng" == "address.geo.lng";
  }

  /** The input named "company.name". */
  lemma FormPathOk11()
    ensures FormPathOk(11)
  {
    assert FormPaths[11] == Member("company", "name");
    assert PathName(Member("company", "name")) == "company" + "." + "name";
    assert "company" + "." + "name" == "company.name";
  }

  /** The input named "company.catchPhrase". */
  lemma FormPathOk12()
    ensures FormPathOk(12)
  {
    assert FormPaths[12] == Member("company", "catchPhrase");
    assert PathName(Member("company", "catchPhrase")) == "company" + "." + "catchPhrase";
    assert "company" + "." + "catchPhrase" == "company.catchPhrase";
  }

  /** The input named "company.bs". */
  lemma FormPathOk13()
    ensures FormPathOk(13)
  {
    assert FormPaths[13] == Member("company", "bs");
    assert PathName(Member("company", "bs")) == "company" + "." + "bs";
    assert "company" + "." + "bs" == "company.bs";
  }

  lemma FormPathAt(i: nat)
    requires i < |FormFields|
    ensures FormPathOk(i)
  {
    if i < 5 {
      // A top-level key: the name is the key itself.
    } else if i == 5 {
      FormPathOk5();
    } else if i == 6 {
      FormPathOk6();
    } else if i == 7 {
      FormPathOk7();
    } else if i == 8 {
      FormPathOk8();
    } else if i == 9 {
      FormPathOk9();
    } else if i == 10 {
      FormPathOk10();
    } else if i == 11 {
      FormPathOk11();
    } else if i == 12 {
      FormPathOk12();
    } else {
      FormPathOk13();
    }
  }

  /** Every input name of the form is the canonical name of its path, and
      addresses an existing leaf of the initial record. */
  lemma FormFieldsResolve()
    ensures forall name :: name in FormFields ==>
      PathName(ParsePath(name)) == name && Get(Initial(), name) == Some("")
  {
    forall name | name in FormFields
      ensures PathName(ParsePath(name)) == name && Get(Initial(), name) == Some("")
    {
      var i :| 0 <= i < |FormFields| && FormFields[i] == name;
      FormPathAt(i);
      NamesInitialLeaf(FormPaths[i], name);
    }
  }

  // ---------------------------------------------------------------------------
  // Laws of one update

  /** A name without a dot replaces that top-level key and nothing else. */
  lemma UpdateKeyFrame(rec: Record, name: string, value: string)
    requires '.' !in name
    ensures var r := Update(rec, name, value);
      && r.Keys == rec.Keys + {name}
      && r[name] == Str(value)
      && forall k :: k in rec && k != name ==> r[k] == rec[k]
  {
  }

  /** A two-piece name replaces one key of one top-level object, keeping that
      object's other keys and every other top-level key. */
  lemma UpdateMemberFrame(rec: Record, name: string, value: string, field: string, subfield: string)
    requires ParsePath(name) == Member(field, subfield)
    requires Applicable(rec, Member(field, subfield))
    ensures var r := Update(rec, name, value); var before := SpreadAt(rec, field);
      && r.Keys == rec.Keys + {field}
      && r[field].Obj?
      && r[field].fields.Keys == before.Keys + {subfield}
      && r[field].fields[subfield] == Str(value)
      && (forall s :: s in before && s != subfield ==> r[field].fields[s] == before[s])
      && (forall k :: k in rec && k != field ==> r[k] == rec[k])
  {
  }

  /** A three-piece name replaces one key of an object inside a top-level
      object, keeping its siblings at both levels and every other top-level key. */
  lemma UpdateNestedFrame(rec: Record, name: string, value: string,
                          field: string, subfield: string, nestedField: string)
    requires ParsePath(name) == Nested(field, subfield, nestedField)
    requires Applicable(rec, Nested(field, subfield, nestedField))
    ensures var r := Update(rec, name, value);
      var outer := rec[field].fields; var inner := SpreadAt(outer, subfield);
      && r.Keys == rec.Keys
      && r[field].Obj?
      && r[field].fields.Keys == outer.Keys + {subfield}
      && r[field].fields[subfield].Obj?
      && r[field].fields[subfield].fields.Keys == inner.Keys + {nestedField}
      && r[field].fields[subfield].fields[nestedField] == Str(value)
      && (forall n :: n in inner && n != nestedField ==> r[field].fields[subfield].fields[n] == inner[n])
      && (forall s :: s in outer && s != subfield ==> r[field].fields[s] == outer[s])
      && (forall k :: k in rec && k != field ==> r[k] == rec[k])
  {
  }

  /** Two paths part ways: at some depth both have a piece, and the pieces differ. */
  predicate Disjoint(a: seq<string>, b: seq<string>)
  {
    |a| > 0 && |b| > 0 && (a[0] != b[0] || Disjoint(a[1..], b[1..]))
  }

  /** A one-piece path parts ways with another only by a different first piece. */
  lemma DisjointHead(a: seq<string>, b: seq<string>)
    requires Disjoint(a, b) && |a| == 1
    ensures a[0] != b[0]
  {
    assert !Disjoint(a[1..], b[1..]);
  }

  /** Paths that part ways and agree on their first piece part ways after it. */
  lemma DisjointTail(a: seq<string>, b: seq<string>)
    requires Disjoint(a, b) && a[0] == b[0]
    ensures |a| > 1 && |b| > 1 && Disjoint(a[1..], b[1..])
  {
  }

  /** Reading any path that parts ways with the updated one sees the old leaf. */
  lemma UpdateKeepsOtherLeaves(rec: Record, name: string, value: string, path: seq<string>)
    requires Applicable(rec, ParsePath(name))
    requires Disjoint(Segments(ParsePath(name)), path)
    ensures LeafAt(Obj(Update(rec, name, value)), path) == LeafAt(Obj(rec), path)
  {
    var r := Update(rec, name, value);
    match ParsePath(name)
    case Key(k) =>
      DisjointHead([k], path);
    case Member(f, s) =>
      assert [f, s][1..] == [s];
      if path[0] == f {
        DisjointTail([f, s], path);
        DisjointHead([s], path[1..]);
        assert LeafAt(Obj(r), path) == LeafAt(r[f], path[1..]);
        if f in rec {
          assert LeafAt(Obj(rec), path) == LeafAt(rec[f], path[1..]);
        }
      }
    case Nested(f, s, n) =>
      assert [f, s, n][1..] == [s, n] && [s, n][1..] == [n];
      if path[0] == f {
        var outer := rec[f].fields;
        DisjointTail([f, s, n], path);
        assert LeafAt(Obj(r), path) == LeafAt(r[f], path[1..]);
        assert LeafAt(Obj(rec), path) == LeafAt(rec[f], path[1..]);
        if path[1] == s {
          DisjointTail([s, n], path[1..]);
          assert path[1..][1..] == path[2..];
          DisjointHead([n], path[2..]);
          assert LeafAt(r[f], path[1..]) == LeafAt(r[f].fields[s], path[2..]);
          if s in outer {
            assert LeafAt(rec[f], path[1..]) == LeafAt(outer[s], path[2..]);
          }
        }
      }
  }

  /** Writing the same name twice leaves only the second value. */
  lemma LastWriteWins(rec: Record, name: string, first: string, second: string)
    requires Applicable(rec, ParsePath(name))
    ensures Update(Update(rec, name, first), name, second) == Update(rec, name, second)
  {
    var once := Update(rec, name, first);
    match ParsePath(name)
    case Key(k) =>
      assert rec[k := Str(first)][k := Str(second)] == rec[k := Str(second)];
    case Member(f, s) =>
      var outer := SpreadAt(rec, f);
      assert SpreadAt(once, f) == outer[s := Str(first)];
      assert outer[s := Str(first)][s := Str(second)] == outer[s := Str(second)];
      assert once[f := Obj(outer[s := Str(second)])] == rec[f := Obj(outer[s := Str(second)])];
    case Nested(f, s, n) =>
      var outer := SpreadAt(rec, f);
      var inner := SpreadAt(outer, s);
      assert SpreadAt(once, f) == outer[s := Obj(inner[n := Str(first)])];
      assert SpreadAt(SpreadAt(once, f), s) == inner[n := Str(first)];
      assert inner[n := Str(first)][n := Str(second)] == inner[n := Str(second)];
      var twice := outer[s := Obj(inner[n := Str(first)])][s := Obj(inner[n := Str(second)])];
      assert twice == outer[s := Obj(inner[n := Str(second)])];
      assert once[f := Obj(twice)] == rec[f := Obj(twice)];
  }

  /** Repeating an event changes nothing. */
  lemma UpdateIdempotent(rec: Record, name: string, value: string)
    requires Applicable(rec, ParsePath(name))
    ensures Update(Update(rec, name, value), name, value) == Update(rec, name, value)
  {
    LastWriteWins(rec, name, value, value);
  }

  // ---------------------------------------------------------------------------
  // Shape

  /** The key structure of a value, with the strings forgotten. */
  datatype Shape = Leaf | Node(children: map<string, Shape>)

  function ShapeOf(v: Val): Shape
  {
    match v
    case Str(_) => Leaf
    case Obj(m) => Node(map k | k in m :: ShapeOf(m[k]))
  }

  /** The record has the user shape: the keys of the initial record at every
      level, with strings exactly where it has strings. */
  predicate UserShaped(rec: Record)
  {
    ShapeOf(Obj(rec)) == ShapeOf(Obj(Initial()))
  }

  /** Replacing one entry by a value of the same shape keeps the object's shape. */
  lemma ShapeReplace(m: Record, k: string, w: Val)
    requires k in m && ShapeOf(m[k]) == ShapeOf(w)
    ensures ShapeOf(Obj(m[k := w])) == ShapeOf(Obj(m))
  {
    var m' := m[k := w];
    assert (map j | j in m' :: ShapeOf(m'[j])) == (map j | j in m :: ShapeOf(m[j]));
  }

  /** Two objects of one shape have the same keys, and their entries have the same shapes. */
  lemma ShapeEntries(a: Record, b: Record)
    requires ShapeOf(Obj(a)) == ShapeOf(Obj(b))
    ensures a.Keys == b.Keys
    ensures forall k :: k in a ==> ShapeOf(a[k]) == ShapeOf(b[k])
  {
    var ma := map j | j in a :: ShapeOf(a[j]);
    var mb := map j | j in b :: ShapeOf(b[j]);
    assert ma == mb;
    assert ma.Keys == a.Keys && mb.Keys == b.Keys;
    forall k | k in a ensures ShapeOf(a[k]) == ShapeOf(b[k]) {
      assert ma[k] == mb[k];
    }
  }

  /** Values of one shape have leaves at the same paths. */
  lemma {:induction false} SameShapeSameLeaves(v: Val, w: Val, path: seq<string>)
    requires ShapeOf(v) == ShapeOf(w)
    ensures LeafAt(v, path).Some? <==> LeafAt(w, path).Some?
    decreases |path|
  {
    if path != [] && v.Obj? {
      ShapeEntries(v.fields, w.fields);
      if path[0] in v.fields {
        SameShapeSameLeaves(v.fields[path[0]], w.fields[path[0]], path[1..]);
      }
    }
  }

  /** An event whose name addresses an existing leaf can be applied, and it
      keeps the shape of the record. */
  lemma {:induction false} UpdateLeafKeepsShape(rec: Record, name: string, value: string)
    requires Get(rec, name).Some?
    ensures Applicable(rec, ParsePath(name))
    ensures ShapeOf(Obj(Update(rec, name, value))) == ShapeOf(Obj(rec))
  {
    match ParsePath(name)
    case Key(k) =>
      assert [k][1..] == [];
      assert LeafAt(Obj(rec), [k]).Some?;
      assert rec[k].Str?;
      ShapeReplace(rec, k, Str(value));
    case Member(f, s) =>
      assert [f, s][1..] == [s] && [s][1..] == [];
      assert LeafAt(Obj(rec), [f, s]).Some?;
      assert LeafAt(rec[f], [s]).Some?;
      var outer := rec[f].fields;
      assert LeafAt(outer[s], []).Some?;
      assert outer[s].Str?;
      ShapeReplace(outer, s, Str(value));
      ShapeReplace(rec, f, Obj(outer[s := Str(value)]));
    case Nested(f, s, n) =>
      assert [f, s, n][1..] == [s, n] && [s, n][1..] == [n] && [n][1..] == [];
      assert LeafAt(Obj(rec), [f, s, n]).Some?;
      assert LeafAt(rec[f], [s, n]).Some?;
      var outer := rec[f].fields;
      assert LeafAt(outer[s], [n]).Some?;
      var inner := outer[s].fields;
      assert LeafAt(inner[n], []).Some?;
      assert inner[n].Str?;
      ShapeReplace(inner, n, Str(value));
      ShapeReplace(outer, s, Obj(inner[n := Str(value)]));
      ShapeReplace(rec, f, Obj(outer[s := Obj(inner[n := Str(value)])]));
  }

  /** On a record of the user shape, every input of the form can fire, and
      the record keeps the user shape. */
  lemma FormEventKeepsShape(rec: Record, name: string, value: string)
    requires UserShaped(rec) && name in FormFields
    ensures Applicable(rec, ParsePath(name))
    ensures UserShaped(Update(rec, name, value))
  {
    FormFieldsResolve();
    SameShapeSameLeaves(Obj(rec), Obj(Initial()), Segments(ParsePath(name)));
    UpdateLeafKeepsShape(rec, name, value);
  }

  /** On a record of the user shape, every input of the form can fire. */
  lemma FormEventsApplicable(rec: Record)
    requires UserShaped(rec)
    ensures forall name :: name in FormFields ==> Applicable(rec, ParsePath(name))
  {
    forall name | name in FormFields
      ensures Applicable(rec, ParsePath(name))
    {
      FormEventKeepsShape(rec, name, "");
    }
  }

  /** An event on any path that reaches an existing leaf can run. */
  lemma LeafApplicable(rec: Record, p: Path)
    requires WellFormed(p) && LeafAt(Obj(rec), Segments(p)).Some?
    ensures Applicable(rec, p)
  {
    ParseRender(p);
    UpdateLeafKeepsShape(rec, PathName(p), "");
  }

  /** A record of the user shape has the initial record's keys at every level,
      and every input of the form addresses one of its leaves. */
  lemma UserShapedKeys(rec: Record)
    requires UserShaped(rec)
    ensures rec.Keys == Initial().Keys
    ensures rec["address"].Obj? && rec["company"].Obj?
    ensures rec["address"].fields.Keys == {"street", "suite", "city", "zipcode", "geo"}
    ensures rec["address"].fields["geo"].Obj?
    ensures rec["address"].fields["geo"].fields.Keys == {"lat", "lng"}
    ensures rec["company"].fields.Keys == {"name", "catchPhrase", "bs"}
    ensures forall name :: name in FormFields ==> Get(rec, name).Some?
  {
    InitialRecord();
    var init := Initial();
    ShapeEntries(rec, init);
    ShapeEntries(rec["address"].fields, init["address"].fields);
    ShapeEntries(rec["address"].fields["geo"].fields, init["address"].fields["geo"].fields);
    ShapeEntries(rec["company"].fields, init["company"].fields);
    FormFieldsResolve();
    forall name | name in FormFields ensures Get(rec, name).Some? {
      SameShapeSameLeaves(Obj(rec), Obj(init), Segments(ParsePath(name)));
    }
  }

  /** Two different leaves part ways somewhere: no leaf lies below another. */
  lemma {:induction false} LeavesDisjoint(v: Val, a: seq<string>, b: seq<string>)
    requires LeafAt(v, a).Some? && LeafAt(v, b).Some? && a != b
    ensures Disjoint(a, b)
    decreases |a|
  {
    if a[0] == b[0] {
      assert a == [a[0]] + a[1..] && b == [b[0]] + b[1..];
      LeavesDisjoint(v.fields[a[0]], a[1..], b[1..]);
    }
  }

  /** On a record of the user shape, an event on one input leaves what every
      other input shows unchanged. */
  lemma FormFieldsIndependent(rec: Record, name: string, value: string, other: string)
    requires UserShaped(rec) && name in FormFields && other in FormFields && name != other
    ensures Applicable(rec, ParsePath(name))
    ensures Get(Update(rec, name, value), other) == Get(rec, other)
  {
    UserShapedKeys(rec);
    FormFieldsResolve();
    FormEventKeepsShape(rec, name, value);
    LeavesDisjoint(Obj(rec), Segments(ParsePath(name)), Segments(ParsePath(other)));
    UpdateKeepsOtherLeaves(rec, name, value, Segments(ParsePath(other)));
  }

  // ---------------------------------------------------------------------------
  // A stream of input events

  datatype Event = Change(name: string, value: string)

  /** The form state after the events, in arrival order, starting from `rec`. */
  function Replay(rec: Record, events: seq<Event>): (r: Record)
    requires UserShaped(rec)
    requires forall i :: 0 <= i < |events| ==> events[i].name in FormFields
    ensures UserShaped(r)
    decreases |events|
  {
    if events == [] then rec
    else
      FormEventKeepsShape(rec, events[0].name, events[0].value);
      Replay(Update(rec, events[0].name, events[0].value), events[1..])
  }

  /** The value of the last event on `name`, or `prior` when there is none. */
  function LastWritten(events: seq<Event>, name: string, prior: Option<string>): Option<string>
    decreases |events|
  {
    if events == [] then prior
    else LastWritten(events[1..], name, if events[0].name == name then Some(events[0].value) else prior)
  }

  /** After any stream of form events, every input shows the value of its own
      last event, or what it showed before when it had none. */
  lemma {:induction false} ReplayShowsLastWrite(rec: Record, events: seq<Event>, name: string)
    requires UserShaped(rec)
    requires forall i :: 0 <= i < |events| ==> events[i].name in FormFields
    requires name in FormFields
    ensures Get(Replay(rec, events), name) == LastWritten(events, name, Get(rec, name))
    decreases |events|
  {
    if events != [] {
      var e := events[0];
      FormEventKeepsShape(rec, e.name, e.value);
      var next := Update(rec, e.name, e.value);
      if e.name != name {
        FormFieldsIndependent(rec, e.name, e.value, name);
      }
      assert Get(next, name) == if e.name == name then Some(e.value) else Get(rec, name);
      ReplayShowsLastWrite(next, events[1..], name);
    }
  }

  /** Starting from the initial record, any stream of form events keeps the
      initial keys at every level. */
  lemma ReplayKeepsKeys(events: seq<Event>)
    requires forall i :: 0 <= i < |events| ==> events[i].name in FormFields
    ensures UserShaped(Initial())
    ensures var r := Replay(Initial(), events);
      && r.Keys == Initial().Keys
      && r["address"].Obj? && r["company"].Obj?
      && r["address"].fields.Keys == {"street", "suite", "city", "zipcode", "geo"}
      && r["address"].fields["geo"].Obj?
      && r["address"].fields["geo"].fields.Keys == {"lat", "lng"}
      && r["company"].fields.Keys == {"name", "catchPhrase", "bs"}
  {
    UserShapedKeys(Replay(Initial(), events));
  }

  // ---------------------------------------------------------------------------
  // The modal

  /** A call the modal makes to the callbacks its caller passed in. */
  datatype Call = OnSubmit(user: Record) | OnClose

  class Modal {
    /** The component-held form state. */
    var formData: Record
    /** The callbacks invoked so far, oldest first. */
    var calls: seq<Call>

    /** The form state has the user shape, so every input of the form can fire. */
    ghost predicate Valid()
      reads this
    {
      && UserShaped(formData)
      && forall name :: name in FormFields ==> Applicable(formData, ParsePath(name))
    }

    constructor ()
      ensures formData == Initial() && calls == []
      ensures Valid()
    {
      formData := Initial();
      calls := [];
      new;
      FormEventsApplicable(formData);
    }

    /** An input reports `value` under `name`: the form state is replaced by
        the updated record. */
    method HandleInputChange(name: string, value: string)
      requires Applicable(formData, ParsePath(name)) || (Valid() && name in FormFields)
      modifies this
      ensures formData == Update(old(formData), name, value)
      ensures calls == old(calls)
      ensures old(Valid()) && name in FormFields ==> Valid()
    {
      ghost var keep := name in FormFields && Valid();
      if keep {
        FormEventKeepsShape(formData, name, value);
      }
      formData := Update(formData, name, value);
      if keep {
        FormEventsApplicable(formData);
      }
    }

    /** The form is submitted: the current record goes to `onSubmit` as it is,
        with no validation, and then `onClose` is called. */
    method HandleSubmit()
      modifies this
      ensures formData == old(formData)
      ensures calls == old(calls) + [OnSubmit(old(formData)), OnClose]
      ensures old(Valid()) ==> Valid()
    {
      calls := calls + [OnSubmit(formData), OnClose];
    }
  }
}
