/** The three index migrations as plans. */
module Migrations {
  import opened IndexMigration
  import opened IndexSpec
  import opened MigrationRun
  import opened StableJson
  import opened Wrappers

  const ONE: Text := [49]
  const MINUS_ONE: Text := [45, 49]

  function Up1(field: string): KeyPart { KeyPart(Ascii(field), ONE) }

  function Down1(field: string): KeyPart { KeyPart(Ascii(field), MINUS_ONE) }

  /** An index with nothing declared but its key. */
  function Plain(coll: string, name: string, key: seq<KeyPart>): Index {
    Index(Id(coll, name), Spec(key, None, false, false, false, None, None))
  }

  /** One entry of 20261101000000: a field and a time gain the tie-breaking _id. */
  function TieBreak(coll: string, field: string, time: string): Replacement {
    Replacement(
      Plain(coll, field + "_1_" + time + "_-1__id_-1", [Up1(field), Down1(time), Down1("_id")]),
      Plain(coll, field + "_1_" + time + "_-1", [Up1(field), Down1(time)]))
  }

  /** 20261101000000: filter and tie-break compound indexes. */
  function TieBreaks(): Plan {
    Plan([],
         [TieBreak("firealarms", "status", "occurredAt"), TieBreak("firealarms", "handler", "occurredAt"),
          TieBreak("firealarms", "reporter.userId", "occurredAt"),
          TieBreak("firealarms", "location.building", "occurredAt"),
          TieBreak("firealarms", "alarmType", "occurredAt"), TieBreak("inspections", "status", "planStartTime")],
         [])
  }

  /** 20260928000000: the case-insensitive username index, with a declared collation. */
  function UsernameIndex(): Plan {
    Plan([Index(Id("auditlogs", "username_ci_timestamp"),
                Spec([Up1("username"), Down1("timestamp")],
                     Some([Field(Ascii("locale"), Str(Ascii("en"))), Field(Ascii("strength"), Number([50]))]),
                     false, false, false, None, None))], [], [])
  }

  /** What tells two of these indexes apart at a glance. */
  datatype Shape = Shape(collLength: int, initial: int, nameLength: int, keyInitial: int, fields: int)

  predicate HasShape(x: Index, s: Shape) {
    && x.id.name != "" && x.spec.key != [] && x.spec.key[0].field != []
    && |x.id.coll| == s.collLength && |x.id.name| == s.nameLength && |x.spec.key| == s.fields
    && x.id.name[0] as int == s.initial && x.spec.key[0].field[0] as int == s.keyInitial
  }

  predicate Differ(s: Shape, t: Shape) {
    || s.collLength != t.collLength
    || (s.initial != t.initial && s.keyInitial != t.keyInitial)
    || (s.nameLength != t.nameLength && s.fields != t.fields)
  }

  lemma DifferApart(x: Index, s: Shape, y: Index, t: Shape)
    requires HasShape(x, s) && HasShape(y, t) && Differ(s, t) && CleanKey(x.spec.key) && CleanKey(y.spec.key)
    ensures Apart(x, y) && Apart(y, x)
  {
    if x.id.coll == y.id.coll && KeySig(x.spec.key) == KeySig(y.spec.key) {
      KeySigInjective(x.spec.key, y.spec.key);
    }
  }

  ghost predicate Fits(x: Index, s: Shape) {
    HasShape(x, s) && CleanKey(x.spec.key) && ValidSpec(x.spec)
  }

  lemma ShapesApart(xs: seq<Index>, shapes: seq<Shape>)
    requires |xs| == |shapes| && forall i | 0 <= i < |xs| :: Fits(xs[i], shapes[i])
    requires forall i, j | 0 <= i < j < |xs| :: Differ(shapes[i], shapes[j])
    ensures AllApart(xs) && forall x :: x in xs ==> ValidSpec(x.spec)
  {
    hide HasShape;
    hide CleanKey;
    hide ValidSpec;
    hide Apart;
    forall i, j | 0 <= i < j < |xs| ensures Apart(xs[i], xs[j]) && Apart(xs[j], xs[i]) {
      DifferApart(xs[i], shapes[i], xs[j], shapes[j]);
    }
  }

  lemma AsciiClean(s: string)
    requires forall i | 0 <= i < |s| :: s[i] != ':' && s[i] != '|' && (s[i] as int) < 128
    ensures CleanText(Ascii(s))
    ensures s != "" ==> Ascii(s)[0] as int == s[0] as int
  {
  }

  predicate CleanName(s: string) {
    s != "" && forall i | 0 <= i < |s| :: s[i] != ':' && s[i] != '|' && (s[i] as int) < 128
  }

  lemma DirectionsClean()
    ensures CleanText(ONE) && CleanText(MINUS_ONE)
  {
  }

  lemma TieBreakFits(coll: string, field: string, time: string)
    requires CleanName(field) && CleanName(time)
    ensures Fits(TieBreak(coll, field, time).target,
                 Shape(|coll|, field[0] as int, |field| + |time| + 13, field[0] as int, 3))
    ensures Fits(TieBreak(coll, field, time).former,
                 Shape(|coll|, field[0] as int, |field| + |time| + 6, field[0] as int, 2))
  {
    hide Ascii;
    hide CleanText;
    AsciiClean(field);
    AsciiClean(time);
    AsciiClean("_id");
    DirectionsClean();
    var r := TieBreak(coll, field, time);
    assert r.target.spec.key == [Up1(field), Down1(time), Down1("_id")];
    assert r.former.spec.key == [Up1(field), Down1(time)];
    assert |r.target.id.name| == |field| + |time| + 13 && |r.former.id.name| == |field| + |time| + 6;
  }

  /** Collections, fields and times of the six entries. */
  const ENTRIES: seq<(string, string, string)> :=
    [("firealarms", "status", "occurredAt"), ("firealarms", "handler", "occurredAt"),
     ("firealarms", "reporter.userId", "occurredAt"), ("firealarms", "location.building", "occurredAt"),
     ("firealarms", "alarmType", "occurredAt"), ("inspections", "status", "planStartTime")]

  /** The shapes of the targets and, behind them, of the formers. */
  const SHAPES := [Shape(10, 115, 29, 115, 3), Shape(10, 104, 30, 104, 3), Shape(10, 114, 38, 114, 3),
                   Shape(10, 108, 40, 108, 3), Shape(10, 97, 32, 97, 3), Shape(11, 115, 32, 115, 3),
                   Shape(10, 115, 22, 115, 2), Shape(10, 104, 23, 104, 2), Shape(10, 114, 31, 114, 2),
                   Shape(10, 108, 33, 108, 2), Shape(10, 97, 25, 97, 2), Shape(11, 115, 25, 115, 2)]

  lemma EntryShapes(i: nat)
    requires i < 6
    ensures ENTRIES[i].1 != ""
    ensures SHAPES[i] == Shape(|ENTRIES[i].0|, ENTRIES[i].1[0] as int, |ENTRIES[i].1| + |ENTRIES[i].2| + 13,
                               ENTRIES[i].1[0] as int, 3)
    ensures SHAPES[i + 6] == Shape(|ENTRIES[i].0|, ENTRIES[i].1[0] as int, |ENTRIES[i].1| + |ENTRIES[i].2| + 6,
                                   ENTRIES[i].1[0] as int, 2)
  {
  }

  lemma EntriesClean(i: nat)
    requires i < 6
    ensures CleanName(ENTRIES[i].1) && CleanName(ENTRIES[i].2)
  {
    assert CleanName("status") && CleanName("handler") && CleanName("alarmType");
    assert CleanName("reporter.userId") && CleanName("location.building");
    assert CleanName("occurredAt") && CleanName("planStartTime");
    hide CleanName;
  }

  lemma Sizes()
    ensures |ENTRIES| == 6 && |SHAPES| == 12
  {
  }

  lemma TieBreaksAt(i: nat)
    requires i < 6
    ensures |TieBreaks().swaps| == 6 && TieBreaks().creates == [] && TieBreaks().drops == []
    ensures TieBreaks().swaps[i] == TieBreak(ENTRIES[i].0, ENTRIES[i].1, ENTRIES[i].2)
  {
    hide TieBreak;
  }

  lemma ShapesDiffer()
    ensures forall i, j | 0 <= i < j < |SHAPES| :: Differ(SHAPES[i], SHAPES[j])
  {
  }

  /** The theorems about runs apply to the six replacements of 20261101000000. */
  lemma TieBreaksWellFormed()
    ensures WellFormedPlan(TieBreaks())
  {
    hide *;
    var plan := TieBreaks();
    TieBreaksAt(0);
    Sizes();
    var all := Declared(plan) + Removed(plan);
    AllOfSwaps(plan);
    forall k | 0 <= k < 12 ensures Fits(all[k], SHAPES[k]) {
      var i := if k < 6 then k else k - 6;
      TieBreaksAt(i);
      EntryShapes(i);
      EntriesClean(i);
      TieBreakFits(ENTRIES[i].0, ENTRIES[i].1, ENTRIES[i].2);
    }
    ShapesDiffer();
    ShapesApart(all, SHAPES);
    FitPlan(plan);
  }

  lemma AllOfSwaps(plan: Plan)
    requires plan.creates == [] && plan.drops == []
    ensures |Declared(plan)| == |Removed(plan)| == |plan.swaps|
    ensures forall i | 0 <= i < |plan.swaps| ::
            Declared(plan)[i] == plan.swaps[i].target && Removed(plan)[i] == plan.swaps[i].former
  {
    NothingElse(plan.creates, Targets(plan.swaps));
    NothingElse(plan.drops, Formers(plan.swaps));
  }

  lemma NothingElse<T>(none: seq<T>, xs: seq<T>)
    requires none == []
    ensures none + xs == xs && xs + none == xs
  {
  }

  lemma FitPlan(plan: Plan)
    requires AllApart(Declared(plan) + Removed(plan))
    requires forall x :: x in Declared(plan) + Removed(plan) ==> ValidSpec(x.spec)
    ensures WellFormedPlan(plan)
  {
    hide Declared;
    hide Removed;
    hide ValidSpec;
  }

  // ---------------------------------------------------------------- 20261021000000

  /** An index of 20261021000000: collection, name, fields and whether each ascends. */
  datatype Entry = Entry(coll: string, name: string, fields: seq<(string, bool)>)

  function KeyOf(fields: seq<(string, bool)>): (key: seq<KeyPart>)
    ensures |key| == |fields| && forall i | 0 <= i < |key| ::
            key[i] == if fields[i].1 then Up1(fields[i].0) else Down1(fields[i].0)
  {
    seq(|fields|, i requires 0 <= i < |fields| => if fields[i].1 then Up1(fields[i].0) else Down1(fields[i].0))
  }

  function IndexOf(e: Entry): Index { Plain(e.coll, e.name, KeyOf(e.fields)) }

  const ID_UP := ("_id", true)
  const ID_DOWN := ("_id", false)

  /** What is created, what replaces, what is replaced and what is dropped, in this order. */
  const QUERY: seq<Entry> :=
    [Entry("firedevices", "status_1_deviceCode_1", [("status", true), ("deviceCode", true)]),
     Entry("inspections", "createdBy_1_planStartTime_-1__id_-1",
           [("createdBy", true), ("planStartTime", false), ID_DOWN]),
     Entry("firedevices", "nextCheckDate_1_installDate_1__id_1",
           [("nextCheckDate", true), ("installDate", true), ID_UP]),
     Entry("inspections", "assignedTo_1_planStartTime_-1__id_-1",
           [("assignedTo", true), ("planStartTime", false), ID_DOWN]),
     Entry("firealarms", "level_1_occurredAt_-1__id_-1", [("level", true), ("occurredAt", false), ID_DOWN]),
     Entry("firedevices", "nextCheckDate_1", [("nextCheckDate", true)]),
     Entry("inspections", "assignedTo_1", [("assignedTo", true)]),
     Entry("firealarms", "level_1", [("level", true)]),
     Entry("usersessions", "status_1", [("status", true)])]

  const QUERY_SHAPES := [Shape(11, 115, 21, 115, 2), Shape(11, 99, 35, 99, 3), Shape(11, 110, 35, 110, 3),
                         Shape(11, 97, 36, 97, 3), Shape(10, 108, 28, 108, 3), Shape(11, 110, 15, 110, 1),
                         Shape(11, 97, 12, 97, 1), Shape(10, 108, 7, 108, 1), Shape(12, 115, 8, 115, 1)]

  /** 20261021000000: query performance indexes. */
  function QueryIndexes(): Plan {
    Plan([IndexOf(QUERY[0]), IndexOf(QUERY[1])],
         [Replacement(IndexOf(QUERY[2]), IndexOf(QUERY[5])), Replacement(IndexOf(QUERY[3]), IndexOf(QUERY[6])),
          Replacement(IndexOf(QUERY[4]), IndexOf(QUERY[7]))],
         [IndexOf(QUERY[8])])
  }

  lemma QueryAt(k: nat)
    requires k < 9
    ensures |QUERY| == |Declared(QueryIndexes()) + Removed(QueryIndexes())| == 9
    ensures (Declared(QueryIndexes()) + Removed(QueryIndexes()))[k] == IndexOf(QUERY[k])
  {
    hide IndexOf;
  }

  predicate CleanEntry(e: Entry) {
    e.name != "" && e.fields != [] && forall i | 0 <= i < |e.fields| :: CleanName(e.fields[i].0)
  }

  function ShapeOf(e: Entry): Shape
    requires CleanEntry(e)
  {
    Shape(|e.coll|, e.name[0] as int, |e.name|, e.fields[0].0[0] as int, |e.fields|)
  }

  lemma EntryFits(e: Entry)
    requires CleanEntry(e)
    ensures Fits(IndexOf(e), ShapeOf(e))
  {
    hide Ascii;
    hide CleanText;
    DirectionsClean();
    forall i | 0 <= i < |e.fields| ensures CleanText(Ascii(e.fields[i].0))
      && Ascii(e.fields[i].0)[0] as int == e.fields[i].0[0] as int
    {
      AsciiClean(e.fields[i].0);
    }
  }

  lemma QueryClean(k: nat)
    requires k < 9
    ensures CleanEntry(QUERY[k])
  {
    assert CleanName("status") && CleanName("deviceCode") && CleanName("createdBy") && CleanName("planStartTime");
    assert CleanName("nextCheckDate") && CleanName("installDate") && CleanName("assignedTo");
    assert CleanName("level") && CleanName("occurredAt") && CleanName("_id");
    hide CleanName;
  }

  lemma QueryShapes(k: nat)
    requires k < 9 && CleanEntry(QUERY[k])
    ensures QUERY_SHAPES[k] == ShapeOf(QUERY[k])
  {
    hide CleanEntry;
  }

  lemma QueryShapesDiffer()
    ensures |QUERY_SHAPES| == 9 && forall i, j | 0 <= i < j < 9 :: Differ(QUERY_SHAPES[i], QUERY_SHAPES[j])
  {
  }

  /** To the two creations, three replacements and one removal of 20261021000000. */
  lemma QueryIndexesWellFormed()
    ensures WellFormedPlan(QueryIndexes())
  {
    hide *;
    var plan := QueryIndexes();
    var all := Declared(plan) + Removed(plan);
    QueryAt(0);
    QueryShapesDiffer();
    forall k | 0 <= k < 9 ensures Fits(all[k], QUERY_SHAPES[k]) {
      QueryAt(k);
      QueryClean(k);
      QueryShapes(k);
      EntryFits(QUERY[k]);
    }
    ShapesApart(all, QUERY_SHAPES);
    FitPlan(plan);
  }

  /** And to the one index of 20260928000000. */
  lemma UsernameIndexWellFormed()
    ensures WellFormedPlan(UsernameIndex())
  {
    var x := UsernameIndex().creates[0];
    assert Ascii("locale")[0] == 108 && Ascii("strength")[0] == 115;
    assert Declared(UsernameIndex()) + Removed(UsernameIndex()) == [x];
  }

  /** The username index as the server lists it: locale and strength as declared, seven options more, and the
      server's own version. */
  function UsernameListed(version: Json): Spec {
    Spec([Up1("username"), Down1("timestamp")],
         Some([Field(Ascii("locale"), Str(Ascii("en"))), Field(Ascii("caseLevel"), Bool(false)),
               Field(Ascii("caseFirst"), Str(Ascii("off"))), Field(Ascii("strength"), Number([50])),
               Field(Ascii("numericOrdering"), Bool(false)), Field(Ascii("alternate"), Str(Ascii("non-ignorable"))),
               Field(Ascii("maxVariable"), Str(Ascii("punct"))), Field(Ascii("normalization"), Bool(false)),
               Field(Ascii("backwards"), Bool(false)), Field(Ascii("version"), version)]),
         false, false, false, None, None)
  }

  lemma UsernameExpanded(version: Json)
    ensures UsernameListed(version) == Listed(UsernameIndex().creates[0].spec, [Field(Ascii("version"), version)])
  {
    var given := UsernameIndex().creates[0].spec.collation.value;
    assert Ascii("locale")[0] == 108 && Ascii("strength")[0] == 115 && Ascii("caseLevel")[0] == 99;
    assert Ascii("caseFirst")[0] == 99 && Ascii("numericOrdering")[0] == 110 && Ascii("alternate")[0] == 97;
    assert Ascii("maxVariable")[0] == 109 && Ascii("normalization")[0] == 110 && Ascii("backwards")[0] == 98;
    hide Ascii;
    forall name, standard
      ensures Lookup(given, name, standard) == if name == Ascii("locale") then Str(Ascii("en"))
              else if name == Ascii("strength") then Number([50]) else standard
    {
      LookupTwo(given[0], given[1], name, standard);
    }
    hide Lookup;
    assert UsernameListed(version).collation.value == Expanded(given, [Field(Ascii("version"), version)]);
  }

  lemma LookupTwo(f: Field, g: Field, name: Text, standard: Json)
    ensures Lookup([f, g], name, standard) ==
            if name == f.key then f.value else if name == g.key then g.value else standard
  {
    assert [f, g][1..] == [g];
    assert Lookup([g], name, standard) == if name == g.key then g.value else standard;
  }

  /** Where the username index stands as the server lists it, `up` leaves it alone. */
  method UsernameUp(db: Database, version: Json) returns (r: Outcome)
    requires Coherent(db.indexes)
    requires var id := Id("auditlogs", "username_ci_timestamp");
             id in db.indexes && db.indexes[id] == UsernameListed(version)
    modifies db
    ensures r.Done? && db.indexes == old(db.indexes) && db.trail == old(db.trail)
  {
    UsernameSettled(db.indexes, version);
    UsernameIndexWellFormed();
    hide *;
    SettledGoesThrough(db.indexes, UsernameIndex());
    r := Up(db, UsernameIndex());
  }

  lemma UsernameSettled(m: Indexes, version: Json)
    requires var id := Id("auditlogs", "username_ci_timestamp"); id in m && m[id] == UsernameListed(version)
    ensures Present(m, UsernameIndex().creates[0]) && Settled(m, UsernameIndex())
  {
    var d := UsernameIndex().creates[0];
    UsernameExpanded(version);
    ListedSig(d.spec, [Field(Ascii("version"), version)]);
    hide SpecSig;
    hide UsernameListed;
    hide Listed;
    assert Declared(UsernameIndex()) == [d] && Removed(UsernameIndex()) == [];
  }

  // ---------------------------------------------------------------- names and keys

  /** The name mongod gives an index by its fields and their directions. */
  ghost function NameOf(fields: seq<(string, bool)>): string {
    if fields == [] then ""
    else fields[0].0 + (if fields[0].1 then "_1" else "_-1") +
         if |fields| == 1 then "" else "_" + NameOf(fields[1..])
  }

  /** A key part has the text of its field and its direction. */
  lemma PartTexts(field: string)
    ensures PartSig(Up1(field)) == Ascii(field) + [COLON] + Ascii("1")
    ensures PartSig(Down1(field)) == Ascii(field) + [COLON] + Ascii("-1")
  {
    assert Ascii("1")[0] == 49 && Ascii("-1")[0] == 45 && Ascii("-1")[1] == 49;
    assert Ascii("1") == ONE && Ascii("-1") == MINUS_ONE;
  }

  lemma NameOfTwo(f: (string, bool), g: (string, bool))
    ensures NameOf([f]) == f.0 + if f.1 then "_1" else "_-1"
    ensures NameOf([f, g]) == f.0 + (if f.1 then "_1" else "_-1") + "_" + g.0 + if g.1 then "_1" else "_-1"
  {
    assert [f, g][1..] == [g];
    assert NameOf([f]) == f.0 + (if f.1 then "_1" else "_-1") + "";
  }

  lemma NameOfThree(f: (string, bool), g: (string, bool), h: (string, bool))
    ensures NameOf([f, g, h]) == f.0 + (if f.1 then "_1" else "_-1") + "_" + g.0 + (if g.1 then "_1" else "_-1") + "_" +
                                 h.0 + if h.1 then "_1" else "_-1"
  {
    NameOfTwo(g, h);
    assert [f, g, h][1..] == [g, h];
  }

  /** Each replacement of both migrations keeps the old key as the beginning of the new one. */
  ghost predicate Extends(r: Replacement) {
    r.target.id.coll == r.former.id.coll && r.former.spec.key < r.target.spec.key
  }

  lemma TieBreaksExtend(coll: string, field: string, time: string)
    ensures var r, had := TieBreak(coll, field, time), [(field, true), (time, false)];
            && Extends(r) && r.target.spec.key == KeyOf(had + [("_id", false)]) && r.former.spec.key == KeyOf(had)
            && r.target.id == Id(coll, NameOf(had + [("_id", false)])) && r.former.id == Id(coll, NameOf(had))
  {
    var had := [(field, true), (time, false)];
    NameOfThree((field, true), (time, false), ("_id", false));
    NameOfTwo((field, true), (time, false));
    assert had + [("_id", false)] == [(field, true), (time, false), ("_id", false)];
    hide NameOf;
    hide Ascii;
    assert field + "_1_" + time + "_-1" == field + "_1" + "_" + time + "_-1";
    assert field + "_1_" + time + "_-1__id_-1" == field + "_1" + "_" + time + "_-1" + "_" + "_id" + "_-1";
  }

  lemma QueryExtends(j: nat)
    requires j < 3
    ensures |QueryIndexes().swaps| == 3 && Extends(QueryIndexes().swaps[j])
  {
    hide Ascii;
    var r := QueryIndexes().swaps[j];
    assert QUERY[j + 5].fields == QUERY[j + 2].fields[..1];
    assert r.former.spec.key == r.target.spec.key[..1];
  }

  /** Whatever an old index served, by its key, its replacement serves. */
  lemma ReplacementsExtend(r: Replacement)
    requires r in TieBreaks().swaps || r in QueryIndexes().swaps
    ensures Extends(r)
  {
    hide Extends;
    hide TieBreak;
    hide IndexOf;
    if r in TieBreaks().swaps {
      TieBreaksAt(0);
      var i :| 0 <= i < |TieBreaks().swaps| && TieBreaks().swaps[i] == r;
      TieBreaksAt(i);
      TieBreaksExtend(ENTRIES[i].0, ENTRIES[i].1, ENTRIES[i].2);
    } else {
      QueryExtends(0);
      var j :| 0 <= j < |QueryIndexes().swaps| && QueryIndexes().swaps[j] == r;
      QueryExtends(j);
    }
  }

  // ---------------------------------------------------------------- no TTL in the way

  /** mongod gives a TTL to single-field indexes only. */
  ghost predicate SingleFieldTtl(m: Indexes) {
    forall id | id in m && m[id].ttl.Some? :: |m[id].key| == 1
  }

  ghost predicate CompoundWithoutTtl(d: Index) {
    |d.spec.key| > 1 && d.spec.ttl.None?
  }

  /** Nothing with a TTL is equivalent to a compound index. */
  lemma CompoundsGoThrough(m: Indexes, plan: Plan)
    requires SingleFieldTtl(m) && forall d | d in Declared(plan) :: CompoundWithoutTtl(d)
    ensures GoesThrough(m, plan)
  {
    hide GoesThrough;
    hide Declared;
    forall d, id | d in Declared(plan) && id in m ensures !Blocks(d, id, m[id]) {
      assert CompoundWithoutTtl(d);
    }
    NoTtlGoesThrough(m, plan);
  }

  lemma TieBreaksCompound(d: Index)
    requires d in Declared(TieBreaks())
    ensures CompoundWithoutTtl(d)
  {
    var plan := TieBreaks();
    TieBreaksAt(0);
    AllOfSwaps(plan);
    var k :| 0 <= k < |Declared(plan)| && Declared(plan)[k] == d;
    TieBreaksAt(k);
    assert d == TieBreak(ENTRIES[k].0, ENTRIES[k].1, ENTRIES[k].2).target;
  }

  lemma QueryCompound(d: Index)
    requires d in Declared(QueryIndexes())
    ensures CompoundWithoutTtl(d)
  {
    var plan := QueryIndexes();
    assert |Declared(plan)| == 5;
    var k :| 0 <= k < |Declared(plan)| && Declared(plan)[k] == d;
    QueryAt(k);
    assert (Declared(plan) + Removed(plan))[k] == d;
    assert k < 5 ==> |QUERY[k].fields| > 1;
  }

  lemma UsernameCompound(d: Index)
    requires d in Declared(UsernameIndex())
    ensures CompoundWithoutTtl(d)
  {
    assert d in UsernameIndex().creates;
  }

  /** So none of the three migrations meets a conflict on a set that mongod can hold. */
  lemma DeclaredGoThrough(m: Indexes)
    requires SingleFieldTtl(m)
    ensures GoesThrough(m, TieBreaks()) && GoesThrough(m, QueryIndexes()) && GoesThrough(m, UsernameIndex())
  {
    hide *;
    forall d | d in Declared(TieBreaks()) ensures CompoundWithoutTtl(d) { TieBreaksCompound(d); }
    CompoundsGoThrough(m, TieBreaks());
    forall d | d in Declared(QueryIndexes()) ensures CompoundWithoutTtl(d) { QueryCompound(d); }
    CompoundsGoThrough(m, QueryIndexes());
    forall d | d in Declared(UsernameIndex()) ensures CompoundWithoutTtl(d) { UsernameCompound(d); }
    CompoundsGoThrough(m, UsernameIndex());
  }
}
