/** Whole runs of the index migrations: what `up` does to an index set, what holds of every set it
    passes through, and that `down` gives the old set back. */
module MigrationRun {
  import opened IndexMigration
  import opened IndexSpec
  import opened StableJson
  import opened Wrappers

  function Targets(swaps: seq<Replacement>): (r: seq<Index>)
    ensures |r| == |swaps| && forall i | 0 <= i < |r| :: r[i] == swaps[i].target
  {
    seq(|swaps|, i requires 0 <= i < |swaps| => swaps[i].target)
  }

  function Formers(swaps: seq<Replacement>): (r: seq<Index>)
    ensures |r| == |swaps| && forall i | 0 <= i < |r| :: r[i] == swaps[i].former
  {
    seq(|swaps|, i requires 0 <= i < |swaps| => swaps[i].former)
  }

  /** What `up` brings in, in order. */
  function Declared(plan: Plan): seq<Index> {
    plan.creates + Targets(plan.swaps)
  }

  /** What `up` takes away, in order. */
  function Removed(plan: Plan): seq<Index> {
    Formers(plan.swaps) + plan.drops
  }

  function Ids(xs: seq<Index>): (r: set<Id>)
    ensures forall x :: x in xs ==> x.id in r
    ensures forall id :: id in r ==> exists x :: x in xs && x.id == id
  {
    set x | x in xs :: x.id
  }

  /** Different indexes: other names and, within a collection, other keys. */
  ghost predicate Apart(x: Index, y: Index) {
    x.id != y.id && (x.id.coll == y.id.coll ==> KeySig(x.spec.key) != KeySig(y.spec.key))
  }

  ghost predicate AllApart(xs: seq<Index>) {
    forall i, j | 0 <= i < j < |xs| :: Apart(xs[i], xs[j]) && Apart(xs[j], xs[i])
  }

  /** A plan whose indexes are all different. */
  ghost predicate WellFormedPlan(plan: Plan) {
    && AllApart(Declared(plan) + Removed(plan))
    && (forall x :: x in Declared(plan) + Removed(plan) ==> ValidSpec(x.spec))
  }

  // ---------------------------------------------------------------- keys keep indexes apart

  lemma TwinHasKey(d: Index, id: Id, spec: Spec)
    requires IsTwin(d, id, spec)
    ensures id.coll == d.id.coll && id != d.id && KeySig(spec.key) == KeySig(d.spec.key)
  {
  }

  lemma BlockerHasKey(d: Index, id: Id, spec: Spec)
    requires Blocks(d, id, spec)
    ensures id.coll == d.id.coll && id != d.id && KeySig(spec.key) == KeySig(d.spec.key)
  {
  }

  lemma PresentHasKey(m: Indexes, d: Index)
    requires Present(m, d) && Coherent(m) && ValidSpec(d.spec)
    ensures d.id in m && KeySig(m[d.id].key) == KeySig(d.spec.key)
  {
    hide SpecSig;
    hide ValidSpec;
    SameSigSameKey(m[d.id], d.spec);
  }

  // ---------------------------------------------------------------- the set a run has reached

  ghost predicate Declares(ds: seq<Index>, id: Id) {
    exists d :: d in ds && d.id == id
  }

  /** Dropped to make room for a declared index that was not present. */
  ghost predicate Swept(m: Indexes, ds: seq<Index>, id: Id)
    requires id in m
  {
    exists d :: d in ds && !Present(m, d) && IsTwin(d, id, m[id])
  }

  /** The set after ensuring ds and dropping the names in gone, in terms of the set m at the start
      alone: the declared indexes are there, kept where they were present and made where not, the
      dropped names are not, and everything else is as before but for the swept twins. */
  ghost predicate Reached(m: Indexes, s: Indexes, ds: seq<Index>, gone: set<Id>) {
    && (forall d | d in ds :: d.id in s && s[d.id] == if Present(m, d) then m[d.id] else d.spec)
    && (forall id | id in gone :: id !in s)
    && (forall id | id in s :: Declares(ds, id) || (id in m && s[id] == m[id] && !Swept(m, ds, id)))
    && (forall id | id in m && id !in gone && !Declares(ds, id) && !Swept(m, ds, id) :: id in s)
  }

  /** What the next declared index needs of those before it. */
  ghost predicate NextTo(ds: seq<Index>, gone: set<Id>, d: Index) {
    && d.id !in gone && ValidSpec(d.spec)
    && (forall x | x in ds :: Apart(x, d) && x.id !in gone && ValidSpec(x.spec))
  }

  /** An ensured index neither was nor becomes present by ensuring others. */
  lemma PresentThen(m: Indexes, s: Indexes, ds: seq<Index>, gone: set<Id>, d: Index)
    requires Coherent(m) && Reached(m, s, ds, gone) && NextTo(ds, gone, d)
    ensures Present(s, d) <==> Present(m, d)
    ensures d.id in s ==> d.id in m && s[d.id] == m[d.id]
  {
    hide SpecSig;
    hide IsTwin;
    hide Coherent;
    hide ValidSpec;
    assert !Declares(ds, d.id);
    if Present(m, d) {
      PresentHasKey(m, d);
      if Swept(m, ds, d.id) {
        var x :| x in ds && !Present(m, x) && IsTwin(x, d.id, m[d.id]);
        TwinHasKey(x, d.id, m[d.id]);
        assert false;
      }
    }
  }

  /** Twins of the next declared index in the reached set are its twins at the start. */
  lemma TwinThen(m: Indexes, s: Indexes, ds: seq<Index>, gone: set<Id>, d: Index, id: Id)
    requires Coherent(m) && Reached(m, s, ds, gone) && NextTo(ds, gone, d) && id in s && IsTwin(d, id, s[id])
    ensures !Declares(ds, id) && id in m && s[id] == m[id]
  {
    hide SpecSig;
    hide IsTwin;
    hide Coherent;
    hide ValidSpec;
    TwinHasKey(d, id, s[id]);
    if Declares(ds, id) {
      var x :| x in ds && x.id == id;
      if Present(m, x) {
        PresentHasKey(m, x);
      }
      assert false;
    }
  }

  lemma SweptThen(m: Indexes, ds: seq<Index>, d: Index, id: Id)
    requires id in m
    ensures Swept(m, ds + [d], id) <==> Swept(m, ds, id) || (!Present(m, d) && IsTwin(d, id, m[id]))
    ensures Declares(ds + [d], id) <==> Declares(ds, id) || d.id == id
  {
    hide SpecSig;
    hide IsTwin;
    assert d in ds + [d];
    if Swept(m, ds, id) {
      var x :| x in ds && !Present(m, x) && IsTwin(x, id, m[id]);
      assert x in ds + [d];
    }
    if Declares(ds, id) {
      var x :| x in ds && x.id == id;
      assert x in ds + [d];
    }
  }

  lemma EnsureReached(m: Indexes, s: Indexes, ds: seq<Index>, gone: set<Id>, d: Index)
    requires Coherent(m) && Reached(m, s, ds, gone) && NextTo(ds, gone, d)
    ensures Reached(m, Ensured(s, d), ds + [d], gone)
  {
    hide SpecSig;
    hide IsTwin;
    hide Coherent;
    hide ValidSpec;
    hide Swept;
    hide Declares;
    PresentThen(m, s, ds, gone, d);
    var t := Ensured(s, d);
    assert Declares(ds + [d], d.id) by { SweptThenDeclares(ds, d); }
    forall x | x in ds ensures x.id in t && t[x.id] == if Present(m, x) then m[x.id] else x.spec {
      DeclaresOne(ds, x);
      if IsTwin(d, x.id, s[x.id]) {
        TwinThen(m, s, ds, gone, d, x.id);
        assert false;
      }
    }
    forall id | id in t ensures Declares(ds + [d], id) || (id in m && t[id] == m[id] && !Swept(m, ds + [d], id)) {
      if id in m {
        SweptThen(m, ds, d, id);
      } else if id in s {
        DeclaresMore(ds, d, id);
      }
    }
    forall id | id in m && id !in gone && !Declares(ds + [d], id) && !Swept(m, ds + [d], id) ensures id in t {
      SweptThen(m, ds, d, id);
    }
  }

  lemma DeclaresOne(ds: seq<Index>, x: Index)
    requires x in ds
    ensures Declares(ds, x.id)
  {
  }

  lemma SweptThenDeclares(ds: seq<Index>, d: Index)
    ensures Declares(ds + [d], d.id)
  {
    assert d in ds + [d];
  }

  lemma DeclaresMore(ds: seq<Index>, d: Index, id: Id)
    requires Declares(ds, id)
    ensures Declares(ds + [d], id)
  {
    var x :| x in ds && x.id == id;
    assert x in ds + [d];
  }

  lemma DropReached(m: Indexes, s: Indexes, ds: seq<Index>, gone: set<Id>, id: Id)
    requires Reached(m, s, ds, gone) && !Declares(ds, id)
    ensures Reached(m, s - {id}, ds, gone + {id})
  {
    hide SpecSig;
    hide Swept;
  }

  // ---------------------------------------------------------------- when a run fails

  /** d cannot be brought in: an index blocks it that no earlier step of the run has replaced or dropped. */
  ghost predicate Stuck(m: Indexes, cleared: set<Id>, d: Index) {
    !Present(m, d) && exists id | id in m :: id !in cleared && Blocks(d, id, m[id])
  }

  lemma BlockerLeft(m: Indexes, s: Indexes, ds: seq<Index>, gone: set<Id>, d: Index, id: Id)
    requires Coherent(m) && Reached(m, s, ds, gone) && NextTo(ds, gone, d)
    ensures id in s && Blocks(d, id, s[id]) <==> id in m && id !in gone && !Declares(ds, id) && Blocks(d, id, m[id])
  {
    hide SpecSig;
    hide IsTwin;
    hide Blocks;
    hide Coherent;
    hide ValidSpec;
    if id in s && Blocks(d, id, s[id]) && Declares(ds, id) {
      BlockerHasKey(d, id, s[id]);
      var x :| x in ds && x.id == id;
      if Present(m, x) {
        PresentHasKey(m, x);
      }
      assert false;
    }
    if id in m && id !in gone && !Declares(ds, id) && Blocks(d, id, m[id]) {
      BlockerHasKey(d, id, m[id]);
      if Swept(m, ds, id) {
        var x :| x in ds && !Present(m, x) && IsTwin(x, id, m[id]);
        TwinHasKey(x, id, m[id]);
        assert false;
      }
    }
  }

  lemma BlockedThen(m: Indexes, s: Indexes, ds: seq<Index>, gone: set<Id>, d: Index)
    requires Coherent(m) && Reached(m, s, ds, gone) && NextTo(ds, gone, d)
    ensures Blocked(s, d) <==> Stuck(m, Ids(ds) + gone, d)
  {
    hide SpecSig;
    hide Blocks;
    hide Reached;
    PresentThen(m, s, ds, gone, d);
    if Blocked(s, d) {
      var id :| id in s && Blocks(d, id, s[id]);
      BlockerLeft(m, s, ds, gone, d, id);
      assert id in m && id !in Ids(ds) + gone && Blocks(d, id, m[id]);
    }
    if Stuck(m, Ids(ds) + gone, d) {
      var id :| id in m && id !in Ids(ds) + gone && Blocks(d, id, m[id]);
      BlockerLeft(m, s, ds, gone, d, id);
    }
  }

  // ---------------------------------------------------------------- what every set on the way keeps

  /** The index an entry replaces was there under its name with its own key. */
  ghost predicate HadFormer(m: Indexes, r: Replacement) {
    r.former.id in m && KeySig(m[r.former.id].key) == KeySig(r.former.spec.key)
  }

  /** Queries served by the old index are served still: the old index untouched, or the new one. */
  ghost predicate Served(m: Indexes, s: Indexes, r: Replacement)
    requires r.former.id in m
  {
    (r.former.id in s && s[r.former.id] == m[r.former.id]) || Present(s, r.target)
  }

  /** An index the migration has no business with: neither declared nor to be removed by name, and
      not one the migrations' own test takes for a declared one with the same TTL. */
  ghost predicate Bystander(plan: Plan, id: Id, spec: Spec) {
    && (forall x :: x in Declared(plan) + Removed(plan) ==> x.id != id)
    && (forall d :: d in Declared(plan) ==> !IsTwin(d, id, spec))
  }

  ghost predicate Kept(m: Indexes, s: Indexes, plan: Plan) {
    && (forall id | id in m && Bystander(plan, id, m[id]) :: id in s && s[id] == m[id])
    && (forall r | r in plan.swaps && HadFormer(m, r) :: Served(m, s, r))
    && (forall id | id in s :: (id in m && s[id] == m[id]) || Index(id, s[id]) in Declared(plan))
  }

  lemma PlanApart(plan: Plan, x: Index, y: Index)
    requires WellFormedPlan(plan) && x != y
    requires x in Declared(plan) + Removed(plan) && y in Declared(plan) + Removed(plan)
    ensures Apart(x, y) && ValidSpec(x.spec) && ValidSpec(y.spec)
  {
    hide Apart;
    hide ValidSpec;
    hide Declared;
    hide Removed;
    var all := Declared(plan) + Removed(plan);
    var i :| 0 <= i < |all| && all[i] == x;
    var j :| 0 <= j < |all| && all[j] == y;
    if i < j {
      assert Apart(all[i], all[j]);
    } else {
      assert Apart(all[i], all[j]);
    }
  }

  lemma SwapInPlan(plan: Plan, r: Replacement)
    requires r in plan.swaps
    ensures r.target in Declared(plan) && r.former in Removed(plan)
  {
    var i :| 0 <= i < |plan.swaps| && plan.swaps[i] == r;
    assert Targets(plan.swaps)[i] == r.target && Formers(plan.swaps)[i] == r.former;
  }

  /** A declared index and a removed one are never the same. */
  lemma DeclaredNotRemoved(plan: Plan, d: Index, x: Index)
    requires WellFormedPlan(plan) && d in Declared(plan) && x in Removed(plan)
    ensures Apart(d, x) && ValidSpec(d.spec) && ValidSpec(x.spec)
  {
    hide Apart;
    hide ValidSpec;
    hide Declared;
    hide Removed;
    var all := Declared(plan) + Removed(plan);
    var i :| 0 <= i < |Declared(plan)| && Declared(plan)[i] == d;
    var j :| 0 <= j < |Removed(plan)| && Removed(plan)[j] == x;
    assert all[i] == d && all[|Declared(plan)| + j] == x;
    assert Apart(all[i], all[|Declared(plan)| + j]);
  }

  lemma DeclaredApart(plan: Plan, d: Index, x: Index)
    requires WellFormedPlan(plan) && d in Declared(plan) && x in Declared(plan) && d != x
    ensures Apart(d, x) && ValidSpec(d.spec) && ValidSpec(x.spec)
  {
    hide *;
    assert d in Declared(plan) + Removed(plan) && x in Declared(plan) + Removed(plan);
    PlanApart(plan, d, x);
  }

  lemma ServedThroughEnsure(m: Indexes, s: Indexes, t: Indexes, plan: Plan, d: Index, r: Replacement)
    requires WellFormedPlan(plan) && d in Declared(plan) && r in plan.swaps
    requires Coherent(s) && Between(s, t, d) && (Present(s, d) ==> t == s)
    requires HadFormer(m, r) && Served(m, s, r)
    ensures Served(m, t, r)
  {
    hide SpecSig;
    hide IsTwin;
    hide Coherent;
    hide ValidSpec;
    hide WellFormedPlan;
    hide Declared;
    hide Removed;
    SwapInPlan(plan, r);
    if r.former.id in s && s[r.former.id] == m[r.former.id] {
      DeclaredNotRemoved(plan, d, r.former);
      if IsTwin(d, r.former.id, s[r.former.id]) {
        TwinHasKey(d, r.former.id, s[r.former.id]);
        assert false;
      }
    } else if r.target != d {
      DeclaredApart(plan, r.target, d);
      PresentHasKey(s, r.target);
      if IsTwin(d, r.target.id, s[r.target.id]) {
        TwinHasKey(d, r.target.id, s[r.target.id]);
        assert false;
      }
    }
  }

  lemma KeptEnsure(m: Indexes, s: Indexes, t: Indexes, plan: Plan, d: Index)
    requires WellFormedPlan(plan) && d in Declared(plan)
    requires Coherent(s) && Between(s, t, d) && (Present(s, d) ==> t == s)
    requires Kept(m, s, plan)
    ensures Kept(m, t, plan)
  {
    hide SpecSig;
    hide IsTwin;
    hide Coherent;
    hide WellFormedPlan;
    hide Declared;
    hide Removed;
    hide HadFormer;
    hide Present;
    forall r | r in plan.swaps && HadFormer(m, r) ensures r.former.id in m && Served(m, t, r) {
      FormerThere(m, r);
      ServedThroughEnsure(m, s, t, plan, d, r);
    }
    forall id | id in m && Bystander(plan, id, m[id]) ensures id in t && t[id] == m[id] {
      assert d in Declared(plan) + Removed(plan);
    }
    forall id | id in t ensures (id in m && t[id] == m[id]) || Index(id, t[id]) in Declared(plan) {
      if id == d.id && t[id] == d.spec {
        assert Index(id, t[id]) == d;
      }
    }
  }

  lemma FormerThere(m: Indexes, r: Replacement)
    requires HadFormer(m, r)
    ensures r.former.id in m
  {
  }

  /** Dropping a removed name keeps everything, an old index only once its replacement is present. */
  lemma KeptDrop(m: Indexes, s: Indexes, plan: Plan, x: Index)
    requires WellFormedPlan(plan) && x in Removed(plan) && Kept(m, s, plan)
    requires forall r | r in plan.swaps && r.former.id == x.id :: Present(s, r.target)
    ensures Kept(m, s - {x.id}, plan)
  {
    hide SpecSig;
    hide IsTwin;
    hide WellFormedPlan;
    hide Declared;
    hide Removed;
    hide HadFormer;
    var t := s - {x.id};
    forall r | r in plan.swaps && HadFormer(m, r) ensures r.former.id in m && Served(m, t, r) {
      FormerThere(m, r);
      SwapInPlan(plan, r);
      DeclaredNotRemoved(plan, r.target, x);
    }
    forall id | id in m && Bystander(plan, id, m[id]) ensures id in t && t[id] == m[id] {
      assert x in Declared(plan) + Removed(plan);
    }
  }

  lemma KeptStart(m: Indexes, plan: Plan)
    ensures Kept(m, m, plan)
  {
    hide SpecSig;
    hide IsTwin;
    hide HadFormer;
    forall r | r in plan.swaps && HadFormer(m, r) ensures r.former.id in m && Served(m, m, r) {
      FormerThere(m, r);
    }
  }

  // ---------------------------------------------------------------- up

  /** Nothing left for `up` to do. */
  ghost predicate Settled(m: Indexes, plan: Plan) {
    && (forall d :: d in Declared(plan) ==> Present(m, d))
    && (forall x :: x in Removed(plan) ==> x.id !in m)
  }

  /** The names `up` has rebuilt or dropped before it comes to declared index n. */
  ghost function Cleared(plan: Plan, n: nat): set<Id>
    requires n <= |Declared(plan)|
  {
    Ids(Declared(plan)[..n]) + Ids(Formers(plan.swaps)[..if n < |plan.creates| then 0 else n - |plan.creates|])
  }

  /** `up` gets through: no declared index is stuck when its turn comes. */
  ghost predicate GoesThrough(m: Indexes, plan: Plan) {
    forall n | 0 <= n < |Declared(plan)| :: !Stuck(m, Cleared(plan, n), Declared(plan)[n])
  }

  lemma NextInPlan(plan: Plan, n: nat, gone: set<Id>)
    requires WellFormedPlan(plan) && n < |Declared(plan)| && gone <= Ids(Removed(plan))
    ensures NextTo(Declared(plan)[..n], gone, Declared(plan)[n])
  {
    hide Apart;
    hide ValidSpec;
    hide Declared;
    hide Removed;
    var d := Declared(plan)[n];
    DeclaredNotGone(plan, d, gone);
    forall x | x in Declared(plan)[..n] ensures Apart(x, d) && x.id !in gone && ValidSpec(x.spec) {
      var i :| 0 <= i < n && Declared(plan)[i] == x;
      var all := Declared(plan) + Removed(plan);
      assert all[i] == x && all[n] == d;
      assert Apart(all[i], all[n]);
      DeclaredNotGone(plan, x, gone);
    }
  }

  lemma DeclaredNotGone(plan: Plan, d: Index, gone: set<Id>)
    requires WellFormedPlan(plan) && d in Declared(plan) && gone <= Ids(Removed(plan))
    ensures d.id !in gone && ValidSpec(d.spec)
  {
    hide ValidSpec;
    hide Declared;
    hide Removed;
    hide Apart;
    assert d in Declared(plan) + Removed(plan);
    if d.id in gone {
      var x :| x in Removed(plan) && x.id == d.id;
      DeclaredNotRemoved(plan, d, x);
      SameIdNotApart(d, x);
      assert false;
    }
  }

  lemma SameIdNotApart(x: Index, y: Index)
    requires x.id == y.id
    ensures !Apart(x, y)
  {
  }

  /** The state of a run that started from m with trail t0: it has reached the set for ds and gone, every
      set on its way was kept, and it has changed nothing if there was nothing to do. */
  ghost predicate Underway(m: Indexes, t0: seq<Indexes>, s: Indexes, t: seq<Indexes>, plan: Plan, ds: seq<Index>,
                           gone: set<Id>)
  {
    Passing(m, t0, s, t, plan) && Reached(m, s, ds, gone)
  }

  ghost predicate Passing(m: Indexes, t0: seq<Indexes>, s: Indexes, t: seq<Indexes>, plan: Plan) {
    && Coherent(s) && Kept(m, s, plan)
    && (Settled(m, plan) ==> s == m && t == t0)
    && t0 <= t && (forall k | |t0| <= k < |t| :: Kept(m, t[k], plan))
  }

  lemma PassingOn(m: Indexes, t0: seq<Indexes>, s: Indexes, t: seq<Indexes>, plan: Plan, s': Indexes, t': seq<Indexes>)
    requires Passing(m, t0, s, t, plan) && Coherent(s') && Kept(m, s', plan)
    requires t <= t' && forall k | |t| <= k < |t'| :: Kept(m, t'[k], plan)
    requires Settled(m, plan) ==> s' == s && t' == t
    ensures Passing(m, t0, s', t', plan)
  {
    hide Kept;
    hide Coherent;
    hide Settled;
  }

  lemma PassingFacts(m: Indexes, t0: seq<Indexes>, s: Indexes, t: seq<Indexes>, plan: Plan)
    requires Passing(m, t0, s, t, plan)
    ensures Coherent(s) && Kept(m, s, plan) && (Settled(m, plan) ==> s == m && t == t0) && t0 <= t
    ensures forall k | |t0| <= k < |t| :: Kept(m, t[k], plan)
  {
    hide Kept;
    hide Coherent;
    hide Settled;
  }

  lemma UnderwayFacts(m: Indexes, t0: seq<Indexes>, s: Indexes, t: seq<Indexes>, plan: Plan, ds: seq<Index>,
                      gone: set<Id>)
    requires Underway(m, t0, s, t, plan, ds, gone)
    ensures Passing(m, t0, s, t, plan) && Reached(m, s, ds, gone)
  {
    hide Passing;
    hide Reached;
  }

  lemma UnderwayOn(m: Indexes, t0: seq<Indexes>, s: Indexes, t: seq<Indexes>, plan: Plan, ds: seq<Index>, gone: set<Id>)
    requires Passing(m, t0, s, t, plan) && Reached(m, s, ds, gone)
    ensures Underway(m, t0, s, t, plan, ds, gone)
  {
    hide Passing;
    hide Reached;
  }

  method EnsureDeclared(db: Database, plan: Plan, n: nat, ghost m: Indexes, ghost t0: seq<Indexes>, ghost gone: set<Id>)
    returns (r: Outcome)
    requires WellFormedPlan(plan) && n < |Declared(plan)| && gone <= Ids(Removed(plan)) && Coherent(m)
    requires Coherent(db.indexes) && Underway(m, t0, db.indexes, db.trail, plan, Declared(plan)[..n], gone)
    modifies db
    ensures Coherent(db.indexes)
    ensures r.Done? <==> !Stuck(m, Ids(Declared(plan)[..n]) + gone, Declared(plan)[n])
    ensures Passing(m, t0, db.indexes, db.trail, plan)
    ensures r.Done? ==> Underway(m, t0, db.indexes, db.trail, plan, Declared(plan)[..n + 1], gone)
  {
    hide *;
    ghost var s, t := db.indexes, db.trail;
    var d := Declared(plan)[n];
    UnderwayFacts(m, t0, s, t, plan, Declared(plan)[..n], gone);
    PassingFacts(m, t0, s, t, plan);
    NextInPlan(plan, n, gone);
    NextIsValid(Declared(plan)[..n], gone, d);
    BlockedThen(m, s, Declared(plan)[..n], gone, d);
    EnsureReached(m, s, Declared(plan)[..n], gone, d);
    assert Declared(plan)[..n + 1] == Declared(plan)[..n] + [d];
    r := db.EnsureIndex(d);
    KeptEnsure(m, s, db.indexes, plan, d);
    forall k | |t| <= k < |db.trail| ensures Kept(m, db.trail[k], plan) {
      KeptEnsure(m, s, db.trail[k], plan, d);
    }
    if Settled(m, plan) { SettledPresent(m, plan, d); }
    PassingOn(m, t0, s, t, plan, db.indexes, db.trail);
    if r.Done? { UnderwayOn(m, t0, db.indexes, db.trail, plan, Declared(plan)[..n + 1], gone); }
  }

  lemma NextIsValid(ds: seq<Index>, gone: set<Id>, d: Index)
    requires NextTo(ds, gone, d)
    ensures ValidSpec(d.spec)
  {
  }

  /** Drop a name that is to go; an old index only after its replacement is present. */
  method DropRemoved(db: Database, plan: Plan, x: Index, ghost m: Indexes, ghost t0: seq<Indexes>, ghost ds: seq<Index>,
                     ghost gone: set<Id>)
    requires WellFormedPlan(plan) && x in Removed(plan) && Coherent(m)
    requires forall d | d in ds :: d in Declared(plan)
    requires forall r | r in plan.swaps && r.former.id == x.id :: r.target in ds
    requires Coherent(db.indexes) && Underway(m, t0, db.indexes, db.trail, plan, ds, gone)
    modifies db
    ensures Coherent(db.indexes) && Underway(m, t0, db.indexes, db.trail, plan, ds, gone + {x.id})
  {
    hide *;
    ghost var s, t := db.indexes, db.trail;
    UnderwayFacts(m, t0, s, t, plan, ds, gone);
    PassingFacts(m, t0, s, t, plan);
    NotDeclared(plan, x, ds);
    DropReached(m, s, ds, gone, x.id);
    forall r | r in plan.swaps && r.former.id == x.id ensures Present(s, r.target) {
      ReachedPresent(m, s, ds, gone, r.target);
    }
    KeptDrop(m, s, plan, x);
    db.DropIndexIfExists(x.id);
    if Settled(m, plan) { SettledAbsent(m, plan, x); }
    PassingOn(m, t0, s, t, plan, db.indexes, db.trail);
    UnderwayOn(m, t0, db.indexes, db.trail, plan, ds, gone + {x.id});
  }

  lemma NotDeclared(plan: Plan, x: Index, ds: seq<Index>)
    requires WellFormedPlan(plan) && x in Removed(plan) && forall d | d in ds :: d in Declared(plan)
    ensures !Declares(ds, x.id)
  {
    hide ValidSpec;
    hide Declared;
    hide Removed;
    hide Apart;
    hide WellFormedPlan;
    if Declares(ds, x.id) {
      var d :| d in ds && d.id == x.id;
      DeclaredNotRemoved(plan, d, x);
      SameIdNotApart(d, x);
      assert false;
    }
  }

  lemma ReachedPresent(m: Indexes, s: Indexes, ds: seq<Index>, gone: set<Id>, d: Index)
    requires Reached(m, s, ds, gone) && d in ds
    ensures Present(s, d)
  {
    hide SpecSig;
    hide Swept;
    hide Declares;
  }

  lemma ReachedStart(m: Indexes)
    ensures Reached(m, m, [], {})
  {
    hide SpecSig;
    hide IsTwin;
  }

  lemma SettledPresent(m: Indexes, plan: Plan, d: Index)
    requires Settled(m, plan) && d in Declared(plan)
    ensures Present(m, d)
  {
    hide Declared;
    hide Present;
  }

  lemma SettledAbsent(m: Indexes, plan: Plan, x: Index)
    requires Settled(m, plan) && x in Removed(plan)
    ensures x.id !in m
  {
    hide Removed;
    hide Present;
  }

  /** The formers of the first j entries, by name. */
  ghost function FormerIds(plan: Plan, j: nat): set<Id>
    requires j <= |plan.swaps|
  {
    Ids(Formers(plan.swaps)[..j])
  }

  lemma FormerIdsStep(plan: Plan, j: nat)
    requires j < |plan.swaps|
    ensures FormerIds(plan, j + 1) == FormerIds(plan, j) + {plan.swaps[j].former.id}
  {
    assert Formers(plan.swaps)[..j + 1] == Formers(plan.swaps)[..j] + [plan.swaps[j].former];
  }

  lemma FormersGo(plan: Plan, j: nat)
    requires j <= |plan.swaps|
    ensures FormerIds(plan, j) <= Ids(Removed(plan))
  {
    forall id | id in FormerIds(plan, j) ensures id in Ids(Removed(plan)) {
      var x :| x in Formers(plan.swaps)[..j] && x.id == id;
      assert x in Removed(plan);
    }
  }

  lemma DeclaredAt(plan: Plan)
    ensures |Declared(plan)| == |plan.creates| + |plan.swaps|
    ensures forall i | 0 <= i < |plan.creates| :: Declared(plan)[i] == plan.creates[i]
    ensures forall j | 0 <= j < |plan.swaps| :: Declared(plan)[|plan.creates| + j] == plan.swaps[j].target
  {
  }

  /** Only entry j replaces what entry j replaces. */
  lemma FormerOnce(plan: Plan, j: nat, r: Replacement)
    requires WellFormedPlan(plan) && j < |plan.swaps| && r in plan.swaps && r.former.id == plan.swaps[j].former.id
    ensures r == plan.swaps[j]
  {
    hide ValidSpec;
    hide Apart;
    hide Declared;
    var i :| 0 <= i < |plan.swaps| && plan.swaps[i] == r;
    assert Removed(plan)[i] == r.former && Removed(plan)[j] == plan.swaps[j].former;
    if i != j {
      var all := Declared(plan) + Removed(plan);
      var n := |Declared(plan)|;
      assert all[n + i] == r.former && all[n + j] == plan.swaps[j].former;
      assert Apart(all[n + i], all[n + j]);
      SameIdNotApart(r.former, plan.swaps[j].former);
      assert false;
    }
  }

  lemma ClearedByCreates(plan: Plan, i: nat)
    requires i < |plan.creates|
    ensures i < |Declared(plan)| && Cleared(plan, i) == Ids(Declared(plan)[..i]) + {}
  {
    DeclaredAt(plan);
  }

  lemma ClearedBySwaps(plan: Plan, j: nat)
    requires j < |plan.swaps|
    ensures |plan.creates| + j < |Declared(plan)|
    ensures Cleared(plan, |plan.creates| + j) == Ids(Declared(plan)[..|plan.creates| + j]) + FormerIds(plan, j)
  {
    DeclaredAt(plan);
  }

  lemma NotThrough(m: Indexes, plan: Plan, n: nat)
    requires n < |Declared(plan)| && Stuck(m, Cleared(plan, n), Declared(plan)[n])
    ensures !GoesThrough(m, plan)
  {
    hide Stuck;
    hide Cleared;
    hide Declared;
  }

  lemma Through(m: Indexes, plan: Plan)
    requires forall n | 0 <= n < |Declared(plan)| :: !Stuck(m, Cleared(plan, n), Declared(plan)[n])
    ensures GoesThrough(m, plan)
  {
    hide Stuck;
    hide Cleared;
    hide Declared;
  }

  /** The names gone after all replacements and the first k drops. */
  ghost function GoneIds(plan: Plan, k: nat): set<Id>
    requires k <= |plan.drops|
  {
    FormerIds(plan, |plan.swaps|) + Ids(plan.drops[..k])
  }

  lemma GoneIdsStep(plan: Plan, k: nat)
    requires k < |plan.drops|
    ensures GoneIds(plan, k + 1) == GoneIds(plan, k) + {plan.drops[k].id}
    ensures plan.drops[k] in Removed(plan)
  {
    assert plan.drops[..k + 1] == plan.drops[..k] + [plan.drops[k]];
  }

  lemma GoneIdsEnds(plan: Plan)
    ensures GoneIds(plan, 0) == FormerIds(plan, |plan.swaps|)
    ensures GoneIds(plan, |plan.drops|) == Ids(Removed(plan))
  {
    var fs := Formers(plan.swaps);
    assert fs[..|plan.swaps|] == fs && plan.drops[..|plan.drops|] == plan.drops;
  }

  /** One entry of the list of replacements: ensure the new index, then drop the old one. */
  method ReplaceNext(db: Database, plan: Plan, j: nat, ghost m: Indexes, ghost t0: seq<Indexes>) returns (r: Outcome)
    requires WellFormedPlan(plan) && j < |plan.swaps| && |plan.creates| + j < |Declared(plan)|
    requires Coherent(m) && Coherent(db.indexes)
    requires Underway(m, t0, db.indexes, db.trail, plan, Declared(plan)[..|plan.creates| + j], FormerIds(plan, j))
    modifies db
    ensures Coherent(db.indexes) && Passing(m, t0, db.indexes, db.trail, plan)
    ensures r.Done? <==> !Stuck(m, Cleared(plan, |plan.creates| + j), Declared(plan)[|plan.creates| + j])
    ensures r.Done? ==> Underway(m, t0, db.indexes, db.trail, plan, Declared(plan)[..|plan.creates| + j + 1],
                                 FormerIds(plan, j + 1))
  {
    hide *;
    ghost var declared := Declared(plan);
    DeclaredAt(plan);
    ClearedBySwaps(plan, j);
    FormersGo(plan, j);
    r := EnsureDeclared(db, plan, |plan.creates| + j, m, t0, FormerIds(plan, j));
    if r.Done? {
      SwapInPlan(plan, plan.swaps[j]);
      FormerIdsStep(plan, j);
      ghost var ds := declared[..|plan.creates| + j + 1];
      forall e | e in plan.swaps && e.former.id == plan.swaps[j].former.id ensures e.target in ds {
        FormerOnce(plan, j, e);
        assert ds[|plan.creates| + j] == plan.swaps[j].target;
      }
      DropRemoved(db, plan, plan.swaps[j].former, m, t0, ds, FormerIds(plan, j));
      UnderwayFacts(m, t0, db.indexes, db.trail, plan, ds, FormerIds(plan, j + 1));
    }
  }

  /** Bring the declared indexes in and take the removed ones away. It stops at the first createIndex
      that mongod refuses. */
  method Up(db: Database, plan: Plan) returns (r: Outcome)
    requires WellFormedPlan(plan) && Coherent(db.indexes)
    modifies db
    ensures Coherent(db.indexes)
    ensures r.Done? <==> GoesThrough(old(db.indexes), plan)
    ensures r.Done? ==> Reached(old(db.indexes), db.indexes, Declared(plan), Ids(Removed(plan)))
    ensures Settled(old(db.indexes), plan) ==> db.indexes == old(db.indexes) && db.trail == old(db.trail)
    ensures old(db.trail) <= db.trail
    ensures forall k | |old(db.trail)| <= k < |db.trail| :: Kept(old(db.indexes), db.trail[k], plan)
    ensures Kept(old(db.indexes), db.indexes, plan)
  {
    hide *;
    ghost var m, t0 := db.indexes, db.trail;
    ghost var declared := Declared(plan);
    DeclaredAt(plan);
    UnderwayStart(m, t0, plan);
    assert declared[..0] == [] && declared[..|declared|] == declared;
    r := Done;
    for i := 0 to |plan.creates|
      invariant Coherent(db.indexes) && Underway(m, t0, db.indexes, db.trail, plan, declared[..i], {})
      invariant forall n | 0 <= n < i :: !Stuck(m, Cleared(plan, n), declared[n])
      invariant r.Done?
    {
      ClearedByCreates(plan, i);
      r := EnsureDeclared(db, plan, i, m, t0, {});
      if !r.Done? {
        NotThrough(m, plan, i);
        PassingFacts(m, t0, db.indexes, db.trail, plan);
        return;
      }
    }
    FormerIdsStart(plan);
    for j := 0 to |plan.swaps|
      invariant Coherent(db.indexes) && Underway(m, t0, db.indexes, db.trail, plan, declared[..|plan.creates| + j],
                                                 FormerIds(plan, j))
      invariant forall n | 0 <= n < |plan.creates| + j :: !Stuck(m, Cleared(plan, n), declared[n])
      invariant r.Done?
    {
      ClearedBySwaps(plan, j);
      r := ReplaceNext(db, plan, j, m, t0);
      if !r.Done? {
        NotThrough(m, plan, |plan.creates| + j);
        PassingFacts(m, t0, db.indexes, db.trail, plan);
        return;
      }
    }
    Through(m, plan);
    GoneIdsEnds(plan);
    for k := 0 to |plan.drops|
      invariant Coherent(db.indexes) && Underway(m, t0, db.indexes, db.trail, plan, declared, GoneIds(plan, k))
    {
      GoneIdsStep(plan, k);
      forall e | e in plan.swaps && e.former.id == plan.drops[k].id ensures e.target in declared {
        SwapInPlan(plan, e);
      }
      DropRemoved(db, plan, plan.drops[k], m, t0, declared, GoneIds(plan, k));
    }
    UnderwayFacts(m, t0, db.indexes, db.trail, plan, declared, GoneIds(plan, |plan.drops|));
    PassingFacts(m, t0, db.indexes, db.trail, plan);
  }

  lemma UnderwayStart(m: Indexes, t: seq<Indexes>, plan: Plan)
    requires Coherent(m)
    ensures Underway(m, t, m, t, plan, [], {})
  {
    hide *;
    ReachedStart(m);
    KeptStart(m, plan);
    PassingStart(m, t, plan);
    UnderwayOn(m, t, m, t, plan, [], {});
  }

  lemma PassingStart(m: Indexes, t: seq<Indexes>, plan: Plan)
    requires Coherent(m) && Kept(m, m, plan)
    ensures Passing(m, t, m, t, plan)
  {
    hide Coherent;
    hide Kept;
    hide Settled;
  }

  lemma FormerIdsStart(plan: Plan)
    ensures FormerIds(plan, 0) == {}
  {
  }

  /** A successful run leaves nothing to do. */
  lemma UpSettles(m: Indexes, s: Indexes, plan: Plan)
    requires Reached(m, s, Declared(plan), Ids(Removed(plan)))
    ensures Settled(s, plan)
  {
    hide *;
    forall d | d in Declared(plan) ensures Present(s, d) {
      ReachedPresent(m, s, Declared(plan), Ids(Removed(plan)), d);
    }
    RemovedGone(m, s, plan);
    BothSettle(s, plan);
  }

  lemma RemovedGone(m: Indexes, s: Indexes, plan: Plan)
    requires Reached(m, s, Declared(plan), Ids(Removed(plan)))
    ensures forall x :: x in Removed(plan) ==> x.id !in s
  {
    hide Declared;
    hide Removed;
    hide SpecSig;
    hide IsTwin;
  }

  lemma BothSettle(s: Indexes, plan: Plan)
    requires forall d :: d in Declared(plan) ==> Present(s, d)
    requires forall x :: x in Removed(plan) ==> x.id !in s
    ensures Settled(s, plan)
  {
    hide Declared;
    hide Removed;
    hide Present;
  }

  lemma NotStuck(m: Indexes, cleared: set<Id>, d: Index)
    requires forall id | id in m :: !Blocks(d, id, m[id])
    ensures !Stuck(m, cleared, d)
  {
    hide Blocks;
    hide Present;
  }

  /** Equivalent indexes with another TTL are the only thing that can stop a run. */
  lemma NoTtlGoesThrough(m: Indexes, plan: Plan)
    requires forall d, id | d in Declared(plan) && id in m :: !Blocks(d, id, m[id])
    ensures GoesThrough(m, plan)
  {
    hide *;
    forall n | 0 <= n < |Declared(plan)| ensures !Stuck(m, Cleared(plan, n), Declared(plan)[n]) {
      var d := Declared(plan)[n];
      assert d in Declared(plan);
      NotStuck(m, Cleared(plan, n), d);
    }
    Through(m, plan);
  }

  /** Where nothing is left to do nothing stops a run. */
  lemma SettledGoesThrough(s: Indexes, plan: Plan)
    requires Settled(s, plan)
    ensures GoesThrough(s, plan)
  {
    hide *;
    forall n | 0 <= n < |Declared(plan)| ensures !Stuck(s, Cleared(plan, n), Declared(plan)[n]) {
      SettledPresent(s, plan, Declared(plan)[n]);
      PresentNotStuck(s, Cleared(plan, n), Declared(plan)[n]);
    }
    Through(s, plan);
  }

  lemma PresentNotStuck(s: Indexes, cleared: set<Id>, d: Index)
    requires Present(s, d)
    ensures !Stuck(s, cleared, d)
  {
    hide Present;
    hide Blocks;
  }

  /** The same set as the server lists it: a collation can stand there in full, with more than was declared. */
  ghost predicate Relisted(s: Indexes, l: Indexes) {
    l.Keys == s.Keys && forall id | id in s :: l[id] == s[id] || exists extra :: l[id] == Listed(s[id], extra)
  }

  lemma PresentListed(s: Indexes, l: Indexes, d: Index)
    requires Relisted(s, l)
    ensures Present(s, d) <==> Present(l, d)
  {
    hide SpecSig;
    hide Listed;
    if d.id in s && l[d.id] != s[d.id] {
      var extra :| l[d.id] == Listed(s[d.id], extra);
      ListedSig(s[d.id], extra);
    }
  }

  /** What is settled is settled as the server lists it. */
  lemma SettledListed(s: Indexes, l: Indexes, plan: Plan)
    requires Relisted(s, l) && Settled(s, plan)
    ensures Settled(l, plan)
  {
    hide Declared;
    hide Removed;
    hide Present;
    hide Listed;
    forall d | d in Declared(plan) ensures Present(l, d) { PresentListed(s, l, d); }
  }

  /** A run on a set that an earlier run has reached, as the server lists it, gets through and issues no drop and
      no create: it passes through no set at all. */
  method UpAgain(db: Database, plan: Plan, ghost m: Indexes, ghost s: Indexes) returns (r: Outcome)
    requires WellFormedPlan(plan) && Coherent(db.indexes)
    requires Reached(m, s, Declared(plan), Ids(Removed(plan))) && Relisted(s, db.indexes)
    modifies db
    ensures r.Done? && db.indexes == old(db.indexes) && db.trail == old(db.trail)
  {
    hide *;
    UpSettles(m, s, plan);
    SettledListed(s, db.indexes, plan);
    SettledGoesThrough(db.indexes, plan);
    r := Up(db, plan);
  }

  // ---------------------------------------------------------------- down

  /** The set after `down` has rebuilt xs and dropped the names in gone, in terms of the set at its
      start alone. */
  ghost predicate Lowered(m: Indexes, s: Indexes, xs: seq<Index>, gone: set<Id>) {
    && (forall x | x in xs :: x.id in s && s[x.id] == if x.id in m then m[x.id] else x.spec)
    && (forall id | id in gone :: id !in s)
    && (forall id | id in s :: Declares(xs, id) || (id in m && s[id] == m[id]))
    && (forall id | id in m && id !in gone :: id in s)
  }

  /** x is missing and an equivalent index under another name stands where it should go. */
  ghost predicate Clash(m: Indexes, cleared: set<Id>, x: Index) {
    x.id !in m && exists id | id in m :: id !in cleared && id.coll == x.id.coll && Equivalent(m[id], x.spec)
  }

  lemma EquivalentHasKey(a: Spec, b: Spec)
    requires Equivalent(a, b)
    ensures KeySig(a.key) == KeySig(b.key)
  {
  }

  lemma ClashThen(m: Indexes, s: Indexes, xs: seq<Index>, gone: set<Id>, x: Index)
    requires Lowered(m, s, xs, gone) && NextTo(xs, gone, x)
    ensures x.id in s <==> x.id in m
    ensures x.id !in s ==>
              ((exists id | id in s :: id.coll == x.id.coll && Equivalent(s[id], x.spec)) <==> Clash(m, gone, x))
  {
    hide Equivalent;
    hide ValidSpec;
    if x.id !in s {
      forall id | id in s && id.coll == x.id.coll && Equivalent(s[id], x.spec) ensures id in m && s[id] == m[id] {
        EquivalentHasKey(s[id], x.spec);
      }
    }
  }

  lemma RestoreLowered(m: Indexes, s: Indexes, xs: seq<Index>, gone: set<Id>, x: Index)
    requires Lowered(m, s, xs, gone) && NextTo(xs, gone, x)
    ensures Lowered(m, if x.id in s then s else s[x.id := x.spec], xs + [x], gone)
  {
    hide ValidSpec;
    hide Declares;
    var t := if x.id in s then s else s[x.id := x.spec];
    assert !Declares(xs, x.id) by { NotAmong(xs, gone, x); }
    forall id | id in t ensures Declares(xs + [x], id) || (id in m && t[id] == m[id]) {
      if Declares(xs, id) {
        DeclaresMore(xs, x, id);
      } else if id == x.id {
        SweptThenDeclares(xs, x);
      }
    }
  }

  lemma NotAmong(xs: seq<Index>, gone: set<Id>, x: Index)
    requires NextTo(xs, gone, x)
    ensures !Declares(xs, x.id)
  {
    hide ValidSpec;
  }

  lemma DropLowered(m: Indexes, s: Indexes, xs: seq<Index>, gone: set<Id>, id: Id)
    requires Lowered(m, s, xs, gone) && !Declares(xs, id)
    ensures Lowered(m, s - {id}, xs, gone + {id})
  {
    hide Declares;
    forall x | x in xs ensures x.id != id {
      DeclaresOne(xs, x);
    }
  }

  /** What `down` does to bring one old index back. */
  method RestoreIndex(db: Database, x: Index, ghost m: Indexes, ghost xs: seq<Index>, ghost gone: set<Id>)
    returns (r: Outcome)
    requires Coherent(db.indexes) && Lowered(m, db.indexes, xs, gone) && NextTo(xs, gone, x)
    modifies db
    ensures Coherent(db.indexes)
    ensures r.Done? <==> !Clash(m, gone, x)
    ensures r.Done? ==> Lowered(m, db.indexes, xs + [x], gone)
  {
    hide *;
    ClashThen(m, db.indexes, xs, gone, x);
    RestoreLowered(m, db.indexes, xs, gone, x);
    NextIsValid(xs, gone, x);
    if x.id in db.indexes {
      NoClash(m, gone, x);
      return Done;
    }
    r := db.CreateIndex(x);
  }

  lemma NoClash(m: Indexes, cleared: set<Id>, x: Index)
    requires x.id in m
    ensures !Clash(m, cleared, x)
  {
  }

  /** What `down` rebuilds, in order. */
  function Rebuilt(plan: Plan): seq<Index> {
    plan.drops + Formers(plan.swaps)
  }

  /** The new names of the first j entries. */
  ghost function TargetIds(plan: Plan, j: nat): set<Id>
    requires j <= |plan.swaps|
  {
    Ids(Targets(plan.swaps)[..j])
  }

  /** The names `down` has dropped before it comes to rebuilt index n. */
  ghost function ClearedDown(plan: Plan, n: nat): set<Id>
    requires n <= |Rebuilt(plan)|
  {
    TargetIds(plan, if n < |plan.drops| then 0 else n - |plan.drops|)
  }

  /** `down` gets through: nothing equivalent stands where an old index goes. */
  ghost predicate ComesBack(m: Indexes, plan: Plan) {
    forall n | 0 <= n < |Rebuilt(plan)| :: !Clash(m, ClearedDown(plan, n), Rebuilt(plan)[n])
  }

  lemma RebuiltAt(plan: Plan)
    ensures |Rebuilt(plan)| == |plan.drops| + |plan.swaps|
    ensures forall k | 0 <= k < |plan.drops| :: Rebuilt(plan)[k] == plan.drops[k]
    ensures forall j | 0 <= j < |plan.swaps| :: Rebuilt(plan)[|plan.drops| + j] == plan.swaps[j].former
    ensures forall x :: x in Rebuilt(plan) <==> x in Removed(plan)
  {
  }

  lemma ClearedDownAt(plan: Plan, k: nat, j: nat)
    requires j <= |plan.swaps|
    ensures |Rebuilt(plan)| == |plan.drops| + |plan.swaps|
    ensures k < |plan.drops| ==> ClearedDown(plan, k) == {}
    ensures ClearedDown(plan, |plan.drops| + j) == TargetIds(plan, j)
  {
  }

  /** The two ends of the rebuilt order are the removed ones the other way round. */
  lemma RebuiltApart(plan: Plan, i: nat, n: nat)
    requires WellFormedPlan(plan) && i < n < |Rebuilt(plan)|
    ensures Apart(Rebuilt(plan)[i], Rebuilt(plan)[n]) && ValidSpec(Rebuilt(plan)[i].spec)
            && ValidSpec(Rebuilt(plan)[n].spec)
  {
    hide Apart;
    hide ValidSpec;
    hide Declared;
    var all, c, t := Declared(plan) + Removed(plan), |Declared(plan)|, |plan.swaps|;
    var a := if i < |plan.drops| then c + t + i else c + i - |plan.drops|;
    var b := if n < |plan.drops| then c + t + n else c + n - |plan.drops|;
    assert all[a] == Rebuilt(plan)[i] && all[b] == Rebuilt(plan)[n];
    assert a < b || b < a;
    assert Apart(all[a], all[b]);
  }

  lemma NextRebuilt(plan: Plan, n: nat, gone: set<Id>)
    requires WellFormedPlan(plan) && n < |Rebuilt(plan)| && gone <= Ids(Declared(plan))
    ensures NextTo(Rebuilt(plan)[..n], gone, Rebuilt(plan)[n])
  {
    hide Apart;
    hide ValidSpec;
    hide WellFormedPlan;
    hide Declared;
    hide Rebuilt;
    hide Removed;
    var x := Rebuilt(plan)[n];
    RebuiltNotGone(plan, x, gone);
    forall y | y in Rebuilt(plan)[..n] ensures Apart(y, x) && y.id !in gone && ValidSpec(y.spec) {
      var i :| 0 <= i < n && Rebuilt(plan)[i] == y;
      RebuiltApart(plan, i, n);
      RebuiltNotGone(plan, y, gone);
    }
  }

  lemma RebuiltNotGone(plan: Plan, x: Index, gone: set<Id>)
    requires WellFormedPlan(plan) && x in Rebuilt(plan) && gone <= Ids(Declared(plan))
    ensures x.id !in gone && ValidSpec(x.spec)
  {
    hide *;
    RebuiltAt(plan);
    assert x in Declared(plan) + Removed(plan);
    RemovedValid(plan, x);
    if x.id in gone {
      var d :| d in Declared(plan) && d.id == x.id;
      DeclaredNotRemoved(plan, d, x);
      SameIdNotApart(d, x);
      assert false;
    }
  }

  lemma RemovedValid(plan: Plan, x: Index)
    requires WellFormedPlan(plan) && x in Declared(plan) + Removed(plan)
    ensures ValidSpec(x.spec)
  {
    hide ValidSpec;
    hide Declared;
    hide Removed;
  }

  lemma TargetIdsStep(plan: Plan, j: nat)
    requires j < |plan.swaps|
    ensures TargetIds(plan, j + 1) == TargetIds(plan, j) + {plan.swaps[j].target.id}
    ensures TargetIds(plan, j) <= Ids(Declared(plan)) && plan.swaps[j].target in Declared(plan)
  {
    var ts := Targets(plan.swaps);
    assert ts[..j + 1] == ts[..j] + [plan.swaps[j].target];
    assert ts[j] in Declared(plan);
    forall id | id in TargetIds(plan, j) ensures id in Ids(Declared(plan)) {
      var x :| x in ts[..j] && x.id == id;
      assert x in Declared(plan);
    }
  }

  /** The names gone after all replacements are undone and the first i created ones are dropped. */
  ghost function LoweredIds(plan: Plan, i: nat): set<Id>
    requires i <= |plan.creates|
  {
    TargetIds(plan, |plan.swaps|) + Ids(plan.creates[..i])
  }

  lemma LoweredIdsStep(plan: Plan, i: nat)
    requires i < |plan.creates|
    ensures LoweredIds(plan, i + 1) == LoweredIds(plan, i) + {plan.creates[i].id}
    ensures plan.creates[i] in Declared(plan)
  {
    assert plan.creates[..i + 1] == plan.creates[..i] + [plan.creates[i]];
  }

  lemma LoweredIdsEnds(plan: Plan)
    ensures TargetIds(plan, 0) == {} && LoweredIds(plan, 0) == TargetIds(plan, |plan.swaps|)
    ensures LoweredIds(plan, |plan.creates|) == Ids(Declared(plan))
  {
    var ts := Targets(plan.swaps);
    assert ts[..|plan.swaps|] == ts && plan.creates[..|plan.creates|] == plan.creates;
  }

  lemma LoweredStart(m: Indexes)
    ensures Lowered(m, m, [], {})
  {
  }

  lemma NotBack(m: Indexes, plan: Plan, n: nat)
    requires n < |Rebuilt(plan)| && Clash(m, ClearedDown(plan, n), Rebuilt(plan)[n])
    ensures !ComesBack(m, plan)
  {
    hide Clash;
    hide ClearedDown;
    hide Rebuilt;
  }

  lemma Back(m: Indexes, plan: Plan)
    requires forall n | 0 <= n < |Rebuilt(plan)| :: !Clash(m, ClearedDown(plan, n), Rebuilt(plan)[n])
    ensures ComesBack(m, plan)
  {
    hide Clash;
    hide ClearedDown;
    hide Rebuilt;
  }

  lemma NotRebuilt(plan: Plan, d: Index, xs: seq<Index>)
    requires WellFormedPlan(plan) && d in Declared(plan) && forall x | x in xs :: x in Rebuilt(plan)
    ensures !Declares(xs, d.id)
  {
    hide *;
    RebuiltAt(plan);
    if Declares(xs, d.id) {
      var x := DeclaredBy(xs, d.id);
      DeclaredNotRemoved(plan, d, x);
      SameIdNotApart(d, x);
      assert false;
    }
  }

  lemma DeclaredBy(xs: seq<Index>, id: Id) returns (x: Index)
    requires Declares(xs, id)
    ensures x in xs && x.id == id
  {
    x :| x in xs && x.id == id;
  }

  /** Rebuild the old indexes and take the new ones away. It stops at the first createIndex that
      mongod refuses. */
  method Down(db: Database, plan: Plan) returns (r: Outcome)
    requires WellFormedPlan(plan) && Coherent(db.indexes)
    modifies db
    ensures Coherent(db.indexes)
    ensures r.Done? <==> ComesBack(old(db.indexes), plan)
    ensures r.Done? ==> Lowered(old(db.indexes), db.indexes, Rebuilt(plan), Ids(Declared(plan)))
  {
    hide *;
    ghost var m := db.indexes;
    ghost var all := Rebuilt(plan);
    RebuiltAt(plan);
    LoweredStart(m);
    LoweredIdsEnds(plan);
    assert all[..0] == [] && all[..|all|] == all;
    r := Done;
    for k := 0 to |plan.drops|
      invariant Coherent(db.indexes) && Lowered(m, db.indexes, all[..k], {})
      invariant forall n | 0 <= n < k :: !Clash(m, ClearedDown(plan, n), all[n])
      invariant r.Done?
    {
      NextRebuilt(plan, k, {});
      ClearedDownAt(plan, k, 0);
      assert all[..k + 1] == all[..k] + [all[k]];
      r := RestoreIndex(db, plan.drops[k], m, all[..k], {});
      if !r.Done? {
        NotBack(m, plan, k);
        return;
      }
    }
    for j := 0 to |plan.swaps|
      invariant Coherent(db.indexes) && Lowered(m, db.indexes, all[..|plan.drops| + j], TargetIds(plan, j))
      invariant forall n | 0 <= n < |plan.drops| + j :: !Clash(m, ClearedDown(plan, n), all[n])
      invariant r.Done?
    {
      ghost var n := |plan.drops| + j;
      TargetIdsStep(plan, j);
      NextRebuilt(plan, n, TargetIds(plan, j));
      ClearedDownAt(plan, 0, j);
      assert all[..n + 1] == all[..n] + [all[n]];
      r := RestoreIndex(db, plan.swaps[j].former, m, all[..n], TargetIds(plan, j));
      if !r.Done? {
        NotBack(m, plan, n);
        return;
      }
      NotRebuilt(plan, plan.swaps[j].target, all[..n + 1]);
      DropLowered(m, db.indexes, all[..n + 1], TargetIds(plan, j), plan.swaps[j].target.id);
      db.DropIndexIfExists(plan.swaps[j].target.id);
    }
    Back(m, plan);
    for i := 0 to |plan.creates|
      invariant Coherent(db.indexes) && Lowered(m, db.indexes, all, LoweredIds(plan, i))
    {
      LoweredIdsStep(plan, i);
      NotRebuilt(plan, plan.creates[i], all);
      DropLowered(m, db.indexes, all, LoweredIds(plan, i), plan.creates[i].id);
      db.DropIndexIfExists(plan.creates[i].id);
    }
  }

  // ---------------------------------------------------------------- there and back

  /** The old shapes and none of the new names or keys. */
  ghost predicate OldShape(m: Indexes, plan: Plan) {
    && (forall x | x in Removed(plan) :: x.id in m && m[x.id] == x.spec)
    && (forall d | d in Declared(plan) :: d.id !in m)
    && (forall d, id | d in Declared(plan) && id in m && id.coll == d.id.coll ::
        KeySig(m[id].key) != KeySig(d.spec.key))
  }

  lemma OldShapeGoesThrough(m: Indexes, plan: Plan)
    requires OldShape(m, plan)
    ensures GoesThrough(m, plan)
  {
    hide *;
    forall d, id | d in Declared(plan) && id in m ensures !Blocks(d, id, m[id]) {
      OldShapeKey(m, plan, d, id);
      if Blocks(d, id, m[id]) {
        BlockerHasKey(d, id, m[id]);
        assert false;
      }
    }
    NoTtlGoesThrough(m, plan);
  }

  lemma OldShapeKey(m: Indexes, plan: Plan, d: Index, id: Id)
    requires OldShape(m, plan) && d in Declared(plan) && id in m
    ensures id.coll == d.id.coll ==> KeySig(m[id].key) != KeySig(d.spec.key)
  {
    hide Declared;
    hide Removed;
    hide KeySig;
  }

  lemma OldShapeNotSwept(m: Indexes, plan: Plan, id: Id)
    requires OldShape(m, plan) && id in m
    ensures !Swept(m, Declared(plan), id)
  {
    hide Declared;
    hide Removed;
    hide SpecSig;
    hide IsTwin;
    hide OldShape;
    if Swept(m, Declared(plan), id) {
      var d :| d in Declared(plan) && !Present(m, d) && IsTwin(d, id, m[id]);
      TwinHasKey(d, id, m[id]);
      OldShapeKey(m, plan, d, id);
      assert false;
    }
  }

  /** After `up` from the old shapes nothing stands in the way of an old index. */
  lemma NoClashAfterUp(m: Indexes, s: Indexes, plan: Plan, cleared: set<Id>, x: Index)
    requires WellFormedPlan(plan) && Coherent(m) && OldShape(m, plan) && x in Removed(plan)
    requires Reached(m, s, Declared(plan), Ids(Removed(plan)))
    ensures !Clash(s, cleared, x)
  {
    hide WellFormedPlan;
    hide Declared;
    hide Removed;
    hide SpecSig;
    hide IsTwin;
    hide Equivalent;
    hide ValidSpec;
    if Clash(s, cleared, x) {
      var id :| id in s && id.coll == x.id.coll && Equivalent(s[id], x.spec);
      EquivalentHasKey(s[id], x.spec);
      if Declares(Declared(plan), id) {
        var d := DeclaredBy(Declared(plan), id);
        DeclaredNotRemoved(plan, d, x);
        assert false;
      } else {
        assert false;
      }
    }
  }

  /** From the old shapes, `up` and then `down` give back exactly the index set there was. */
  lemma DownUndoesUp(m: Indexes, s: Indexes, t: Indexes, plan: Plan)
    requires WellFormedPlan(plan) && OldShape(m, plan)
    requires Reached(m, s, Declared(plan), Ids(Removed(plan)))
    requires Lowered(s, t, Rebuilt(plan), Ids(Declared(plan)))
    ensures t == m
  {
    hide WellFormedPlan;
    hide Declared;
    hide Removed;
    hide Rebuilt;
    hide SpecSig;
    hide IsTwin;
    hide Swept;
    RebuiltAt(plan);
    forall id | id in m ensures id in t && t[id] == m[id] {
      OldShapeNotSwept(m, plan, id);
      if id in Ids(Removed(plan)) {
        var x :| x in Removed(plan) && x.id == id;
        assert x in Rebuilt(plan);
      }
    }
    forall id | id in t ensures id in m {
      if Declares(Rebuilt(plan), id) {
        var x := DeclaredBy(Rebuilt(plan), id);
      } else if Declares(Declared(plan), id) {
        var d := DeclaredBy(Declared(plan), id);
        assert false;
      }
    }
  }

  /** `down` on the set that `up` has reached from the old shapes gets through and gives back exactly the set
      there was. */
  method DownAfterUp(db: Database, plan: Plan, ghost m: Indexes) returns (r: Outcome)
    requires WellFormedPlan(plan) && Coherent(m) && OldShape(m, plan)
    requires Coherent(db.indexes) && Reached(m, db.indexes, Declared(plan), Ids(Removed(plan)))
    modifies db
    ensures r.Done? && db.indexes == m
  {
    hide *;
    ghost var s := db.indexes;
    RebuiltAt(plan);
    forall n | 0 <= n < |Rebuilt(plan)| ensures !Clash(s, ClearedDown(plan, n), Rebuilt(plan)[n]) {
      assert Rebuilt(plan)[n] in Rebuilt(plan);
      NoClashAfterUp(m, s, plan, ClearedDown(plan, n), Rebuilt(plan)[n]);
    }
    Back(s, plan);
    r := Down(db, plan);
    DownUndoesUp(m, s, db.indexes, plan);
  }

  /** Both runs from the old shapes: neither meets a conflict. */
  method UpThenDown(db: Database, plan: Plan) returns (up: Outcome, down: Outcome)
    requires WellFormedPlan(plan) && Coherent(db.indexes) && OldShape(db.indexes, plan)
    modifies db
    ensures up.Done? && down.Done? && db.indexes == old(db.indexes)
  {
    hide *;
    ghost var m := db.indexes;
    OldShapeGoesThrough(m, plan);
    up := Up(db, plan);
    down := DownAfterUp(db, plan, m);
  }
}
