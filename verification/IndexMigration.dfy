/** The index migrations: bring a database's indexes to a declared shape by creating the new index
    before dropping the old one, and back again. */
module IndexMigration {
  import opened IndexSpec
  import opened StableJson
  import opened Wrappers

  /** Index names are unique within a collection. */
  datatype Id = Id(coll: string, name: string)

  /** All indexes of a database, as listIndexes reports them. */
  type Indexes = map<Id, Spec>

  /** An index a migration declares. */
  datatype Index = Index(id: Id, spec: Spec)

  /** What mongod answers to createIndex. */
  datatype Outcome = Done | OptionsConflict | NameConflict

  /** One entry of a migration that replaces an index. */
  datatype Replacement = Replacement(target: Index, former: Index)

  /** A migration: indexes only created, indexes replaced, indexes only dropped. */
  datatype Plan = Plan(creates: seq<Index>, swaps: seq<Replacement>, drops: seq<Index>)

  // ---------------------------------------------------------------- index sets

  /** What mongod maintains: no two equivalent indexes in one collection. */
  ghost predicate Coherent(m: Indexes) {
    && (forall id | id in m :: ValidSpec(m[id]))
    && (forall x, y | x in m && y in m && x.coll == y.coll && x != y :: !Equivalent(m[x], m[y]))
  }

  /** The declared index is there under its name with exactly the declared signature. */
  predicate Present(m: Indexes, d: Index) {
    d.id in m && SpecSig(m[d.id]) == SpecSig(d.spec)
  }

  /** An index under another name that has to go before d can be created. */
  predicate IsTwin(d: Index, id: Id, spec: Spec) {
    id.coll == d.id.coll && id != d.id && IsEquivalentTwin(spec, d.spec) && spec.ttl == d.spec.ttl
  }

  function Twins(m: Indexes, d: Index): (ids: set<Id>)
    ensures forall id :: id in ids <==> id in m && IsTwin(d, id, m[id])
  {
    set id | id in m && IsTwin(d, id, m[id])
  }

  /** An index that mongod calls equivalent to d but that carries another TTL: the migrations will
      not drop it and mongod will not let d in beside it. */
  ghost predicate Blocks(d: Index, id: Id, spec: Spec) {
    id.coll == d.id.coll && id != d.id && Equivalent(spec, d.spec) && spec.ttl != d.spec.ttl
  }

  ghost predicate Blocked(m: Indexes, d: Index) {
    !Present(m, d) && exists id | id in m :: Blocks(d, id, m[id])
  }

  /** The index set after a successful ensure. */
  function Ensured(m: Indexes, d: Index): Indexes {
    if Present(m, d) then m else (m - {d.id} - Twins(m, d))[d.id := d.spec]
  }

  // ---------------------------------------------------------------- mongod's rule and the signatures

  /** mongod's rule in terms of the signatures, short of the key. */
  lemma EquivalentBySignatures(a: Spec, b: Spec)
    requires ValidSpec(a) && ValidSpec(b)
    ensures Equivalent(a, b) <==>
            && a.key == b.key
            && Stable(CollationSig(a.collation)) == Stable(CollationSig(b.collation))
            && a.unique == b.unique && a.sparse == b.sparse
            && Stable(PartialSig(a)) == Stable(PartialSig(b))
  {
    CollationSigWellFormed(a.collation);
    CollationSigWellFormed(b.collation);
    StableIsCanonical(CollationSig(a.collation), CollationSig(b.collation));
    CollationSigMeaning(a.collation, b.collation);
    StableIsCanonical(PartialSig(a), PartialSig(b));
    PartialSigMeaning(a, b);
  }

  lemma EquivalentSymmetric(a: Spec, b: Spec)
    requires ValidSpec(a) && ValidSpec(b)
    ensures Equivalent(a, b) <==> Equivalent(b, a)
  {
    EquivalentBySignatures(a, b);
    EquivalentBySignatures(b, a);
  }

  lemma EquivalentIsTwin(a: Spec, b: Spec)
    requires ValidSpec(a) && ValidSpec(b) && Equivalent(a, b)
    ensures IsEquivalentTwin(a, b)
  {
    EquivalentBySignatures(a, b);
  }

  lemma SameSigSameKey(a: Spec, b: Spec)
    requires ValidSpec(a) && ValidSpec(b) && SpecSig(a) == SpecSig(b)
    ensures KeySig(a.key) == KeySig(b.key)
  {
    SpecSigMeaning(a, b);
  }

  lemma AddCoherent(m: Indexes, d: Index)
    requires Coherent(m) && d.id !in m && ValidSpec(d.spec)
    requires forall id | id in m && id.coll == d.id.coll :: !Equivalent(m[id], d.spec)
    ensures Coherent(m[d.id := d.spec])
  {
    hide Equivalent;
    hide ValidSpec;
    forall id | id in m && id.coll == d.id.coll ensures !Equivalent(d.spec, m[id]) {
      EquivalentSymmetric(d.spec, m[id]);
    }
  }

  /** Once the name and the twins are gone, what still conflicts with d is exactly what blocks it. */
  lemma ConflictsLeft(m: Indexes, d: Index)
    requires Coherent(m) && ValidSpec(d.spec)
    ensures (forall id | id in m - {d.id} - Twins(m, d) && id.coll == d.id.coll :: !Equivalent(m[id], d.spec))
       <==> (forall id | id in m :: !Blocks(d, id, m[id]))
  {
    hide Equivalent;
    hide ValidSpec;
    hide IsEquivalentTwin;
    var left := m - {d.id} - Twins(m, d);
    forall id | id in m
      ensures id in left && id.coll == d.id.coll && Equivalent(m[id], d.spec) <==> Blocks(d, id, m[id])
    {
      if Equivalent(m[id], d.spec) {
        EquivalentIsTwin(m[id], d.spec);
      }
    }
    if forall id | id in m :: !Blocks(d, id, m[id]) {
      forall id | id in left && id.coll == d.id.coll ensures !Equivalent(m[id], d.spec) {
        assert id in m && !Blocks(d, id, m[id]);
      }
    }
  }

  // ---------------------------------------------------------------- the database

  lemma BetweenEnds(m: Indexes, d: Index)
    ensures Between(m, m, d)
    ensures Between(m, m - {d.id}, d)
    ensures Between(m, m - {d.id} - Twins(m, d), d)
    ensures Between(m, (m - {d.id} - Twins(m, d))[d.id := d.spec], d)
  {
    hide IsEquivalentTwin;
  }

  lemma PresentDone(m: Indexes, d: Index)
    requires d.id in m && SpecSig(m[d.id]) == SpecSig(d.spec)
    ensures Present(m, d) && !Blocked(m, d) && Ensured(m, d) == m
  {
    hide SpecSig;
    hide Blocks;
  }

  lemma BlockedOrNot(m: Indexes, d: Index)
    requires !(d.id in m && SpecSig(m[d.id]) == SpecSig(d.spec))
    ensures !Present(m, d) && Ensured(m, d) == (m - {d.id} - Twins(m, d))[d.id := d.spec]
    ensures Blocked(m, d) <==> !forall id | id in m :: !Blocks(d, id, m[id])
  {
    hide SpecSig;
    hide Blocks;
  }

  /** What ensuring d may remove. */
  predicate Touches(d: Index, id: Id, spec: Spec) {
    id == d.id || IsTwin(d, id, spec)
  }

  /** An index set on the way from m to the set with d: what d does not touch is still there, and
      nothing but d is new. */
  ghost predicate Between(m: Indexes, s: Indexes, d: Index) {
    && (forall id | id in m && !Touches(d, id, m[id]) :: id in s && s[id] == m[id])
    && (forall id | id in s :: (id in m && s[id] == m[id]) || (id == d.id && s[id] == d.spec))
  }

  class Database {
    var indexes: Indexes
    /** Every index set the database has gone through, one entry for each create and drop. */
    ghost var trail: seq<Indexes>

    method CreateIndex(d: Index) returns (r: Outcome)
      requires Coherent(indexes) && ValidSpec(d.spec)
      modifies this
      ensures Coherent(indexes)
      ensures d.id !in old(indexes) ==>
                (r.Done? <==> forall id | id in old(indexes) && id.coll == d.id.coll ::
                  !Equivalent(old(indexes)[id], d.spec))
      ensures d.id in old(indexes) ==> (r.Done? <==> SameSpec(old(indexes)[d.id], d.spec))
      ensures !r.Done? ==> (r.NameConflict? <==> d.id in old(indexes))
      ensures if r.Done? && d.id !in old(indexes)
              then indexes == old(indexes)[d.id := d.spec] && trail == old(trail) + [indexes]
              else indexes == old(indexes) && trail == old(trail)
    {
      hide Equivalent;
      hide SameSpec;
      if d.id in indexes {
        r := if SameSpec(indexes[d.id], d.spec) then Done else NameConflict;
      } else if exists id | id in indexes :: id.coll == d.id.coll && Equivalent(indexes[id], d.spec) {
        r := OptionsConflict;
      } else {
        AddCoherent(indexes, d);
        indexes := indexes[d.id := d.spec];
        trail := trail + [indexes];
        r := Done;
      }
    }

    method DropIndex(id: Id)
      requires Coherent(indexes)
      modifies this
      ensures Coherent(indexes)
      ensures indexes == old(indexes) - {id} && trail == old(trail) + [indexes]
    {
      hide Equivalent;
      hide ValidSpec;
      indexes := indexes - {id};
      trail := trail + [indexes];
    }

    method DropIndexIfExists(id: Id)
      requires Coherent(indexes)
      modifies this
      ensures Coherent(indexes)
      ensures indexes == old(indexes) - {id}
      ensures trail == if id in old(indexes) then old(trail) + [indexes] else old(trail)
    {
      if id in indexes {
        DropIndex(id);
      }
    }

    /** Drop the other indexes on the declared key that mongod takes for d, among those that were
        listed before anything was dropped. The order of the listing is free. */
    method DropTwins(all: Indexes, d: Index)
      requires Coherent(indexes) && indexes == all - {d.id}
      modifies this
      ensures Coherent(indexes)
      ensures indexes == all - {d.id} - Twins(all, d)
      ensures old(trail) <= trail
      ensures forall k | |old(trail)| <= k < |trail| :: Between(all, trail[k], d)
    {
      hide IsEquivalentTwin;
      hide Coherent;
      var rest := Twins(all, d);
      while rest != {}
        invariant rest <= Twins(all, d)
        invariant Coherent(indexes)
        invariant indexes == all - {d.id} - (Twins(all, d) - rest)
        invariant old(trail) <= trail
        invariant forall k | |old(trail)| <= k < |trail| :: Between(all, trail[k], d)
      {
        var id :| id in rest;
        DropIndex(id);
        rest := rest - {id};
        assert indexes == all - {d.id} - (Twins(all, d) - rest);
      }
    }

    /** Make the declared index present. Fails only at createIndex, and exactly when an equivalent
        index under another name carries another TTL. */
    method EnsureIndex(d: Index) returns (r: Outcome)
      requires Coherent(indexes) && ValidSpec(d.spec)
      modifies this
      ensures Coherent(indexes)
      ensures r.Done? <==> !Blocked(old(indexes), d)
      ensures r.Done? ==> indexes == Ensured(old(indexes), d)
      ensures !r.Done? ==> r.OptionsConflict?
      ensures Present(old(indexes), d) ==> indexes == old(indexes) && trail == old(trail)
      ensures old(trail) <= trail
      ensures forall k | |old(trail)| <= k < |trail| :: Between(old(indexes), trail[k], d)
      ensures Between(old(indexes), indexes, d)
    {
      hide *;
      var all := indexes;
      BetweenEnds(all, d);
      if d.id in all && SpecSig(all[d.id]) == SpecSig(d.spec) {
        PresentDone(all, d);
        return Done;
      }
      BlockedOrNot(all, d);
      DropIndexIfExists(d.id);
      DropTwins(all, d);
      ConflictsLeft(all, d);
      r := CreateIndex(d);
    }
  }
}
