/** Re-signing the audit chain: payload defaults written back, and every record chained to the one before. */
module AuditChain {
  import opened Texts
  import opened Wrappers

  datatype Value = Null | Known(text: string)

  /** A stored document's own fields; an absent field is undefined. */
  type Fields = map<string, Value>

  datatype Record = Record(fields: Fields, prevHash: Option<string>, hash: Option<string>, hmac: Option<string>,
                           version: nat)

  /** The canonical payload text, the digest of a text and the HMAC of a hash. */
  datatype Scheme = Scheme(canonical: Fields -> string, digest: string -> string, macOf: string -> Option<string>)

  const BATCH_SIZE: nat := 1000
  const CURRENT_VERSION: nat := 6
  const TIMESTAMP := "timestamp"
  const DEFAULTED: seq<string> := [TIMESTAMP, "params", "query", "body", "riskLevel", "riskFactors"]

  function DefaultOf(name: string, now: string): Value {
    if name == TIMESTAMP then Known(now)
    else if name == "riskLevel" then Known("low")
    else if name == "riskFactors" then Known("[]")
    else Known("{}")
  }

  /** A field that gets its default: it is undefined, or it is the timestamp and null. */
  predicate Lacks(fields: Fields, name: string) {
    name !in fields || (name == TIMESTAMP && fields[name] == Null)
  }

  function Filled(fields: Fields, names: seq<string>, now: string): Fields
    decreases |names|
  {
    if names == [] then fields
    else
      var next := if Lacks(fields, names[0]) then fields[names[0] := DefaultOf(names[0], now)] else fields;
      Filled(next, names[1..], now)
  }

  /** The chain hash: the digest of the previous hash, or the text null, and the payload behind a bar. */
  function ComputeHash(sc: Scheme, prev: Option<string>, payload: string): string {
    sc.digest(PrevText(prev) + (['|'] + payload))
  }

  function PrevText(prev: Option<string>): string {
    if prev.Some? then prev.value else "null"
  }

  /** One record, chained to the given hash. */
  function Resigned(sc: Scheme, r: Record, prev: Option<string>, now: string): (s: Record)
    ensures s.hash.Some?
  {
    var fields := Filled(r.fields, DEFAULTED, now);
    var hash := ComputeHash(sc, prev, sc.canonical(fields));
    Record(fields, prev, Some(hash), sc.macOf(hash), CURRENT_VERSION)
  }

  /** The left fold over the records in _id order; record i of the run sees clock(i). */
  function Rechained(sc: Scheme, rs: seq<Record>, prev: Option<string>, clock: nat -> string,
                     i: nat): (out: seq<Record>)
    ensures |out| == |rs|
  {
    if rs == [] then []
    else
      var r := Resigned(sc, rs[0], prev, clock(i));
      [r] + Rechained(sc, rs[1..], r.hash, clock, i + 1)
  }

  /** The hash the fold carries behind the records. */
  function LastHash(rs: seq<Record>, prev: Option<string>): Option<string> {
    if rs == [] then prev else rs[|rs| - 1].hash
  }

  function Unsigned(rs: seq<Record>): nat {
    if rs == [] then 0 else Unsigned(rs[..|rs| - 1]) + if rs[|rs| - 1].hmac.None? then 1 else 0
  }

  /** What is stored when only some records of a run were written. */
  function Mixed(rs: seq<Record>, out: seq<Record>, written: set<nat>): (mixed: seq<Record>)
    requires |out| == |rs|
    ensures |mixed| == |rs| && forall i | 0 <= i < |rs| :: mixed[i] == if i in written then out[i] else rs[i]
  {
    seq(|rs|, i requires 0 <= i < |rs| => if i in written then out[i] else rs[i])
  }

  ghost function Below(n: nat): (r: set<nat>)
    ensures forall i :: i in r <==> 0 <= i < n
  {
    if n == 0 then {} else Below(n - 1) + {n - 1}
  }

  function Pages(count: nat): nat {
    (count + BATCH_SIZE - 1) / BATCH_SIZE
  }

  // ---------------------------------------------------------------- the fold, piece by piece

  lemma {:induction false} RechainedAppend(sc: Scheme, xs: seq<Record>, ys: seq<Record>, prev: Option<string>,
                                           clock: nat -> string, i: nat)
    ensures Rechained(sc, xs + ys, prev, clock, i) ==
            Rechained(sc, xs, prev, clock, i) + Rechained(sc, ys, LastHash(Rechained(sc, xs, prev, clock, i), prev),
                                                          clock, i + |xs|)
  {
    hide Resigned;
    if xs == [] {
      assert xs + ys == ys;
    } else {
      assert (xs + ys)[0] == xs[0] && (xs + ys)[1..] == xs[1..] + ys;
      var r := Resigned(sc, xs[0], prev, clock(i));
      RechainedAppend(sc, xs[1..], ys, r.hash, clock, i + 1);
      var out, rest := Rechained(sc, xs, prev, clock, i), Rechained(sc, xs[1..], r.hash, clock, i + 1);
      assert LastHash(out, prev) == LastHash(rest, r.hash);
      assert [r] + (rest + Rechained(sc, ys, LastHash(rest, r.hash), clock, i + |xs|)) ==
             out + Rechained(sc, ys, LastHash(out, prev), clock, i + |xs|);
    }
  }

  lemma RechainedNext(sc: Scheme, xs: seq<Record>, y: Record, prev: Option<string>, clock: nat -> string, i: nat)
    ensures var done := Rechained(sc, xs, prev, clock, i);
            Rechained(sc, xs + [y], prev, clock, i) == done + [Resigned(sc, y, LastHash(done, prev), clock(i + |xs|))]
  {
    RechainedAppend(sc, xs, [y], prev, clock, i);
    var h := LastHash(Rechained(sc, xs, prev, clock, i), prev);
    var s := Resigned(sc, y, h, clock(i + |xs|));
    assert Rechained(sc, [y], h, clock, i + |xs|) == [s] + Rechained(sc, [], s.hash, clock, i + |xs| + 1);
  }

  // ---------------------------------------------------------------- the program

  /** The records of one page, chained to the hash carried in. */
  method ChainPage(sc: Scheme, docs: seq<Record>, prev: Option<string>, clock: nat -> string, at: nat)
    returns (operations: seq<Record>, last: Option<string>, missing: nat)
    ensures operations == Rechained(sc, docs, prev, clock, at)
    ensures last == LastHash(operations, prev) && missing == Unsigned(operations)
  {
    hide Resigned;
    operations, last, missing := [], prev, 0;
    assert docs[..0] == [];
    for k := 0 to |docs|
      invariant operations == Rechained(sc, docs[..k], prev, clock, at) && |operations| == k
      invariant last == LastHash(operations, prev) && missing == Unsigned(operations)
    {
      var r := Resigned(sc, docs[k], last, clock(at + k));
      assert docs[..k + 1] == docs[..k] + [docs[k]];
      RechainedNext(sc, docs[..k], docs[k], prev, clock, at);
      assert (operations + [r])[..k] == operations;
      last := r.hash;
      if r.hmac.None? { missing := missing + 1; }
      operations := operations + [r];
    }
    assert docs[..|docs|] == docs;
  }

  /** What the writes of a run meet: which records' writes land, and after which pages' writes an answer comes. */
  datatype World = World(lands: nat -> bool, answers: nat -> bool)

  class Collection {
    /** The stored records in _id order. */
    var docs: seq<Record>

    /** Write the records of a page, in no particular order; any of the writes can fail. */
    method BulkWrite(operations: seq<Record>, from: nat, w: World) returns (ok: bool, ghost written: set<nat>)
      requires from + |operations| <= |docs|
      modifies this
      ensures |docs| == |old(docs)|
      ensures forall i: nat :: i in written <==> from <= i < from + |operations| && w.lands(i)
      ensures ok <==> w.answers(from) && forall i: nat | from <= i < from + |operations| :: w.lands(i)
      ensures forall i: nat | i < |docs| :: docs[i] == if i in written then operations[i - from] else old(docs)[i]
      ensures ok ==> docs == old(docs)[..from] + operations + old(docs)[from + |operations|..]
    {
      ok, written := true, {};
      for k := 0 to |operations|
        invariant |docs| == |old(docs)| && forall i: nat :: i in written <==> from <= i < from + k && w.lands(i)
        invariant forall i: nat | i < |docs| :: docs[i] == if i in written then operations[i - from] else old(docs)[i]
        invariant ok <==> forall i: nat | from <= i < from + k :: w.lands(i)
      {
        if w.lands(from + k) {
          docs := docs[from + k := operations[k]];
          written := written + {from + k};
        } else {
          ok := false;
        }
      }
      ok := ok && w.answers(from);
    }

    /** One page: read it, chain it, and write it back. */
    method RechainPage(sc: Scheme, clock: nat -> string, apply: bool, w: World, from: nat, prevHash: Option<string>,
                       ghost all: seq<Record>, ghost done: seq<Record>)
      returns (ok: bool, operations: seq<Record>, last: Option<string>, missing: nat, ghost written: set<nat>)
      requires |done| == from < |all| && done == Rechained(sc, all[..from], None, clock, 0)
      requires prevHash == LastHash(done, None) && docs == if apply then done + all[from..] else all
      modifies this
      ensures |done + operations| == if from + BATCH_SIZE < |all| then from + BATCH_SIZE else |all|
      ensures done + operations == Rechained(sc, all[..|done + operations|], None, clock, 0)
      ensures last == LastHash(done + operations, None) && Unsigned(done + operations) == Unsigned(done) + missing
      ensures ok ==> docs == if apply then (done + operations) + all[|done + operations|..] else all
      ensures !ok ==> docs == Mixed(all, Rechained(sc, all, None, clock, 0), written)
      ensures ok <==> !apply || (w.answers(from) && forall i: nat | from <= i < |done + operations| :: w.lands(i))
      ensures !ok ==> forall i: nat :: i in written <==> i < from || (i < |done + operations| && w.lands(i))
    {
      assert BATCH_SIZE > 0;
      hide *;
      ok, written := true, {};
      PageUnwritten(done, all, docs, |all|);
      var upTo := if from + BATCH_SIZE < |docs| then from + BATCH_SIZE else |docs|;
      PageUnwritten(done, all, docs, upTo);
      operations, last, missing := ChainPage(sc, docs[from..upTo], prevHash, clock, from);
      PageDone(sc, all, done, operations, upTo, clock);
      assert |done + operations| == from + |operations| == upTo;
      if apply && operations != [] {
        ok, written := StorePage(operations, w, from, sc, clock, all, done);
      }
    }

    /** Write a page back behind what is done. */
    method StorePage(operations: seq<Record>, w: World, from: nat, ghost sc: Scheme, ghost clock: nat -> string,
                     ghost all: seq<Record>, ghost done: seq<Record>)
      returns (ok: bool, ghost written: set<nat>)
      requires |done| == from <= |done + operations| <= |all| && docs == done + all[from..]
      requires done + operations == Rechained(sc, all[..|done + operations|], None, clock, 0)
      modifies this
      ensures ok ==> docs == (done + operations) + all[|done + operations|..]
      ensures !ok ==> docs == Mixed(all, Rechained(sc, all, None, clock, 0), written)
      ensures ok <==> w.answers(from) && forall i: nat | from <= i < |done + operations| :: w.lands(i)
      ensures !ok ==> forall i: nat :: i in written <==> i < from || (i < |done + operations| && w.lands(i))
    {
      hide *;
      written := {};
      var upTo := from + |operations|;
      WritePage(done, operations, all, from, upTo);
      ghost var page;
      ok, page := BulkWrite(operations, from, w);
      if !ok {
        written := page + Below(from);
        PageWritten(page, from, upTo, w);
        PagePrefix(sc, all, done + operations, clock);
        PageMixed(all, Rechained(sc, all, None, clock, 0), done, operations, docs, page);
      }
    }

    /** Page by page: read, chain in memory, and write the page back before the next is read. A page whose
        write fails in part ends the run. */
    method Rechain(sc: Scheme, clock: nat -> string, apply: bool, w: World)
      returns (ok: bool, count: nat, chained: nat, hmacMissing: nat, batches: nat, ghost written: set<nat>)
      modifies this
      ensures |docs| == |old(docs)| && count == |docs| && count <= 1000 * batches < count + 1000
      ensures ok ==> chained == count
      ensures ok <==> !apply || ((forall i: nat | i < count :: w.lands(i)) &&
                                 (forall page: nat | page < batches :: w.answers(page * BATCH_SIZE)))
      ensures ok ==> hmacMissing == Unsigned(Rechained(sc, old(docs), None, clock, 0))
      ensures ok ==> docs == if apply then Rechained(sc, old(docs), None, clock, 0) else old(docs)
      ensures !ok ==> docs == Mixed(old(docs), Rechained(sc, old(docs), None, clock, 0), written)
      ensures !ok ==> exists page: nat :: StoppedIn(written, page, count, w)
    {
      hide *;
      ghost var all := docs;
      ok, written := true, {};
      count := |docs|;
      batches := Pages(count);
      PagesMeans(count);
      var prevHash: Option<string> := None;
      chained, hmacMissing := 0, 0;
      ghost var done: seq<Record> := [];
      NothingYet(sc, clock);
      assert all[..0] == [] && all[0..] == all && [] + all == all;
      for page := 0 to batches
        invariant ok && chained == |done| <= |all| == |docs| && done == Rechained(sc, all[..|done|], None, clock, 0)
        invariant page < batches ==> |done| == page * BATCH_SIZE
        invariant page == batches ==> |done| == |all|
        invariant prevHash == LastHash(done, None) && hmacMissing == Unsigned(done)
        invariant docs == if apply then done + all[|done|..] else all
        invariant apply ==> (forall i: nat | i < |done| :: w.lands(i)) &&
                            (forall p: nat | p < page :: w.answers(p * BATCH_SIZE))
      {
        LastPage(page, count);
        ghost var before := done;
        var operations, missing;
        ok, operations, prevHash, missing, written :=
          RechainPage(sc, clock, apply, w, page * BATCH_SIZE, prevHash, all, done);
        if !ok {
          PageReached(written, page, count, w);
          return;
        }
        done := done + operations;
        hmacMissing, chained := hmacMissing + missing, chained + |operations|;
      }
      assert all[..|all|] == all && all[|all|..] == [] && done + [] == done;
    }
  }

  /** Every page before this one is written, of this one the records whose writes landed, and none behind it;
      and this is the first page where a write failed or no answer came. */
  ghost predicate StoppedIn(written: set<nat>, page: nat, count: nat, w: World) {
    && (forall i: nat :: i in written <==>
          i < page * BATCH_SIZE || (i < (page + 1) * BATCH_SIZE && i < count && w.lands(i)))
    && (forall i: nat | i < page * BATCH_SIZE :: w.lands(i))
    && (forall p: nat | p < page :: w.answers(p * BATCH_SIZE))
    && (w.answers(page * BATCH_SIZE) ==>
          exists i: nat :: page * BATCH_SIZE <= i < (page + 1) * BATCH_SIZE && i < count && !w.lands(i))
  }

  lemma PageReached(written: set<nat>, page: nat, count: nat, w: World)
    requires var from, upTo := page * BATCH_SIZE, if page * BATCH_SIZE + BATCH_SIZE < count
                 then page * BATCH_SIZE + BATCH_SIZE else count;
             && !(w.answers(from) && forall i: nat | from <= i < upTo :: w.lands(i))
             && (forall i: nat :: i in written <==> i < from || (i < upTo && w.lands(i)))
             && (forall i: nat | i < from :: w.lands(i)) && (forall p: nat | p < page :: w.answers(p * BATCH_SIZE))
    ensures StoppedIn(written, page, count, w)
  {
    assert (page + 1) * BATCH_SIZE == page * BATCH_SIZE + BATCH_SIZE;
  }

  lemma PagesMeans(count: nat)
    ensures count <= 1000 * Pages(count) < count + 1000
  {
  }

  lemma PageWritten(page: set<nat>, from: nat, upTo: nat, w: World)
    requires forall i: nat :: i in page <==> from <= i < upTo && w.lands(i)
    ensures from <= upTo ==> forall i: nat :: i in page + Below(from) <==> i < from || (i < upTo && w.lands(i))
  {
  }

  lemma PageMixed(all: seq<Record>, out: seq<Record>, done: seq<Record>, ops: seq<Record>, docs: seq<Record>,
                  page: set<nat>)
    requires |docs| == |all| == |out| && |done + ops| <= |out| && done + ops == out[..|done + ops|]
    requires forall i | i in page :: |done| <= i < |done| + |ops|
    requires forall i: nat | i < |docs| ::
               docs[i] == if i in page then ops[i - |done|] else (done + all[|done|..])[i]
    ensures docs == Mixed(all, out, page + Below(|done|))
  {
    forall i: nat | i < |docs| ensures docs[i] == Mixed(all, out, page + Below(|done|))[i] {
      if i < |done + ops| { assert out[i] == (done + ops)[i]; }
    }
  }

  /** What a run has chained so far is how the whole run begins. */
  lemma PagePrefix(sc: Scheme, all: seq<Record>, done: seq<Record>, clock: nat -> string)
    requires |done| <= |all| && done == Rechained(sc, all[..|done|], None, clock, 0)
    ensures done == Rechained(sc, all, None, clock, 0)[..|done|]
  {
    hide *;
    RechainedAppend(sc, all[..|done|], all[|done|..], None, clock, 0);
    assert all == all[..|done|] + all[|done|..];
  }

  lemma PageUnwritten(done: seq<Record>, all: seq<Record>, docs: seq<Record>, upTo: nat)
    requires |done| <= upTo <= |all| && (docs == done + all[|done|..] || docs == all)
    ensures |docs| == |all| && docs[|done|..upTo] == all[|done|..upTo]
  {
  }

  lemma PageDone(sc: Scheme, all: seq<Record>, done: seq<Record>, ops: seq<Record>, upTo: nat, clock: nat -> string)
    requires |done| <= upTo <= |all| && done == Rechained(sc, all[..|done|], None, clock, 0)
    requires ops == Rechained(sc, all[|done|..upTo], LastHash(done, None), clock, |done|)
    ensures |ops| == upTo - |done| && done + ops == Rechained(sc, all[..upTo], None, clock, 0)
    ensures LastHash(done + ops, None) == LastHash(ops, LastHash(done, None))
    ensures Unsigned(done + ops) == Unsigned(done) + Unsigned(ops)
  {
    hide *;
    RechainedAppend(sc, all[..|done|], all[|done|..upTo], None, clock, 0);
    assert all[..upTo] == all[..|done|] + all[|done|..upTo];
    UnsignedAppend(done, ops);
    LastHashAppend(done, ops);
  }

  lemma LastHashAppend(xs: seq<Record>, ys: seq<Record>)
    ensures LastHash(xs + ys, None) == LastHash(ys, LastHash(xs, None))
  {
    assert ys == [] ==> xs + ys == xs;
  }

  lemma {:induction false} UnsignedAppend(xs: seq<Record>, ys: seq<Record>)
    ensures Unsigned(xs + ys) == Unsigned(xs) + Unsigned(ys)
  {
    if ys == [] {
      assert xs + ys == xs;
    } else {
      var n := |ys| - 1;
      assert (xs + ys)[..|xs| + n] == xs + ys[..n];
      UnsignedAppend(xs, ys[..n]);
    }
  }

  lemma NothingYet(sc: Scheme, clock: nat -> string)
    ensures Rechained(sc, [], None, clock, 0) == [] && Unsigned([]) == 0 && LastHash([], None) == None
    ensures forall n: nat :: Pages(n) == 0 ==> n == 0
    ensures BATCH_SIZE > 0 && 0 * BATCH_SIZE == 0
  {
  }

  lemma WritePage(before: seq<Record>, ops: seq<Record>, all: seq<Record>, from: nat, upTo: nat)
    requires |before| == from <= upTo <= |all| && |ops| == upTo - from
    ensures (before + all[from..])[..from] + ops + (before + all[from..])[upTo..] == (before + ops) + all[upTo..]
  {
  }

  lemma LastPage(page: nat, count: nat)
    requires page < Pages(count)
    ensures page * BATCH_SIZE < count && (page + 1) * BATCH_SIZE == page * BATCH_SIZE + BATCH_SIZE
    ensures page + 1 < Pages(count) ==> (page + 1) * BATCH_SIZE < count
    ensures page + 1 == Pages(count) ==> (page + 1) * BATCH_SIZE >= count
  {
  }

  // ---------------------------------------------------------------- what a chain is

  /** No payload field lacks its default: what a reader finds is what the hash covers. */
  predicate Complete(fields: Fields) {
    forall i | 0 <= i < |DEFAULTED| :: !Lacks(fields, DEFAULTED[i])
  }

  /** The record is linked to prev, and its hash and HMAC are those of its own stored payload. */
  predicate Holds(sc: Scheme, r: Record, prev: Option<string>) {
    && r.prevHash == prev
    && r.hash == Some(ComputeHash(sc, prev, sc.canonical(r.fields)))
    && r.hmac == sc.macOf(r.hash.value)
    && r.version == CURRENT_VERSION
  }

  /** Record i is complete and linked to the one before it, the first to prev. */
  ghost predicate Linked(sc: Scheme, rs: seq<Record>, prev: Option<string>, i: nat)
    requires i < |rs|
  {
    Complete(rs[i].fields) && Holds(sc, rs[i], if i == 0 then prev else rs[i - 1].hash)
  }

  ghost predicate Chain(sc: Scheme, rs: seq<Record>, prev: Option<string>) {
    forall i: nat | i < |rs| :: Linked(sc, rs, prev, i)
  }

  lemma {:induction false} FilledKeeps(fields: Fields, names: seq<string>, now: string)
    ensures forall f :: f in Filled(fields, names, now) <==> f in fields || f in names
    ensures forall f | f in fields && !(f in names && Lacks(fields, f)) :: Filled(fields, names, now)[f] == fields[f]
    ensures forall i | 0 <= i < |names| :: !Lacks(Filled(fields, names, now), names[i])
    ensures forall f | f in names && Lacks(fields, f) :: Filled(fields, names, now)[f] == DefaultOf(f, now)
    decreases |names|
  {
    if names != [] {
      var next := if Lacks(fields, names[0]) then fields[names[0] := DefaultOf(names[0], now)] else fields;
      FilledKeeps(next, names[1..], now);
      forall i | 0 <= i < |names| ensures !Lacks(Filled(fields, names, now), names[i]) {
        if i > 0 { assert names[i] == names[1..][i - 1]; }
      }
    }
  }

  lemma {:induction false} FilledComplete(fields: Fields, names: seq<string>, now: string)
    requires forall i | 0 <= i < |names| :: !Lacks(fields, names[i])
    ensures Filled(fields, names, now) == fields
    decreases |names|
  {
    if names != [] {
      FilledComplete(fields, names[1..], now);
    }
  }

  lemma {:induction false} RechainedIsChain(sc: Scheme, rs: seq<Record>, prev: Option<string>, clock: nat -> string,
                                            i: nat)
    ensures Chain(sc, Rechained(sc, rs, prev, clock, i), prev)
  {
    if rs != [] {
      var r := Resigned(sc, rs[0], prev, clock(i));
      FilledKeeps(rs[0].fields, DEFAULTED, clock(i));
      RechainedIsChain(sc, rs[1..], r.hash, clock, i + 1);
      ChainCons(sc, r, Rechained(sc, rs[1..], r.hash, clock, i + 1), prev);
    }
  }

  lemma ChainCons(sc: Scheme, r: Record, rest: seq<Record>, prev: Option<string>)
    requires Complete(r.fields) && Holds(sc, r, prev) && Chain(sc, rest, r.hash)
    ensures Chain(sc, [r] + rest, prev)
  {
    hide Complete;
    hide Holds;
    var all := [r] + rest;
    forall i: nat | i < |all| ensures Linked(sc, all, prev, i) {
      if i > 0 {
        assert Linked(sc, rest, r.hash, i - 1);
        assert all[i] == rest[i - 1];
        assert i > 1 ==> all[i - 1] == rest[i - 2];
      }
    }
  }

  lemma ChainTail(sc: Scheme, rs: seq<Record>, prev: Option<string>)
    requires Chain(sc, rs, prev) && rs != []
    ensures Complete(rs[0].fields) && Holds(sc, rs[0], prev) && Chain(sc, rs[1..], rs[0].hash)
  {
    hide Complete;
    hide Holds;
    assert Linked(sc, rs, prev, 0);
    forall i: nat | i < |rs[1..]| ensures Linked(sc, rs[1..], rs[0].hash, i) {
      assert Linked(sc, rs, prev, i + 1);
      assert rs[1..][i] == rs[i + 1];
    }
  }

  /** A run changes nothing, whatever the clock says, exactly when the records already are a chain. */
  lemma {:induction false} FixedExactlyOnChains(sc: Scheme, rs: seq<Record>, prev: Option<string>, clock: nat -> string,
                                                i: nat)
    ensures Rechained(sc, rs, prev, clock, i) == rs <==> Chain(sc, rs, prev)
  {
    if Rechained(sc, rs, prev, clock, i) == rs {
      RechainedIsChain(sc, rs, prev, clock, i);
    }
    if Chain(sc, rs, prev) && rs != [] {
      ChainTail(sc, rs, prev);
      FilledComplete(rs[0].fields, DEFAULTED, clock(i));
      FixedExactlyOnChains(sc, rs[1..], rs[0].hash, clock, i + 1);
      assert Resigned(sc, rs[0], prev, clock(i)) == rs[0];
      assert [rs[0]] + rs[1..] == rs;
    }
  }

  /** A second run writes identical values. */
  lemma RechainTwice(sc: Scheme, rs: seq<Record>, clock: nat -> string, later: nat -> string)
    ensures var once := Rechained(sc, rs, None, clock, 0); Rechained(sc, once, None, later, 0) == once
  {
    RechainedIsChain(sc, rs, None, clock, 0);
    FixedExactlyOnChains(sc, Rechained(sc, rs, None, clock, 0), None, later, 0);
  }

  // ---------------------------------------------------------------- a run cut short

  /** Two runs fill in the same: the record has its timestamp, or the clocks agree. */
  predicate Settled(r: Record, now: string, later: string) {
    !Lacks(r.fields, TIMESTAMP) || now == later
  }

  lemma {:induction false} RechainedAt(sc: Scheme, rs: seq<Record>, prev: Option<string>, clock: nat -> string, i: nat,
                                       k: nat)
    requires k < |rs|
    ensures var out := Rechained(sc, rs, prev, clock, i);
            out[k] == Resigned(sc, rs[k], if k == 0 then prev else out[k - 1].hash, clock(i + k))
  {
    hide Resigned;
    if k > 0 {
      RechainedAt(sc, rs[1..], Resigned(sc, rs[0], prev, clock(i)).hash, clock, i + 1, k - 1);
    }
  }

  lemma FilledSame(r: Record, now: string, later: string)
    ensures Filled(r.fields, DEFAULTED, now) == Filled(r.fields, DEFAULTED, later) <==> Settled(r, now, later)
    ensures TIMESTAMP in Filled(r.fields, DEFAULTED, now)
    ensures Lacks(r.fields, TIMESTAMP) ==> Filled(r.fields, DEFAULTED, now)[TIMESTAMP] == Known(now)
  {
    FilledKeeps(r.fields, DEFAULTED, now);
    FilledKeeps(r.fields, DEFAULTED, later);
    assert TIMESTAMP == DEFAULTED[0];
    hide Filled;
  }

  lemma FilledAgain(r: Record, now: string, later: string)
    ensures var fields := Filled(r.fields, DEFAULTED, now); Filled(fields, DEFAULTED, later) == fields
  {
    FilledKeeps(r.fields, DEFAULTED, now);
    FilledComplete(Filled(r.fields, DEFAULTED, now), DEFAULTED, later);
  }

  /** One record of the second run, chained to the same hash as in the first. */
  lemma AgainAt(sc: Scheme, r: Record, prev: Option<string>, now: string, later: string, written: bool)
    ensures var once := Resigned(sc, r, prev, now);
            var again := Resigned(sc, if written then once else r, prev, later);
            && (again == once <==> written || Settled(r, now, later))
            && (again.fields == once.fields <==> written || Settled(r, now, later))
  {
    FilledSame(r, now, later);
    FilledAgain(r, now, later);
    hide Filled;
  }

  /** Of the first m records, those that were not written are filled in the same by both runs. */
  ghost predicate SettledUpTo(rs: seq<Record>, written: set<nat>, clock: nat -> string, later: nat -> string, m: nat)
    requires m <= |rs|
  {
    forall j | 0 <= j < m :: j in written || Settled(rs[j], clock(j), later(j))
  }

  lemma OneMoreSettled(rs: seq<Record>, written: set<nat>, clock: nat -> string, later: nat -> string, k: nat)
    requires k < |rs|
    ensures SettledUpTo(rs, written, clock, later, k + 1) <==>
            SettledUpTo(rs, written, clock, later, k) && (k in written || Settled(rs[k], clock(k), later(k)))
  {
    hide Settled;
  }

  /** Whichever records a run wrote before it was cut short: run again, it gives the first m records exactly
      what the whole first run would have given them, if and only if each of them that was not written
      has its own timestamp or finds the same clock. */
  lemma {:induction false} RechainResumes(sc: Scheme, rs: seq<Record>, written: set<nat>, clock: nat -> string,
                                          later: nat -> string, m: nat)
    requires m <= |rs|
    ensures var once := Rechained(sc, rs, None, clock, 0);
            var again := Rechained(sc, Mixed(rs, once, written), None, later, 0);
            again[..m] == once[..m] <==> SettledUpTo(rs, written, clock, later, m)
  {
    var once := Rechained(sc, rs, None, clock, 0);
    var mixed := Mixed(rs, once, written);
    var again := Rechained(sc, mixed, None, later, 0);
    if m > 0 {
      hide *;
      var k := m - 1;
      RechainResumes(sc, rs, written, clock, later, k);
      RechainedAt(sc, rs, None, clock, 0, k);
      RechainedAt(sc, mixed, None, later, 0, k);
      Prefixes(again, once, k);
      OneMoreSettled(rs, written, clock, later, k);
      if again[..k] == once[..k] {
        assert k > 0 ==> again[..k][k - 1] == once[..k][k - 1];
        AgainAt(sc, rs[k], if k == 0 then None else once[k - 1].hash, clock(k), later(k), k in written);
      }
    }
  }

  lemma Prefixes(xs: seq<Record>, ys: seq<Record>, k: nat)
    requires k < |xs| == |ys|
    ensures xs[..k + 1] == ys[..k + 1] <==> xs[..k] == ys[..k] && xs[k] == ys[k]
  {
    assert xs[..k + 1] == xs[..k] + [xs[k]] && ys[..k + 1] == ys[..k] + [ys[k]];
  }

  /** The payload tells different timestamps apart. */
  ghost predicate CoversTimestamp(sc: Scheme) {
    forall f: Fields, g: Fields :: sc.canonical(f) == sc.canonical(g) ==>
      TIMESTAMP in f && TIMESTAMP in g ==> f[TIMESTAMP] == g[TIMESTAMP]
  }

  /** An unwritten record in front of a written one that the second run fills in differently. */
  ghost predicate Upset(rs: seq<Record>, written: set<nat>, clock: nat -> string, later: nat -> string, j: nat, i: nat)
  {
    j < i < |rs| && j !in written && i in written && !Settled(rs[j], clock(j), later(j))
  }

  /** The second run leaves every written record as it is if and only if no unwritten record in front of a
      written one lacks its timestamp while the clocks differ. */
  lemma WrittenStay(sc: Scheme, rs: seq<Record>, written: set<nat>, clock: nat -> string, later: nat -> string)
    requires GoodDigest(sc) && CoversTimestamp(sc)
    ensures var once := Rechained(sc, rs, None, clock, 0);
            var again := Rechained(sc, Mixed(rs, once, written), None, later, 0);
            (forall i: nat | i in written && i < |rs| :: again[i] == once[i]) <==>
            (forall j: nat, i: nat :: !Upset(rs, written, clock, later, j, i))
  {
    hide Rechained;
    hide Settled;
    hide GoodDigest;
    hide CoversTimestamp;
    var once := Rechained(sc, rs, None, clock, 0);
    var again := Rechained(sc, Mixed(rs, once, written), None, later, 0);
    forall j: nat, i: nat | Upset(rs, written, clock, later, j, i) ensures again[i] != once[i] {
      Diverged(sc, rs, written, clock, later, j, i);
    }
    if forall j: nat, i: nat :: !Upset(rs, written, clock, later, j, i) {
      forall i: nat | i in written && i < |rs| ensures again[i] == once[i] {
        forall j: nat | j < i + 1 ensures j in written || Settled(rs[j], clock(j), later(j)) {
          assert !Upset(rs, written, clock, later, j, i);
        }
        RechainResumes(sc, rs, written, clock, later, i + 1);
        assert again[..i + 1][i] == once[..i + 1][i];
      }
    }
  }

  /** Two records without a timestamp, of which only the second was written: a run at a later time changes
      it. */
  lemma WrittenMoves(sc: Scheme, r: Record, s: Record, now: string, later: string)
    requires GoodDigest(sc) && CoversTimestamp(sc) && now != later
    requires TIMESTAMP !in r.fields && TIMESTAMP !in s.fields
    ensures var once := Rechained(sc, [r, s], None, _ => now, 0);
            Rechained(sc, [r, once[1]], None, _ => later, 0)[1] != once[1]
  {
    hide Rechained;
    hide GoodDigest;
    hide CoversTimestamp;
    var once := Rechained(sc, [r, s], None, _ => now, 0);
    assert Mixed([r, s], once, {1}) == [r, once[1]];
    assert Upset([r, s], {1}, _ => now, _ => later, 0, 1);
    WrittenStay(sc, [r, s], {1}, _ => now, _ => later);
  }

  /** Two chains that differ in a payload differ in every hash from there on. */
  lemma {:induction false} ChainsDiverge(sc: Scheme, xs: seq<Record>, ys: seq<Record>, first: nat, i: nat)
    requires GoodDigest(sc) && Chain(sc, xs, None) && Chain(sc, ys, None) && first <= i < |xs| == |ys|
    requires sc.canonical(xs[first].fields) != sc.canonical(ys[first].fields)
    ensures xs[i].hash != ys[i].hash && (i > first ==> xs[i].prevHash != ys[i].prevHash)
  {
    hide *;
    LinkedAt(sc, xs, i);
    LinkedAt(sc, ys, i);
    if i > first { ChainsDiverge(sc, xs, ys, first, i - 1); }
    if xs[i].hash == ys[i].hash {
      HashDecides(sc, xs[i].prevHash, ys[i].prevHash, sc.canonical(xs[i].fields), sc.canonical(ys[i].fields));
    }
  }

  lemma LinkedAt(sc: Scheme, rs: seq<Record>, i: nat)
    requires GoodDigest(sc) && Chain(sc, rs, None) && i < |rs|
    ensures IsLink(rs[i].prevHash) && rs[i].prevHash == if i == 0 then None else rs[i - 1].hash
    ensures rs[i].hash == Some(ComputeHash(sc, rs[i].prevHash, sc.canonical(rs[i].fields)))
  {
    hide Complete;
    assert Linked(sc, rs, None, i);
    if i > 0 { assert Linked(sc, rs, None, i - 1); }
  }

  /** The second run fills in a record differently: from there on its hashes are others. */
  lemma Diverged(sc: Scheme, rs: seq<Record>, written: set<nat>, clock: nat -> string, later: nat -> string,
                 first: nat, i: nat)
    requires GoodDigest(sc) && CoversTimestamp(sc) && Upset(rs, written, clock, later, first, i)
    ensures var once := Rechained(sc, rs, None, clock, 0);
            Rechained(sc, Mixed(rs, once, written), None, later, 0)[i] != once[i]
  {
    var once := Rechained(sc, rs, None, clock, 0);
    var mixed := Mixed(rs, once, written);
    hide *;
    UpsetMeans(rs, written, clock, later, first, i);
    FieldsAt(sc, rs, clock, first);
    FieldsAt(sc, mixed, later, first);
    RechainedIsChain(sc, rs, None, clock, 0);
    RechainedIsChain(sc, mixed, None, later, 0);
    TimesDiffer(sc, rs[first], clock(first), later(first));
    ChainsDiverge(sc, once, Rechained(sc, mixed, None, later, 0), first, i);
  }

  lemma UpsetMeans(rs: seq<Record>, written: set<nat>, clock: nat -> string, later: nat -> string, j: nat, i: nat)
    requires Upset(rs, written, clock, later, j, i)
    ensures j < i < |rs| && j !in written && !Settled(rs[j], clock(j), later(j))
  {
  }

  lemma FieldsAt(sc: Scheme, rs: seq<Record>, clock: nat -> string, k: nat)
    requires k < |rs|
    ensures Rechained(sc, rs, None, clock, 0)[k].fields == Filled(rs[k].fields, DEFAULTED, clock(k))
  {
    RechainedAt(sc, rs, None, clock, 0, k);
    hide Rechained;
    hide Filled;
  }

  lemma TimesDiffer(sc: Scheme, r: Record, now: string, later: string)
    requires CoversTimestamp(sc) && !Settled(r, now, later)
    ensures sc.canonical(Filled(r.fields, DEFAULTED, now)) != sc.canonical(Filled(r.fields, DEFAULTED, later))
  {
    FilledSame(r, now, later);
    FilledSame(r, later, now);
    hide Filled;
  }

  /** What a record keeps: every field but those that lacked a default, which now hold it. */
  lemma {:induction false} RechainedKeeps(sc: Scheme, rs: seq<Record>, prev: Option<string>, clock: nat -> string,
                                          i: nat, k: nat)
    requires k < |rs|
    ensures var out := Rechained(sc, rs, prev, clock, i)[k].fields;
            && (forall f :: f in out <==> f in rs[k].fields || f in DEFAULTED)
            && (forall f | f in out :: out[f] == if f in DEFAULTED && Lacks(rs[k].fields, f)
                then DefaultOf(f, clock(i + k)) else rs[k].fields[f])
  {
    hide DefaultOf;
    hide Filled;
    if k == 0 {
      FilledKeeps(rs[0].fields, DEFAULTED, clock(i));
    } else {
      var r := Resigned(sc, rs[0], prev, clock(i));
      RechainedKeeps(sc, rs[1..], r.hash, clock, i + 1, k - 1);
    }
  }

  /** A field is as it was, or has this value where there was none. */
  ghost predicate Kept(had: Fields, out: Fields, f: string, fallback: Value) {
    f in out && out[f] == if f in had then had[f] else fallback
  }

  /** A field is as it was, or has this value where there was none or it was null. */
  ghost predicate KeptUnlessNull(had: Fields, out: Fields, f: string, fallback: Value) {
    f in out && out[f] == if f in had && had[f] != Null then had[f] else fallback
  }

  /** The same with the six defaults written out: the time of the run for a missing timestamp or one that is null,
      an empty object for the three payloads, a low risk and no risk factors; and the version of all that. */
  lemma DefaultsWritten(sc: Scheme, rs: seq<Record>, prev: Option<string>, clock: nat -> string, k: nat)
    requires k < |rs|
    ensures var had, out := rs[k].fields, Rechained(sc, rs, prev, clock, 0)[k].fields;
            && KeptUnlessNull(had, out, "timestamp", Known(clock(k)))
            && Kept(had, out, "params", Known("{}")) && Kept(had, out, "query", Known("{}"))
            && Kept(had, out, "body", Known("{}"))
            && Kept(had, out, "riskLevel", Known("low")) && Kept(had, out, "riskFactors", Known("[]"))
    ensures Rechained(sc, rs, prev, clock, 0)[k].version == 6
  {
    RechainedVersion(sc, rs, prev, clock, 0, k);
    DefaultNames();
    hide *;
    FieldAfter(sc, rs, prev, clock, k, DEFAULTED[0]);
    FieldAfter(sc, rs, prev, clock, k, DEFAULTED[1]);
    FieldAfter(sc, rs, prev, clock, k, DEFAULTED[2]);
    FieldAfter(sc, rs, prev, clock, k, DEFAULTED[3]);
    FieldAfter(sc, rs, prev, clock, k, DEFAULTED[4]);
    FieldAfter(sc, rs, prev, clock, k, DEFAULTED[5]);
  }

  lemma FieldAfter(sc: Scheme, rs: seq<Record>, prev: Option<string>, clock: nat -> string, k: nat, f: string)
    requires k < |rs| && f in DEFAULTED
    ensures var had, out := rs[k].fields, Rechained(sc, rs, prev, clock, 0)[k].fields;
            if f == "timestamp" then KeptUnlessNull(had, out, f, DefaultOf(f, clock(k)))
            else Kept(had, out, f, DefaultOf(f, clock(k)))
  {
    RechainedKeeps(sc, rs, prev, clock, 0, k);
    hide Rechained;
    hide DefaultOf;
  }

  lemma DefaultNames()
    ensures |DEFAULTED| == 6 && DEFAULTED[0] == "timestamp" && DEFAULTED[1] == "params" && DEFAULTED[2] == "query"
    ensures DEFAULTED[3] == "body" && DEFAULTED[4] == "riskLevel" && DEFAULTED[5] == "riskFactors"
    ensures forall i | 1 <= i < 6 :: DEFAULTED[i] != "timestamp"
    ensures forall now :: DefaultOf("timestamp", now) == Known(now)
    ensures forall now :: DefaultOf("params", now) == DefaultOf("query", now) == DefaultOf("body", now) == Known("{}")
    ensures forall now :: DefaultOf("riskLevel", now) == Known("low") && DefaultOf("riskFactors", now) == Known("[]")
  {
    assert |"params"| == 6 && |"query"| == 5 && |"body"| == 4 && |"riskLevel"| == 9 && |"riskFactors"| == 11;
    assert |"timestamp"| == 9 && "timestamp"[0] == 't' && "riskLevel"[0] == 'r';
  }

  lemma {:induction false} RechainedVersion(sc: Scheme, rs: seq<Record>, prev: Option<string>, clock: nat -> string,
                                            i: nat, k: nat)
    requires k < |rs|
    ensures Rechained(sc, rs, prev, clock, i)[k].version == 6
  {
    hide Filled;
    if k > 0 { RechainedVersion(sc, rs[1..], Resigned(sc, rs[0], prev, clock(i)).hash, clock, i + 1, k - 1); }
  }

  // ---------------------------------------------------------------- what a chain proves

  /** Digests are hexadecimal, and different texts have different ones. */
  ghost predicate GoodDigest(sc: Scheme) {
    && (forall x :: Hex(sc.digest(x)))
    && (forall x, y :: sc.digest(x) == sc.digest(y) ==> x == y)
  }

  /** What a record can be chained to: nothing, or a digest. */
  predicate IsLink(prev: Option<string>) {
    prev.Some? ==> Hex(prev.value)
  }

  lemma {:induction false} BarSplits(a: string, b: string, x: string, y: string)
    requires '|' !in a && '|' !in b && a + (['|'] + x) == b + (['|'] + y)
    ensures a == b && x == y
  {
    var s, t := a + (['|'] + x), b + (['|'] + y);
    assert s[0] == (if a == "" then '|' else a[0]) && t[0] == (if b == "" then '|' else b[0]);
    if a == "" {
      assert s[1..] == x && t[1..] == y;
    } else {
      assert b != "" && a[0] == b[0];
      assert s[1..] == a[1..] + (['|'] + x) && t[1..] == b[1..] + (['|'] + y);
      BarSplits(a[1..], b[1..], x, y);
      assert a == [a[0]] + a[1..] && b == [b[0]] + b[1..];
    }
  }

  /** A chain hash determines what the record is chained to, and its payload. */
  lemma HashDecides(sc: Scheme, p: Option<string>, q: Option<string>, x: string, y: string)
    requires GoodDigest(sc) && IsLink(p) && IsLink(q) && ComputeHash(sc, p, x) == ComputeHash(sc, q, y)
    ensures p == q && x == y
  {
    LinkText(p);
    LinkText(q);
    hide Hex;
    BarSplits(PrevText(p), PrevText(q), x, y);
  }

  lemma LinkText(p: Option<string>)
    requires IsLink(p)
    ensures '|' !in PrevText(p) && (PrevText(p) == "null" <==> p.None?)
  {
    assert p.Some? && p.value != "" ==> IsHex(p.value[0]);
  }

  /** Two chains that end in the same hash are the same chain: as many records, with the same hashes and
      the same payloads all the way back. */
  lemma {:induction false} LastHashDecides(sc: Scheme, rs: seq<Record>, qs: seq<Record>)
    requires GoodDigest(sc) && Chain(sc, rs, None) && Chain(sc, qs, None) && LastHash(rs, None) == LastHash(qs, None)
    ensures |rs| == |qs|
    ensures forall i | 0 <= i < |rs| ::
              rs[i].hash == qs[i].hash && sc.canonical(rs[i].fields) == sc.canonical(qs[i].fields)
    decreases |rs|
  {
    hide ComputeHash;
    hide Complete;
    if rs != [] { LinkedAt(sc, rs, |rs| - 1); }
    if qs != [] { LinkedAt(sc, qs, |qs| - 1); }
    if rs != [] && qs != [] {
      var n, m := |rs| - 1, |qs| - 1;
      HashDecides(sc, rs[n].prevHash, qs[m].prevHash, sc.canonical(rs[n].fields), sc.canonical(qs[m].fields));
      ChainInit(sc, rs);
      ChainInit(sc, qs);
      LastHashDecides(sc, rs[..n], qs[..m]);
      forall i | 0 <= i < |rs|
        ensures rs[i].hash == qs[i].hash && sc.canonical(rs[i].fields) == sc.canonical(qs[i].fields)
      {
        if i < n {
          assert rs[..n][i] == rs[i] && qs[..m][i] == qs[i];
        }
      }
    }
  }

  lemma ChainInit(sc: Scheme, rs: seq<Record>)
    requires Chain(sc, rs, None) && rs != []
    ensures Chain(sc, rs[..|rs| - 1], None)
    ensures LastHash(rs[..|rs| - 1], None) == if |rs| == 1 then None else rs[|rs| - 2].hash
  {
    hide Holds;
    hide Complete;
    var init := rs[..|rs| - 1];
    forall i: nat | i < |init| ensures Linked(sc, init, None, i) {
      assert Linked(sc, rs, None, i);
    }
  }
}
