/** Index specs, their signature and the twin test shared by the index migrations. */
module IndexSpec {
  import opened StableJson
  import opened Wrappers

  /** One field of an index key, with the text JavaScript prints for its direction. */
  datatype KeyPart = KeyPart(field: Text, direction: Text)

  /** An index as the driver reports it. An absent collation, TTL or partial filter is None; the
      flags are the truth values of the reported options. */
  datatype Spec = Spec(
    key: seq<KeyPart>,
    collation: Option<seq<Field>>,
    unique: bool,
    sparse: bool,
    hidden: bool,
    ttl: Option<NumberText>,
    partial: Option<Json>)

  /** ASCII text as code units. */
  function Ascii(s: string): (t: Text)
    ensures |t| == |s|
  {
    seq(|s|, i requires 0 <= i < |s| => s[i] as int % 0x10000)
  }

  const BAR: Unit := 124

  // ---------------------------------------------------------------- signatures

  function PartSig(p: KeyPart): Text {
    p.field + [COLON] + p.direction
  }

  /** The ordered signature of a key: field:direction joined by bars. */
  function KeySig(key: seq<KeyPart>): Text {
    if key == [] then [] else if |key| == 1 then PartSig(key[0]) else PartSig(key[0]) + [BAR] + KeySig(key[1..])
  }

  function Lookup(fs: seq<Field>, name: Text, fallback: Json): Json {
    if fs == [] then fallback else if fs[0].key == name then fs[0].value else Lookup(fs[1..], name, fallback)
  }

  /** The nine collation options the migrations compare, with the server's defaults. The server's
      own version field is not among them. */
  function CollationDefaults(): seq<Field> {
    [Field(Ascii("locale"), Str(Ascii("simple"))),
     Field(Ascii("caseLevel"), Bool(false)),
     Field(Ascii("caseFirst"), Str(Ascii("off"))),
     Field(Ascii("strength"), Number([51])),
     Field(Ascii("numericOrdering"), Bool(false)),
     Field(Ascii("alternate"), Str(Ascii("non-ignorable"))),
     Field(Ascii("maxVariable"), Str(Ascii("punct"))),
     Field(Ascii("normalization"), Bool(false)),
     Field(Ascii("backwards"), Bool(false))]
  }

  /** The given options over the defaults, option by option. */
  function Filled(given: seq<Field>, defaults: seq<Field>): (r: seq<Field>)
    ensures |r| == |defaults|
    ensures forall i | 0 <= i < |r| ::
              r[i].key == defaults[i].key && r[i].value == Lookup(given, defaults[i].key, defaults[i].value)
  {
    seq(|defaults|, i requires 0 <= i < |defaults| =>
      Field(defaults[i].key, Lookup(given, defaults[i].key, defaults[i].value)))
  }

  function CollationSig(c: Option<seq<Field>>): Json {
    if c.None? then Null else Object(Filled(c.value, CollationDefaults()))
  }

  function TtlSig(s: Spec): Json {
    if s.ttl.None? then Null else Number(s.ttl.value)
  }

  function PartialSig(s: Spec): Json {
    if s.partial.None? then Null else s.partial.value
  }

  const SPEC_NAMES: seq<Text> := [Ascii("key"), Ascii("collation"), Ascii("unique"), Ascii("sparse"), Ascii("hidden"),
                                  Ascii("expireAfterSeconds"), Ascii("partialFilterExpression")]

  function SpecValues(s: Spec): (r: seq<Json>)
    ensures |r| == 7
  {
    [Str(KeySig(s.key)), CollationSig(s.collation), Bool(s.unique), Bool(s.sparse), Bool(s.hidden), TtlSig(s),
      PartialSig(s)]
  }

  function Zipped(names: seq<Text>, values: seq<Json>): (r: seq<Field>)
    requires |names| == |values|
    ensures |r| == |names| && forall i | 0 <= i < |r| :: r[i] == Field(names[i], values[i])
  {
    seq(|names|, i requires 0 <= i < |names| => Field(names[i], values[i]))
  }

  /** The full signature that decides whether a migration leaves an index alone. */
  function SpecSig(s: Spec): Text {
    Stable(Object(Zipped(SPEC_NAMES, SpecValues(s))))
  }

  /** The migrations' test for an index that occupies the declared one under another name. Neither
      the name nor hidden nor the TTL takes part. */
  predicate IsEquivalentTwin(actual: Spec, declared: Spec) {
    && KeySig(actual.key) == KeySig(declared.key)
    && Stable(CollationSig(actual.collation)) == Stable(CollationSig(declared.collation))
    && actual.unique == declared.unique
    && actual.sparse == declared.sparse
    && Stable(PartialSig(actual)) == Stable(PartialSig(declared))
  }

  // ---------------------------------------------------------------- meaning

  /** Values the driver can report: object keys are distinct and a partial filter is a document. */
  ghost predicate ValidSpec(s: Spec) {
    && (s.collation.Some? ==> WellFormed(Object(s.collation.value)))
    && (s.partial.Some? ==> s.partial.value.Object? && WellFormed(s.partial.value))
  }

  /** A name or direction that the separators of a key signature cannot occur in. */
  ghost predicate CleanText(t: Text) {
    COLON !in t && BAR !in t
  }

  ghost predicate CleanKey(key: seq<KeyPart>) {
    forall i | 0 <= i < |key| :: CleanText(key[i].field) && CleanText(key[i].direction)
  }

  predicate SamePartial(a: Option<Json>, b: Option<Json>) {
    if a.Some? && b.Some? then Same(a.value, b.value) else a == b
  }

  /** One collation option means the same in both, given or by what the server documents for it. */
  predicate SameOption(a: seq<Field>, b: seq<Field>, name: string, standard: Json) {
    Same(Lookup(a, Ascii(name), standard), Lookup(b, Ascii(name), standard))
  }

  /** Equal options where given, the server's documented defaults where not; having a collation is not having
      none. */
  predicate SameCollation(a: Option<seq<Field>>, b: Option<seq<Field>>) {
    if a.Some? && b.Some? then
      && SameOption(a.value, b.value, "locale", Str(Ascii("simple")))
      && SameOption(a.value, b.value, "caseLevel", Bool(false))
      && SameOption(a.value, b.value, "caseFirst", Str(Ascii("off")))
      && SameOption(a.value, b.value, "strength", Number([51]))
      && SameOption(a.value, b.value, "numericOrdering", Bool(false))
      && SameOption(a.value, b.value, "alternate", Str(Ascii("non-ignorable")))
      && SameOption(a.value, b.value, "maxVariable", Str(Ascii("punct")))
      && SameOption(a.value, b.value, "normalization", Bool(false))
      && SameOption(a.value, b.value, "backwards", Bool(false))
    else a == b
  }

  function Listing(given: seq<Field>, name: string, standard: Json): Field {
    Field(Ascii(name), Lookup(given, Ascii(name), standard))
  }

  /** A collation as the server lists it: every option, those not given by its documented defaults, and whatever
      else it reports, such as its version. */
  function Expanded(given: seq<Field>, extra: seq<Field>): seq<Field> {
    [Listing(given, "locale", Str(Ascii("simple"))), Listing(given, "caseLevel", Bool(false)),
     Listing(given, "caseFirst", Str(Ascii("off"))), Listing(given, "strength", Number([51])),
     Listing(given, "numericOrdering", Bool(false)), Listing(given, "alternate", Str(Ascii("non-ignorable"))),
     Listing(given, "maxVariable", Str(Ascii("punct"))), Listing(given, "normalization", Bool(false)),
     Listing(given, "backwards", Bool(false))] + extra
  }

  /** An index as the server lists it. */
  function Listed(s: Spec, extra: seq<Field>): Spec {
    if s.collation.None? then s else s.(collation := Some(Expanded(s.collation.value, extra)))
  }

  /** mongod's rule for two indexes that cannot coexist under different names (error 85). */
  predicate Equivalent(a: Spec, b: Spec) {
    && a.key == b.key
    && SameCollation(a.collation, b.collation)
    && a.unique == b.unique
    && a.sparse == b.sparse
    && SamePartial(a.partial, b.partial)
  }

  /** The same index in every option. */
  predicate SameSpec(a: Spec, b: Spec) {
    Equivalent(a, b) && a.hidden == b.hidden && a.ttl == b.ttl
  }

  // ---------------------------------------------------------------- objects of known shape

  lemma SameObjects(fs: seq<Field>, gs: seq<Field>)
    requires |fs| == |gs| && DistinctKeys(fs) && forall i | 0 <= i < |fs| :: fs[i].key == gs[i].key
    ensures Same(Object(fs), Object(gs)) <==> forall i | 0 <= i < |fs| :: Same(fs[i].value, gs[i].value)
  {
    var a, b := Object(fs), Object(gs);
    if Same(a, b) {
      forall i | 0 <= i < |fs| ensures Same(fs[i].value, gs[i].value) {
        assert HasSame(a.fields[i], b.fields);
        var j :| 0 <= j < |gs| && fs[i].key == gs[j].key && Same(fs[i].value, gs[j].value);
        assert fs[j].key == fs[i].key;
      }
    }
    if forall i | 0 <= i < |fs| :: Same(fs[i].value, gs[i].value) {
      forall i | 0 <= i < |fs| ensures HasSame(a.fields[i], b.fields) {
        assert fs[i].key == gs[i].key && Same(fs[i].value, gs[i].value);
      }
    }
  }

  lemma {:induction false} LookupWellFormed(fs: seq<Field>, name: Text, fallback: Json)
    requires forall i | 0 <= i < |fs| :: WellFormed(fs[i].value)
    requires WellFormed(fallback)
    ensures WellFormed(Lookup(fs, name, fallback))
  {
    if fs != [] {
      LookupWellFormed(fs[1..], name, fallback);
    }
  }

  lemma DefaultsDistinct()
    ensures DistinctKeys(CollationDefaults())
    ensures forall i | 0 <= i < |CollationDefaults()| :: WellFormed(CollationDefaults()[i].value)
  {
    assert Ascii("caseLevel")[4] != Ascii("caseFirst")[4];
    assert Ascii("caseLevel")[0] == Ascii("caseFirst")[0] == 99;
    assert Ascii("alternate")[0] == 97 && Ascii("backwards")[0] == 98;
  }

  lemma CollationSigWellFormed(c: Option<seq<Field>>)
    requires c.Some? ==> WellFormed(Object(c.value))
    ensures WellFormed(CollationSig(c))
  {
    if c.Some? {
      DefaultsDistinct();
      var defaults := CollationDefaults();
      var filled := Filled(c.value, defaults);
      assert forall i | 0 <= i < |c.value| :: WellFormed(Object(c.value).fields[i].value);
      forall i | 0 <= i < |filled| ensures WellFormed(filled[i].value) {
        LookupWellFormed(c.value, defaults[i].key, defaults[i].value);
      }
    }
  }

  /** Collation signatures are the same value exactly when the collations mean the same. */
  lemma CollationSigMeaning(a: Option<seq<Field>>, b: Option<seq<Field>>)
    ensures Same(CollationSig(a), CollationSig(b)) <==> SameCollation(a, b)
  {
    if a.Some? && b.Some? {
      DefaultsDistinct();
      var defaults := CollationDefaults();
      var fs, gs := Filled(a.value, defaults), Filled(b.value, defaults);
      SameObjects(fs, gs);
      NineOptions(a.value, b.value);
    }
  }

  lemma NineDefaults()
    ensures CollationDefaults() ==
            [Field(Ascii("locale"), Str(Ascii("simple"))),
             Field(Ascii("caseLevel"), Bool(false)),
             Field(Ascii("caseFirst"), Str(Ascii("off"))),
             Field(Ascii("strength"), Number([51])),
             Field(Ascii("numericOrdering"), Bool(false)),
             Field(Ascii("alternate"), Str(Ascii("non-ignorable"))),
             Field(Ascii("maxVariable"), Str(Ascii("punct"))),
             Field(Ascii("normalization"), Bool(false)),
             Field(Ascii("backwards"), Bool(false))]
  {
    hide Ascii;
  }

  lemma OptionAt(a: seq<Field>, b: seq<Field>, i: nat, name: string, standard: Json)
    requires i < |CollationDefaults()| && CollationDefaults()[i] == Field(Ascii(name), standard)
    ensures Same(Filled(a, CollationDefaults())[i].value, Filled(b, CollationDefaults())[i].value) <==>
            SameOption(a, b, name, standard)
  {
    hide CollationDefaults;
    hide Lookup;
  }

  lemma NineOptions(a: seq<Field>, b: seq<Field>)
    ensures var defaults := CollationDefaults();
            SameCollation(Some(a), Some(b)) <==>
            forall i | 0 <= i < |defaults| :: Same(Filled(a, defaults)[i].value, Filled(b, defaults)[i].value)
  {
    NineDefaults();
    hide CollationDefaults;
    hide SameOption;
    hide Filled;
    hide Ascii;
    hide Same;
    OptionAt(a, b, 0, "locale", Str(Ascii("simple")));
    OptionAt(a, b, 1, "caseLevel", Bool(false));
    OptionAt(a, b, 2, "caseFirst", Str(Ascii("off")));
    OptionAt(a, b, 3, "strength", Number([51]));
    OptionAt(a, b, 4, "numericOrdering", Bool(false));
    OptionAt(a, b, 5, "alternate", Str(Ascii("non-ignorable")));
    OptionAt(a, b, 6, "maxVariable", Str(Ascii("punct")));
    OptionAt(a, b, 7, "normalization", Bool(false));
    OptionAt(a, b, 8, "backwards", Bool(false));
  }

  lemma ExpandedAt(given: seq<Field>, extra: seq<Field>, i: nat)
    requires i < 9
    ensures |CollationDefaults()| == 9 <= |Expanded(given, extra)|
    ensures Expanded(given, extra)[i] ==
            Field(CollationDefaults()[i].key, Lookup(given, CollationDefaults()[i].key, CollationDefaults()[i].value))
  {
    hide Ascii;
    hide Lookup;
  }

  lemma {:induction false} LookupAt(fs: seq<Field>, i: nat, fallback: Json)
    requires i < |fs| && forall j | 0 <= j < i :: fs[j].key != fs[i].key
    ensures Lookup(fs, fs[i].key, fallback) == fs[i].value
  {
    if i > 0 {
      assert fs[0].key != fs[i].key;
      assert forall j | 0 <= j < i - 1 :: fs[1..][j] == fs[j + 1];
      LookupAt(fs[1..], i - 1, fallback);
    }
  }

  /** The signature does not tell a collation from what the server lists for it. */
  lemma ExpandedSame(given: seq<Field>, extra: seq<Field>)
    ensures CollationSig(Some(Expanded(given, extra))) == CollationSig(Some(given))
  {
    hide Ascii;
    DefaultsDistinct();
    var defaults, listed := CollationDefaults(), Expanded(given, extra);
    forall i | 0 <= i < 9 ensures Lookup(listed, defaults[i].key, defaults[i].value)
                               == Lookup(given, defaults[i].key, defaults[i].value)
    {
      ExpandedAt(given, extra, i);
      forall j | 0 <= j < i ensures listed[j].key != listed[i].key { ExpandedAt(given, extra, j); }
      LookupAt(listed, i, defaults[i].value);
    }
    assert Filled(listed, defaults) == Filled(given, defaults);
  }

  lemma PartialSigMeaning(a: Spec, b: Spec)
    requires ValidSpec(a) && ValidSpec(b)
    ensures Same(PartialSig(a), PartialSig(b)) <==> SamePartial(a.partial, b.partial)
  {
  }

  lemma SpecNamesDistinct()
    ensures forall i, j | 0 <= i < j < |SPEC_NAMES| :: SPEC_NAMES[i] != SPEC_NAMES[j]
  {
    assert Ascii("unique")[0] == 117 && Ascii("sparse")[0] == 115 && Ascii("hidden")[0] == 104;
  }

  lemma SameZipped(names: seq<Text>, vs: seq<Json>, ws: seq<Json>)
    requires |names| == |vs| == |ws| && forall i, j | 0 <= i < j < |names| :: names[i] != names[j]
    ensures Same(Object(Zipped(names, vs)), Object(Zipped(names, ws)))
            <==> forall i | 0 <= i < |vs| :: Same(vs[i], ws[i])
  {
    var fs, gs := Zipped(names, vs), Zipped(names, ws);
    SameObjects(fs, gs);
    if Same(Object(fs), Object(gs)) {
      forall i | 0 <= i < |vs| ensures Same(vs[i], ws[i]) {
        assert Same(fs[i].value, gs[i].value);
      }
    }
  }

  lemma SpecObjectWellFormed(s: Spec)
    requires ValidSpec(s)
    ensures WellFormed(Object(Zipped(SPEC_NAMES, SpecValues(s))))
  {
    SpecNamesDistinct();
    CollationSigWellFormed(s.collation);
  }

  ghost predicate AllSame(vs: seq<Json>, ws: seq<Json>) {
    |vs| == |ws| && forall i | 0 <= i < |vs| :: Same(vs[i], ws[i])
  }

  /** Seven values of the kinds a spec has are pairwise the same exactly when their contents are. */
  lemma SevenSame(vs: seq<Json>, ws: seq<Json>, k: Text, m: Text, u: bool, v: bool, s: bool, t: bool, h: bool, i: bool)
    requires |vs| == |ws| == 7
    requires vs[0] == Str(k) && vs[2] == Bool(u) && vs[3] == Bool(s) && vs[4] == Bool(h)
    requires ws[0] == Str(m) && ws[2] == Bool(v) && ws[3] == Bool(t) && ws[4] == Bool(i)
    ensures AllSame(vs, ws) <==>
            k == m && Same(vs[1], ws[1]) && u == v && s == t && h == i && Same(vs[5], ws[5]) && Same(vs[6], ws[6])
  {
    assert AllSame(vs, ws) <==>
      && Same(vs[0], ws[0]) && Same(vs[1], ws[1]) && Same(vs[2], ws[2]) && Same(vs[3], ws[3])
      && Same(vs[4], ws[4]) && Same(vs[5], ws[5]) && Same(vs[6], ws[6]);
  }

  lemma SpecSigIsAllSame(a: Spec, b: Spec)
    requires ValidSpec(a) && ValidSpec(b)
    ensures SpecSig(a) == SpecSig(b) <==> AllSame(SpecValues(a), SpecValues(b))
  {
    SpecObjectWellFormed(a);
    SpecObjectWellFormed(b);
    var vs, ws := SpecValues(a), SpecValues(b);
    StableIsCanonical(Object(Zipped(SPEC_NAMES, vs)), Object(Zipped(SPEC_NAMES, ws)));
    SpecNamesDistinct();
    SameZipped(SPEC_NAMES, vs, ws);
  }

  lemma SameTtl(a: Spec, b: Spec)
    ensures Same(TtlSig(a), TtlSig(b)) <==> a.ttl == b.ttl
  {
  }

  /** The signature compares the key signature, the collation with its defaults filled in, the
      three flags, the TTL and the partial filter, and nothing else. */
  lemma SpecSigMeaning(a: Spec, b: Spec)
    requires ValidSpec(a) && ValidSpec(b)
    ensures SpecSig(a) == SpecSig(b) <==>
            && KeySig(a.key) == KeySig(b.key)
            && SameCollation(a.collation, b.collation)
            && a.unique == b.unique && a.sparse == b.sparse && a.hidden == b.hidden
            && a.ttl == b.ttl
            && SamePartial(a.partial, b.partial)
  {
    SpecSigIsAllSame(a, b);
    SevenSame(SpecValues(a), SpecValues(b), KeySig(a.key), KeySig(b.key),
              a.unique, b.unique, a.sparse, b.sparse, a.hidden, b.hidden);
    CollationSigMeaning(a.collation, b.collation);
    SameTtl(a, b);
    PartialSigMeaning(a, b);
  }

  /** So the signature of an index is the same as declared and as listed. */
  lemma ListedSig(s: Spec, extra: seq<Field>)
    ensures SpecSig(Listed(s, extra)) == SpecSig(s)
  {
    if s.collation.Some? { ExpandedSame(s.collation.value, extra); }
    assert SpecValues(Listed(s, extra)) == SpecValues(s);
  }

  // ---------------------------------------------------------------- key signatures

  /** Text up to a separator that neither prefix contains is determined by the whole. */
  lemma CutAtSeparator(x: Text, y: Text, c: Unit, r: Text, q: Text)
    requires c !in x && c !in y && x + [c] + r == y + [c] + q
    ensures x == y && r == q
  {
    var l, m := x + [c] + r, y + [c] + q;
    assert l[|x|] == c && m[|y|] == c;
    assert |x| == |y| by {
      assert forall k | 0 <= k < |x| :: l[k] == x[k] && x[k] in x;
      assert forall k | 0 <= k < |y| :: m[k] == y[k] && y[k] in y;
      assert |x| >= |y|;
      assert |y| >= |x|;
    }
    assert x == l[..|x|] && y == m[..|y|] && r == l[|x| + 1..] && q == m[|y| + 1..];
  }

  lemma PartSigUnique(p: KeyPart, q: KeyPart)
    requires CleanText(p.field) && CleanText(q.field) && PartSig(p) == PartSig(q)
    ensures p == q
  {
    CutAtSeparator(p.field, q.field, COLON, p.direction, q.direction);
  }

  lemma PartSigNoBar(p: KeyPart)
    requires CleanText(p.field) && CleanText(p.direction)
    ensures BAR !in PartSig(p) && PartSig(p) != []
  {
  }

  lemma KeySigBar(k: seq<KeyPart>)
    requires CleanKey(k) && k != []
    ensures BAR in KeySig(k) <==> |k| >= 2
    ensures KeySig(k) != []
  {
    PartSigNoBar(k[0]);
  }

  /** On names and directions free of the separators, the key signature determines the key and the
      order of its fields. */
  lemma {:induction false} KeySigInjective(k: seq<KeyPart>, m: seq<KeyPart>)
    requires CleanKey(k) && CleanKey(m) && KeySig(k) == KeySig(m)
    ensures k == m
  {
    if k != [] { KeySigBar(k); }
    if m != [] { KeySigBar(m); }
    if |k| == 1 {
      PartSigUnique(k[0], m[0]);
    } else if |k| > 1 {
      PartSigNoBar(k[0]);
      PartSigNoBar(m[0]);
      CutAtSeparator(PartSig(k[0]), PartSig(m[0]), BAR, KeySig(k[1..]), KeySig(m[1..]));
      PartSigUnique(k[0], m[0]);
      KeySigInjective(k[1..], m[1..]);
      assert k == [k[0]] + k[1..] && m == [m[0]] + m[1..];
    }
  }

  /** With a separator in a field name the signature can confuse a one-field key with a two-field
      key. */
  lemma KeySigCollides()
    ensures KeySig([KeyPart([97, COLON, 49, BAR, 98], [49])]) == KeySig([KeyPart([97], [49]), KeyPart([98], [49])])
  {
    var k := [KeyPart([97], [49]), KeyPart([98], [49])];
    assert k[1..] == [KeyPart([98], [49])];
    assert KeySig(k) == [97, COLON, 49] + [BAR] + [98, COLON, 49];
  }

  /** Equal signatures are the same index in every option, whatever the order of keys inside its
      collation and filter; a TTL, a flag or a collation option that differs changes the signature. */
  lemma SpecSigDecides(a: Spec, b: Spec)
    requires ValidSpec(a) && ValidSpec(b) && CleanKey(a.key) && CleanKey(b.key)
    ensures SpecSig(a) == SpecSig(b) <==> SameSpec(a, b)
  {
    SpecSigMeaning(a, b);
    if KeySig(a.key) == KeySig(b.key) {
      KeySigInjective(a.key, b.key);
    }
  }

  /** The twin test is exactly mongod's conflict rule. */
  lemma TwinIsEquivalent(a: Spec, b: Spec)
    requires ValidSpec(a) && ValidSpec(b) && CleanKey(a.key) && CleanKey(b.key)
    ensures IsEquivalentTwin(a, b) <==> Equivalent(a, b)
  {
    CollationSigWellFormed(a.collation);
    CollationSigWellFormed(b.collation);
    StableIsCanonical(CollationSig(a.collation), CollationSig(b.collation));
    CollationSigMeaning(a.collation, b.collation);
    StableIsCanonical(PartialSig(a), PartialSig(b));
    PartialSigMeaning(a, b);
    if KeySig(a.key) == KeySig(b.key) {
      KeySigInjective(a.key, b.key);
    }
  }
}
