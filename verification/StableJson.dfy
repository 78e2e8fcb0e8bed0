/** The canonical serialiser that the index migrations compare specs with (stableJson), on
    JavaScript values made of UTF-16 code units, and what equality of its output means. */
module StableJson {

  /** A UTF-16 code unit, and a JavaScript string. */
  type Unit = x: int | 0 <= x < 0x10000
  type Text = seq<Unit>

  const QUOTE: Unit := 34
  const COMMA: Unit := 44
  const COLON: Unit := 58
  const LBRACKET: Unit := 91
  const BACKSLASH: Unit := 92
  const RBRACKET: Unit := 93
  const LBRACE: Unit := 123
  const RBRACE: Unit := 125

  const NULL_TEXT: Text := [110, 117, 108, 108]
  const TRUE_TEXT: Text := [116, 114, 117, 101]
  const FALSE_TEXT: Text := [102, 97, 108, 115, 101]

  /** Characters of a finite number in the notation of Number::toString: digits, '-', '+', '.', 'e'. */
  predicate NumberUnit(u: Unit) {
    48 <= u <= 57 || u == 45 || u == 43 || u == 46 || u == 101
  }

  /** A finite number, represented by the text JavaScript prints for it. Distinct finite numbers
      print differently (0 and -0, which are ===, print alike). */
  type NumberText = t: Text | t != [] && (forall k | 0 <= k < |t| :: NumberUnit(t[k])) witness [48]

  datatype Field = Field(key: Text, value: Json)

  datatype Json =
    | Undefined
    | Null
    | NonFinite
    | Bool(b: bool)
    | Number(text: NumberText)
    | Str(s: Text)
    | Array(items: seq<Json>)
    | Object(fields: seq<Field>)

  /** An object's own keys are distinct, at every depth. The order of fields is insertion order. */
  ghost predicate WellFormed(v: Json) {
    match v
    case Array(items) => forall i | 0 <= i < |items| :: WellFormed(items[i])
    case Object(fields) =>
      && (forall i, j | 0 <= i < j < |fields| :: fields[i].key != fields[j].key)
      && (forall i | 0 <= i < |fields| :: WellFormed(fields[i].value))
    case _ => true
  }

  // ---------------------------------------------------------------- strings

  predicate High(u: Unit) { 0xD800 <= u < 0xDC00 }
  predicate Low(u: Unit) { 0xDC00 <= u < 0xE000 }

  function HexDigit(d: int): Unit
    requires 0 <= d < 16
  {
    if d < 10 then 48 + d else 87 + d
  }

  /** The letter of a two-character escape, or 0 when the unit has none. */
  function ShortEscape(u: Unit): Unit {
    if u == 8 then 98 else if u == 9 then 116 else if u == 10 then 110 else if u == 12 then 102
    else if u == 13 then 114 else if u == QUOTE then QUOTE else if u == BACKSLASH then BACKSLASH
    else 0
  }

  /** How JSON.stringify writes one unit that is not half of a surrogate pair. */
  function EscapeUnit(u: Unit): Text {
    if ShortEscape(u) != 0 then [BACKSLASH, ShortEscape(u)]
    else if u < 32 || High(u) || Low(u) then
      [BACKSLASH, 117, HexDigit(u / 16 / 16 / 16), HexDigit(u / 16 / 16 % 16), HexDigit(u / 16 % 16), HexDigit(u % 16)]
    else [u]
  }

  /** How many units the next code point of a non-empty string takes. */
  function Width(s: Text): (w: nat)
    requires s != []
    ensures 1 <= w <= |s|
  {
    if |s| >= 2 && High(s[0]) && Low(s[1]) then 2 else 1
  }

  /** The text of the next code point: a surrogate pair as it is, everything else by its unit. */
  function Chunk(s: Text): Text
    requires s != []
  {
    if Width(s) == 2 then s[..2] else EscapeUnit(s[0])
  }

  function Escape(s: Text): Text {
    if s == [] then [] else Chunk(s) + Escape(s[Width(s)..])
  }

  function Quote(s: Text): Text {
    [QUOTE] + Escape(s) + [QUOTE]
  }

  // ---------------------------------------------------------------- sorted keys

  /** Order of strings by code units, as Array.prototype.sort compares them. */
  predicate Less(s: Text, t: Text) {
    t != [] && (s == [] || s[0] < t[0] || (s[0] == t[0] && Less(s[1..], t[1..])))
  }

  function Insert(f: Field, fs: seq<Field>): (r: seq<Field>)
    ensures multiset(r) == multiset{f} + multiset(fs)
    ensures |r| == |fs| + 1
  {
    if fs == [] || Less(f.key, fs[0].key) then [f] + fs
    else
      assert fs == [fs[0]] + fs[1..];
      [fs[0]] + Insert(f, fs[1..])
  }

  /** The fields in the order of their sorted keys. */
  function SortFields(fs: seq<Field>): (r: seq<Field>)
    ensures multiset(r) == multiset(fs)
    ensures |r| == |fs|
  {
    if fs == [] then []
    else
      assert fs == [fs[0]] + fs[1..];
      Insert(fs[0], SortFields(fs[1..]))
  }

  // ---------------------------------------------------------------- the serialiser

  function Stable(v: Json): Text
    decreases v, 1
  {
    match v
    case Undefined => NULL_TEXT
    case Null => NULL_TEXT
    case NonFinite => NULL_TEXT
    case Bool(b) => if b then TRUE_TEXT else FALSE_TEXT
    case Number(text) => text
    case Str(s) => Quote(s)
    case Array(items) =>
      [LBRACKET] + (if items == [] then [] else Stable(items[0]) + StableItems(v, items[1..])) + [RBRACKET]
    case Object(fields) =>
      var sorted := SortFields(fields);
      SortedInside(v);
      [LBRACE] + (if sorted == [] then [] else StableField(v, sorted[0]) + StableFields(v, sorted[1..])) + [RBRACE]
  }

  /** Elements after the first, each led by a comma. */
  function StableItems(owner: Json, items: seq<Json>): Text
    requires forall i | 0 <= i < |items| :: items[i] < owner
    decreases owner, 0, |items|
  {
    if items == [] then [] else [COMMA] + Stable(items[0]) + StableItems(owner, items[1..])
  }

  function StableField(owner: Json, f: Field): Text
    requires f.value < owner
    decreases owner, 0, 0
  {
    Quote(f.key) + [COLON] + Stable(f.value)
  }

  /** Fields after the first, each led by a comma. */
  function StableFields(owner: Json, fs: seq<Field>): Text
    requires forall i | 0 <= i < |fs| :: fs[i].value < owner
    decreases owner, 0, |fs| + 1
  {
    if fs == [] then [] else [COMMA] + StableField(owner, fs[0]) + StableFields(owner, fs[1..])
  }

  lemma InMultiset(fs: seq<Field>, gs: seq<Field>)
    requires multiset(fs) == multiset(gs)
    ensures forall f :: f in fs <==> f in gs
  {
    forall f ensures f in fs <==> f in gs {
      assert f in fs <==> f in multiset(fs);
      assert f in gs <==> f in multiset(gs);
    }
  }

  lemma SortedInside(v: Json)
    requires v.Object?
    ensures forall i | 0 <= i < |SortFields(v.fields)| :: SortFields(v.fields)[i].value < v
  {
    var sorted := SortFields(v.fields);
    InMultiset(sorted, v.fields);
    forall i | 0 <= i < |sorted| ensures sorted[i].value < v {
      assert sorted[i] in sorted;
      var k :| 0 <= k < |v.fields| && v.fields[k] == sorted[i];
      assert v.fields[k].value < v;
    }
  }

  // ---------------------------------------------------------------- what equality should mean

  /** undefined, null, NaN and the infinities all serialise as null. */
  predicate NullLike(v: Json) {
    v.Undefined? || v.Null? || v.NonFinite?
  }

  /** Equality of JavaScript values up to the order of object keys at every depth, with the
      null-like values identified. */
  predicate Same(a: Json, b: Json) {
    match a
    case Array(items) =>
      b.Array? && |items| == |b.items| && forall i | 0 <= i < |items| :: Same(items[i], b.items[i])
    case Object(fields) =>
      b.Object? && |fields| == |b.fields| && forall i | 0 <= i < |fields| :: HasSame(fields[i], b.fields)
    case _ => if NullLike(a) then NullLike(b) else a == b
  }

  predicate HasSame(f: Field, gs: seq<Field>) {
    exists j | 0 <= j < |gs| :: f.key == gs[j].key && Same(f.value, gs[j].value)
  }

  /** No undefined and no non-finite number at any depth. */
  ghost predicate Plain(v: Json) {
    match v
    case Undefined => false
    case NonFinite => false
    case Array(items) => forall i | 0 <= i < |items| :: Plain(items[i])
    case Object(fields) => forall i | 0 <= i < |fields| :: Plain(fields[i].value)
    case _ => true
  }

  /** Equality up to the order of object keys at every depth, with nothing identified. */
  ghost predicate EqualUpToKeyOrder(a: Json, b: Json) {
    match a
    case Array(items) =>
      b.Array? && |items| == |b.items| && forall i | 0 <= i < |items| :: EqualUpToKeyOrder(items[i], b.items[i])
    case Object(fields) =>
      b.Object? && |fields| == |b.fields| && forall i | 0 <= i < |fields| :: HasEqual(fields[i], b.fields)
    case _ => a == b
  }

  ghost predicate HasEqual(f: Field, gs: seq<Field>) {
    exists j | 0 <= j < |gs| :: f.key == gs[j].key && EqualUpToKeyOrder(f.value, gs[j].value)
  }

  // ---------------------------------------------------------------- unique decoding of strings

  lemma NibblesInjective(u: Unit, v: Unit)
    requires u / 16 / 16 / 16 == v / 16 / 16 / 16 && u / 16 / 16 % 16 == v / 16 / 16 % 16
    requires u / 16 % 16 == v / 16 % 16 && u % 16 == v % 16
    ensures u == v
  {
    assert u / 16 / 16 == v / 16 / 16;
    assert u / 16 == v / 16;
  }

  lemma EscapeUnitUnique(u: Unit, v: Unit, r: Text, s: Text)
    requires EscapeUnit(u) + r == EscapeUnit(v) + s
    ensures u == v && r == s
  {
    var l, m := EscapeUnit(u) + r, EscapeUnit(v) + s;
    assert l[0] == m[0];
    if l[0] == BACKSLASH {
      assert l[1] == m[1];
      if l[1] == 117 {
        assert l[2] == m[2] && l[3] == m[3] && l[4] == m[4] && l[5] == m[5];
        NibblesInjective(u, v);
      }
    }
    assert u == v;
    assert r == l[|EscapeUnit(u)|..] && s == m[|EscapeUnit(v)|..];
  }

  /** A code point's text is not empty, never starts with the closing quote, and starts with a raw
      high surrogate exactly for a pair. */
  lemma ChunkHead(s: Text)
    requires s != []
    ensures Chunk(s) != [] && Chunk(s)[0] != QUOTE
    ensures High(Chunk(s)[0]) <==> Width(s) == 2
  {
  }

  lemma ChunkUnique(s: Text, t: Text, x: Text, y: Text)
    requires s != [] && t != [] && Chunk(s) + x == Chunk(t) + y
    ensures Width(s) == Width(t) && s[..Width(s)] == t[..Width(t)] && x == y
  {
    ChunkHead(s);
    ChunkHead(t);
    var l, m := Chunk(s) + x, Chunk(t) + y;
    assert Chunk(s)[0] == l[0] == m[0] == Chunk(t)[0];
    if Width(s) == 2 {
      assert s[..2] == l[..2] && t[..2] == m[..2] && x == l[2..] && y == m[2..];
    } else {
      EscapeUnitUnique(s[0], t[0], x, y);
    }
  }

  lemma {:induction false} EscapeUnique(s: Text, t: Text, r: Text, q: Text)
    requires Escape(s) + [QUOTE] + r == Escape(t) + [QUOTE] + q
    ensures s == t && r == q
    decreases |s| + |t|
  {
    var l, m := Escape(s) + [QUOTE] + r, Escape(t) + [QUOTE] + q;
    assert l[0] == m[0];
    if s != [] { EscapeHead(s); }
    if t != [] { EscapeHead(t); }
    if s == [] {
      assert r == l[1..] && q == m[1..];
    } else {
      var x, y := Escape(s[Width(s)..]) + [QUOTE] + r, Escape(t[Width(t)..]) + [QUOTE] + q;
      Reassociate(Chunk(s), Escape(s[Width(s)..]), r);
      Reassociate(Chunk(t), Escape(t[Width(t)..]), q);
      ChunkUnique(s, t, x, y);
      EscapeUnique(s[Width(s)..], t[Width(t)..], r, q);
      assert s == s[..Width(s)] + s[Width(s)..] && t == t[..Width(t)] + t[Width(t)..];
    }
  }

  lemma Reassociate(c: Text, e: Text, r: Text)
    ensures c + e + [QUOTE] + r == c + (e + [QUOTE] + r)
  {
  }

  lemma {:induction false} EscapeHead(s: Text)
    requires s != []
    ensures Escape(s) != [] && Escape(s)[0] != QUOTE
  {
    ChunkHead(s);
    assert Escape(s)[0] == Chunk(s)[0];
  }

  lemma QuoteUnique(s: Text, t: Text, r: Text, q: Text)
    requires Quote(s) + r == Quote(t) + q
    ensures s == t && r == q
  {
    var l, m := Quote(s) + r, Quote(t) + q;
    assert l[1..] == Escape(s) + [QUOTE] + r && m[1..] == Escape(t) + [QUOTE] + q;
    EscapeUnique(s, t, r, q);
  }

  lemma NumberUnique(s: NumberText, t: NumberText, r: Text, q: Text)
    requires s + r == t + q && Delimited(r) && Delimited(q)
    ensures s == t && r == q
  {
    NumberThenDelimiter(s, r);
    NumberThenDelimiter(t, q);
    var l, m := s + r, t + q;
    assert |s| >= |t| && |t| >= |s|;
    assert s == l[..|s|] && t == m[..|t|] && r == l[|s|..] && q == m[|t|..];
  }

  lemma NumberThenDelimiter(t: NumberText, q: Text)
    requires Delimited(q)
    ensures forall k | 0 <= k < |t| :: NumberUnit((t + q)[k])
    ensures |t + q| == |t| || !NumberUnit((t + q)[|t|])
  {
  }

  // ---------------------------------------------------------------- unique decoding of values

  /** What can follow a value in canonical text: nothing, a comma or a closing bracket. */
  predicate Delimited(r: Text) {
    r == [] || r[0] == COMMA || r[0] == RBRACKET || r[0] == RBRACE
  }

  lemma CancelPrefix(p: Text, r: Text, s: Text)
    requires p + r == p + s
    ensures r == s
  {
    assert r == (p + r)[|p|..] && s == (p + s)[|p|..];
  }

  /** Drop the leading unit of two equal texts and regroup what follows it. */
  lemma Regroup(c: Unit, x: Text, y: Text, d: Unit, r: Text, c': Unit, x': Text, y': Text, d': Unit, r': Text)
    requires [c] + (x + y) + [d] + r == [c'] + (x' + y') + [d'] + r'
    ensures x + (y + [d] + r) == x' + (y' + [d'] + r')
  {
    var l, m := [c] + (x + y) + [d] + r, [c'] + (x' + y') + [d'] + r';
    assert l[1..] == x + (y + [d] + r) && m[1..] == x' + (y' + [d'] + r');
  }

  /** The same for an enclosed list that may be empty: the second unit decides. */
  lemma EmptyBody(c: Unit, x: Text, d: Unit, r: Text, x': Text, r': Text)
    requires [c] + x + [d] + r == [c] + x' + [d] + r'
    requires (x != [] ==> x[0] != d) && (x' != [] ==> x'[0] != d)
    ensures x == [] <==> x' == []
    ensures x == [] ==> r == r'
  {
    var l, m := [c] + x + [d] + r, [c] + x' + [d] + r';
    assert l[1] == m[1];
    if x == [] && x' == [] {
      assert r == l[2..] && r' == m[2..];
    }
  }

  /** The same for a comma-led tail: the first unit decides. */
  lemma EmptyTail(x: Text, d: Unit, r: Text, x': Text, r': Text)
    requires x + [d] + r == x' + [d] + r'
    requires (x != [] ==> x[0] != d) && (x' != [] ==> x'[0] != d)
    ensures x == [] <==> x' == []
    ensures x == [] ==> r == r'
  {
    var l, m := x + [d] + r, x' + [d] + r';
    assert l[0] == m[0];
    if x == [] && x' == [] {
      assert r == l[1..] && r' == m[1..];
    }
  }

  /** The first unit of a value's text tells its kind. */
  lemma StableHead(v: Json)
    ensures Stable(v) != []
    ensures Stable(v)[0] !in {COMMA, COLON, RBRACKET, RBRACE}
    ensures NullLike(v) <==> Stable(v)[0] == 110
    ensures v == Bool(true) <==> Stable(v)[0] == 116
    ensures v == Bool(false) <==> Stable(v)[0] == 102
    ensures v.Number? <==> NumberUnit(Stable(v)[0])
    ensures v.Str? <==> Stable(v)[0] == QUOTE
    ensures v.Array? <==> Stable(v)[0] == LBRACKET
    ensures v.Object? <==> Stable(v)[0] == LBRACE
  {
  }

  /** Two canonical texts that agree as prefixes of the same input come from the same value. */
  lemma {:induction false} StableUnique(a: Json, b: Json, r: Text, q: Text)
    requires Delimited(r) && Delimited(q)
    requires Stable(a) + r == Stable(b) + q
    ensures Same(a, b) && r == q
    decreases a, 1
  {
    StableHead(a);
    StableHead(b);
    assert Stable(a)[0] == (Stable(a) + r)[0] == (Stable(b) + q)[0] == Stable(b)[0];
    match a
    case Number(text) => NumberUnique(text, b.text, r, q);
    case Str(s) => QuoteUnique(s, b.s, r, q);
    case Array(items) => ArrayUnique(a, b, r, q);
    case Object(fields) => ObjectUnique(a, b, r, q);
    case _ => CancelPrefix(Stable(a), r, q);
  }

  ghost predicate SameItems(xs: seq<Json>, ys: seq<Json>) {
    |xs| == |ys| && forall i | 0 <= i < |xs| :: Same(xs[i], ys[i])
  }

  lemma SameItemsCons(xs: seq<Json>, ys: seq<Json>)
    requires xs != [] && ys != [] && Same(xs[0], ys[0]) && SameItems(xs[1..], ys[1..])
    ensures SameItems(xs, ys)
  {
    forall i | 0 <= i < |xs| ensures Same(xs[i], ys[i]) {
      if i > 0 {
        assert xs[i] == xs[1..][i - 1] && ys[i] == ys[1..][i - 1];
      }
    }
  }

  function ArrayBody(v: Json): Text
    requires v.Array?
  {
    if v.items == [] then [] else Stable(v.items[0]) + StableItems(v, v.items[1..])
  }

  lemma {:induction false} ArrayUnique(a: Json, b: Json, r: Text, q: Text)
    requires a.Array? && b.Array? && Delimited(r) && Delimited(q)
    requires Stable(a) + r == Stable(b) + q
    ensures Same(a, b) && r == q
    decreases a, 0, |a.items| + 1
  {
    if a.items != [] { StableHead(a.items[0]); }
    if b.items != [] { StableHead(b.items[0]); }
    var x, y := ArrayBody(a), ArrayBody(b);
    assert [LBRACKET] + x + [RBRACKET] + r == [LBRACKET] + y + [RBRACKET] + q;
    EmptyBody(LBRACKET, x, RBRACKET, r, y, q);
    if a.items != [] {
      var ta, tb := StableItems(a, a.items[1..]), StableItems(b, b.items[1..]);
      Regroup(LBRACKET, Stable(a.items[0]), ta, RBRACKET, r, LBRACKET, Stable(b.items[0]), tb, RBRACKET, q);
      StableUnique(a.items[0], b.items[0], ta + [RBRACKET] + r, tb + [RBRACKET] + q);
      ItemsUnique(a, a.items[1..], b, b.items[1..], r, q);
      SameItemsCons(a.items, b.items);
    }
    assert SameItems(a.items, b.items);
  }

  lemma {:induction false} ItemsUnique(a: Json, xs: seq<Json>, b: Json, ys: seq<Json>, r: Text, q: Text)
    requires forall i | 0 <= i < |xs| :: xs[i] < a
    requires forall i | 0 <= i < |ys| :: ys[i] < b
    requires Delimited(r) && Delimited(q)
    requires StableItems(a, xs) + [RBRACKET] + r == StableItems(b, ys) + [RBRACKET] + q
    ensures SameItems(xs, ys) && r == q
    decreases a, 0, |xs|
  {
    EmptyTail(StableItems(a, xs), RBRACKET, r, StableItems(b, ys), q);
    if xs != [] {
      var ta, tb := StableItems(a, xs[1..]), StableItems(b, ys[1..]);
      assert StableItems(a, xs) == [COMMA] + (Stable(xs[0]) + ta)
             && StableItems(b, ys) == [COMMA] + (Stable(ys[0]) + tb);
      Regroup(COMMA, Stable(xs[0]), ta, RBRACKET, r, COMMA, Stable(ys[0]), tb, RBRACKET, q);
      StableUnique(xs[0], ys[0], ta + [RBRACKET] + r, tb + [RBRACKET] + q);
      ItemsUnique(a, xs[1..], b, ys[1..], r, q);
      SameItemsCons(xs, ys);
    }
  }

  /** Two field lists with the same keys and the same values, position by position. */
  ghost predicate SameFields(fs: seq<Field>, gs: seq<Field>) {
    |fs| == |gs| && forall i | 0 <= i < |fs| :: fs[i].key == gs[i].key && Same(fs[i].value, gs[i].value)
  }

  lemma {:induction false} FieldUnique(a: Json, f: Field, b: Json, g: Field, r: Text, q: Text)
    requires f.value < a && g.value < b && Delimited(r) && Delimited(q)
    requires StableField(a, f) + r == StableField(b, g) + q
    ensures f.key == g.key && Same(f.value, g.value) && r == q
    decreases a, 0, 0
  {
    var va, vb := Stable(f.value), Stable(g.value);
    FieldRegroup(Quote(f.key), va, r);
    FieldRegroup(Quote(g.key), vb, q);
    QuoteUnique(f.key, g.key, [COLON] + (va + r), [COLON] + (vb + q));
    CancelPrefix([COLON], va + r, vb + q);
    StableUnique(f.value, g.value, r, q);
  }

  lemma FieldRegroup(k: Text, v: Text, r: Text)
    ensures k + [COLON] + v + r == k + ([COLON] + (v + r))
  {
  }

  lemma {:induction false} FieldsUnique(a: Json, fs: seq<Field>, b: Json, gs: seq<Field>, r: Text, q: Text)
    requires forall i | 0 <= i < |fs| :: fs[i].value < a
    requires forall i | 0 <= i < |gs| :: gs[i].value < b
    requires Delimited(r) && Delimited(q)
    requires StableFields(a, fs) + [RBRACE] + r == StableFields(b, gs) + [RBRACE] + q
    ensures SameFields(fs, gs) && r == q
    decreases a, 0, |fs| + 1
  {
    EmptyTail(StableFields(a, fs), RBRACE, r, StableFields(b, gs), q);
    if fs != [] {
      var ta, tb := StableFields(a, fs[1..]), StableFields(b, gs[1..]);
      var fa, fb := StableField(a, fs[0]), StableField(b, gs[0]);
      assert StableFields(a, fs) == [COMMA] + (fa + ta) && StableFields(b, gs) == [COMMA] + (fb + tb);
      Regroup(COMMA, fa, ta, RBRACE, r, COMMA, fb, tb, RBRACE, q);
      FieldUnique(a, fs[0], b, gs[0], ta + [RBRACE] + r, tb + [RBRACE] + q);
      FieldsUnique(a, fs[1..], b, gs[1..], r, q);
      SameFieldsCons(fs, gs);
    }
  }

  lemma SameFieldsCons(fs: seq<Field>, gs: seq<Field>)
    requires fs != [] && gs != [] && fs[0].key == gs[0].key && Same(fs[0].value, gs[0].value)
    requires SameFields(fs[1..], gs[1..])
    ensures SameFields(fs, gs)
  {
    forall i | 0 <= i < |fs| ensures fs[i].key == gs[i].key && Same(fs[i].value, gs[i].value) {
      if i > 0 {
        assert fs[i] == fs[1..][i - 1] && gs[i] == gs[1..][i - 1];
      }
    }
  }

  function ObjectBody(v: Json): Text
    requires v.Object?
  {
    var sorted := SortFields(v.fields);
    SortedInside(v);
    if sorted == [] then [] else StableField(v, sorted[0]) + StableFields(v, sorted[1..])
  }

  lemma {:induction false} ObjectUnique(a: Json, b: Json, r: Text, q: Text)
    requires a.Object? && b.Object? && Delimited(r) && Delimited(q)
    requires Stable(a) + r == Stable(b) + q
    ensures Same(a, b) && r == q
    decreases a, 0, |a.fields| + 2
  {
    hide SortFields;
    hide Same;
    hide Delimited;
    var sa, sb := SortFields(a.fields), SortFields(b.fields);
    SortedInside(a);
    SortedInside(b);
    var x, y := ObjectBody(a), ObjectBody(b);
    assert [LBRACE] + x + [RBRACE] + r == [LBRACE] + y + [RBRACE] + q;
    EmptyBody(LBRACE, x, RBRACE, r, y, q);
    if sa != [] {
      var ta, tb := StableFields(a, sa[1..]), StableFields(b, sb[1..]);
      var fa, fb := StableField(a, sa[0]), StableField(b, sb[0]);
      Regroup(LBRACE, fa, ta, RBRACE, r, LBRACE, fb, tb, RBRACE, q);
      FieldUnique(a, sa[0], b, sb[0], ta + [RBRACE] + r, tb + [RBRACE] + q);
      FieldsUnique(a, sa[1..], b, sb[1..], r, q);
      SameFieldsCons(sa, sb);
    }
    SameFieldsGiveSame(a, b);
  }

  lemma IndexIn(fs: seq<Field>, gs: seq<Field>, i: nat) returns (k: nat)
    requires multiset(fs) == multiset(gs) && i < |fs|
    ensures k < |gs| && gs[k] == fs[i]
  {
    assert fs[i] in multiset(gs);
    k :| 0 <= k < |gs| && gs[k] == fs[i];
  }

  /** The field of b that the sorting puts against field i of a. */
  lemma SortedPartner(a: Json, b: Json, i: nat) returns (j: nat)
    requires a.Object? && b.Object? && SameFields(SortFields(a.fields), SortFields(b.fields)) && i < |a.fields|
    ensures j < |b.fields| && a.fields[i].key == b.fields[j].key && Same(a.fields[i].value, b.fields[j].value)
  {
    var k := IndexIn(a.fields, SortFields(a.fields), i);
    j := IndexIn(SortFields(b.fields), b.fields, k);
  }

  lemma SameFieldsGiveSame(a: Json, b: Json)
    requires a.Object? && b.Object? && SameFields(SortFields(a.fields), SortFields(b.fields))
    ensures Same(a, b)
  {
    forall i | 0 <= i < |a.fields| ensures HasSame(a.fields[i], b.fields) {
      var j := SortedPartner(a, b, i);
    }
  }

  // ---------------------------------------------------------------- key order does not matter

  lemma {:induction false} LessTotal(s: Text, t: Text)
    ensures s == t || Less(s, t) || Less(t, s)
    ensures !(Less(s, t) && Less(t, s)) && !Less(s, s)
  {
    if s != [] && t != [] && s[0] == t[0] {
      LessTotal(s[1..], t[1..]);
      assert s == [s[0]] + s[1..] && t == [t[0]] + t[1..];
    }
    if s != [] {
      LessTotal(s[1..], s[1..]);
    }
  }

  lemma {:induction false} LessTransitive(s: Text, t: Text, u: Text)
    requires Less(s, t) && Less(t, u)
    ensures Less(s, u)
  {
    if s != [] && s[0] == t[0] == u[0] {
      LessTransitive(s[1..], t[1..], u[1..]);
    }
  }

  ghost predicate Ascending(fs: seq<Field>) {
    forall i, j | 0 <= i < j < |fs| :: Less(fs[i].key, fs[j].key)
  }

  ghost predicate DistinctKeys(fs: seq<Field>) {
    forall i, j | 0 <= i < j < |fs| :: fs[i].key != fs[j].key
  }

  lemma {:induction false} InsertAscending(f: Field, fs: seq<Field>)
    requires Ascending(fs) && forall i | 0 <= i < |fs| :: fs[i].key != f.key
    ensures Ascending(Insert(f, fs))
  {
    if fs == [] {
    } else if Less(f.key, fs[0].key) {
      forall j | 0 < j < |fs| ensures Less(f.key, fs[j].key) {
        LessTransitive(f.key, fs[0].key, fs[j].key);
      }
    } else {
      LessTotal(f.key, fs[0].key);
      InsertAscending(f, fs[1..]);
      var rest := Insert(f, fs[1..]);
      InMultiset(rest, [f] + fs[1..]);
      forall j | 0 <= j < |rest| ensures Less(fs[0].key, rest[j].key) {
        assert rest[j] in [f] + fs[1..];
        if rest[j] != f {
          var k :| 0 <= k < |fs[1..]| && fs[1..][k] == rest[j];
          assert fs[k + 1] == rest[j];
        }
      }
    }
  }

  lemma {:induction false} SortAscending(fs: seq<Field>)
    requires DistinctKeys(fs)
    ensures Ascending(SortFields(fs))
  {
    if fs != [] {
      SortAscending(fs[1..]);
      var rest := SortFields(fs[1..]);
      InMultiset(rest, fs[1..]);
      forall i | 0 <= i < |rest| ensures rest[i].key != fs[0].key {
        assert rest[i] in fs[1..];
      }
      InsertAscending(fs[0], rest);
    }
  }

  ghost predicate AscendingBy<T>(ks: seq<T>, lt: (T, T) -> bool) {
    forall i, j | 0 <= i < j < |ks| :: lt(ks[i], ks[j])
  }

  /** Two ascending lists of one length, the elements of the first all among those of the second,
      are equal. */
  lemma {:induction false} AscendingAgree<T(!new)>(ks: seq<T>, ls: seq<T>, lt: (T, T) -> bool)
    requires AscendingBy(ks, lt) && AscendingBy(ls, lt) && |ks| == |ls|
    requires forall x, y :: !(lt(x, y) && lt(y, x))
    requires forall x :: x in ks ==> x in ls
    ensures ks == ls
  {
    if ks != [] {
      var n := |ks| - 1;
      assert ks[n] in ls;
      var top :| 0 <= top <= n && ls[top] == ks[n];
      forall x | x in ks[..n] ensures x in ls[..n] {
        var i :| 0 <= i < n && ks[i] == x;
        assert x in ls;
        var j :| 0 <= j <= n && ls[j] == x;
        // x lies below the last element of ks, so it is not the last of ls
        assert lt(x, ks[n]);
        assert j < n;
        assert ls[..n][j] == x;
      }
      AscendingAgree(ks[..n], ls[..n], lt);
      assert forall i | 0 <= i < n :: ks[i] == ks[..n][i] == ls[..n][i] == ls[i];
      assert forall i | 0 <= i < n :: lt(ks[i], ks[n]);
      assert top == n;
      assert ks == ks[..n] + [ks[n]] && ls == ls[..n] + [ls[n]];
    }
  }

  function Keys(fs: seq<Field>): (r: seq<Text>)
    ensures |r| == |fs| && forall i | 0 <= i < |fs| :: r[i] == fs[i].key
  {
    seq(|fs|, i requires 0 <= i < |fs| => fs[i].key)
  }

  /** The sorted field of b that holds the key and value of sorted field i of a. */
  lemma SortedCover(a: Json, b: Json, i: nat) returns (j: nat)
    requires a.Object? && Same(a, b) && i < |SortFields(a.fields)|
    ensures j < |SortFields(b.fields)|
    ensures SortFields(a.fields)[i].key == SortFields(b.fields)[j].key
    ensures Same(SortFields(a.fields)[i].value, SortFields(b.fields)[j].value)
  {
    var k := IndexIn(SortFields(a.fields), a.fields, i);
    assert HasSame(a.fields[k], b.fields);
    var m :| 0 <= m < |b.fields| && a.fields[k].key == b.fields[m].key && Same(a.fields[k].value, b.fields[m].value);
    j := IndexIn(b.fields, SortFields(b.fields), m);
  }

  lemma SortedKeysAgree(a: Json, b: Json)
    requires a.Object? && WellFormed(a) && WellFormed(b) && Same(a, b)
    ensures Keys(SortFields(a.fields)) == Keys(SortFields(b.fields))
    ensures Ascending(SortFields(b.fields))
  {
    var sa, sb := SortFields(a.fields), SortFields(b.fields);
    SortAscending(a.fields);
    SortAscending(b.fields);
    forall x | x in Keys(sa) ensures x in Keys(sb) {
      var i :| 0 <= i < |sa| && Keys(sa)[i] == x;
      var j := SortedCover(a, b, i);
      assert Keys(sb)[j] == x;
    }
    forall x, y ensures !(Less(x, y) && Less(y, x)) {
      LessTotal(x, y);
    }
    AscendingAgree(Keys(sa), Keys(sb), Less);
  }

  lemma SortedSame(a: Json, b: Json)
    requires a.Object? && WellFormed(a) && WellFormed(b) && Same(a, b)
    ensures SameFields(SortFields(a.fields), SortFields(b.fields))
  {
    var sa, sb := SortFields(a.fields), SortFields(b.fields);
    SortedKeysAgree(a, b);
    forall i | 0 <= i < |sa| ensures sa[i].key == sb[i].key && Same(sa[i].value, sb[i].value) {
      assert Keys(sa)[i] == Keys(sb)[i];
      var j := SortedCover(a, b, i);
      AscendingInjective(sb, i, j);
    }
  }

  lemma AscendingInjective(fs: seq<Field>, i: nat, j: nat)
    requires Ascending(fs) && i < |fs| && j < |fs| && fs[i].key == fs[j].key
    ensures i == j
  {
    LessTotal(fs[i].key, fs[j].key);
  }

  lemma {:induction false} SameStable(a: Json, b: Json)
    requires WellFormed(a) && WellFormed(b) && Same(a, b)
    ensures Stable(a) == Stable(b)
    decreases a, 1
  {
    match a
    case Array(items) =>
      if items != [] {
        SameStable(items[0], b.items[0]);
        ItemsSameStable(a, items[1..], b, b.items[1..]);
      }
    case Object(fields) =>
      var sa, sb := SortFields(a.fields), SortFields(b.fields);
      SortedInside(a);
      SortedInside(b);
      SortedSame(a, b);
      SortedWellFormed(a);
      SortedWellFormed(b);
      if sa != [] {
        SameStable(sa[0].value, sb[0].value);
        FieldsSameStable(a, sa[1..], b, sb[1..]);
      }
    case _ =>
  }

  lemma SortedWellFormed(v: Json)
    requires v.Object? && WellFormed(v)
    ensures forall i | 0 <= i < |SortFields(v.fields)| :: WellFormed(SortFields(v.fields)[i].value)
  {
    var sorted := SortFields(v.fields);
    InMultiset(sorted, v.fields);
    forall i | 0 <= i < |sorted| ensures WellFormed(sorted[i].value) {
      assert sorted[i] in v.fields;
    }
  }

  lemma {:induction false} ItemsSameStable(a: Json, xs: seq<Json>, b: Json, ys: seq<Json>)
    requires |xs| == |ys|
    requires forall i | 0 <= i < |xs| ::
               xs[i] < a && ys[i] < b && WellFormed(xs[i]) && WellFormed(ys[i]) && Same(xs[i], ys[i])
    ensures StableItems(a, xs) == StableItems(b, ys)
    decreases a, 0, |xs|
  {
    if xs != [] {
      SameStable(xs[0], ys[0]);
      ItemsSameStable(a, xs[1..], b, ys[1..]);
    }
  }

  lemma {:induction false} FieldsSameStable(a: Json, fs: seq<Field>, b: Json, gs: seq<Field>)
    requires |fs| == |gs|
    requires forall i | 0 <= i < |fs| ::
               && fs[i].value < a && gs[i].value < b && WellFormed(fs[i].value) && WellFormed(gs[i].value)
               && fs[i].key == gs[i].key && Same(fs[i].value, gs[i].value)
    ensures StableFields(a, fs) == StableFields(b, gs)
    decreases a, 0, |fs| + 1
  {
    if fs != [] {
      SameStable(fs[0].value, gs[0].value);
      FieldsSameStable(a, fs[1..], b, gs[1..]);
    }
  }

  // ---------------------------------------------------------------- main results

  /** Two values serialise equally exactly when they are equal up to key order at every depth and
      up to the values that print as null. */
  lemma StableIsCanonical(a: Json, b: Json)
    requires WellFormed(a) && WellFormed(b)
    ensures Stable(a) == Stable(b) <==> Same(a, b)
  {
    if Stable(a) == Stable(b) {
      assert Stable(a) + [] == Stable(b) + [];
      StableUnique(a, b, [], []);
    }
    if Same(a, b) {
      SameStable(a, b);
    }
  }

  lemma {:induction false} SameImpliesEqual(a: Json, b: Json)
    requires Plain(a) && Plain(b) && Same(a, b)
    ensures EqualUpToKeyOrder(a, b)
  {
    match a
    case Array(items) =>
      forall i | 0 <= i < |items| ensures EqualUpToKeyOrder(items[i], b.items[i]) {
        SameImpliesEqual(items[i], b.items[i]);
      }
    case Object(fields) =>
      forall i | 0 <= i < |fields| ensures HasEqual(fields[i], b.fields) {
        assert HasSame(fields[i], b.fields);
        var j :| 0 <= j < |b.fields| && fields[i].key == b.fields[j].key && Same(fields[i].value, b.fields[j].value);
        SameImpliesEqual(fields[i].value, b.fields[j].value);
      }
    case _ =>
  }

  lemma {:induction false} EqualImpliesSame(a: Json, b: Json)
    requires EqualUpToKeyOrder(a, b)
    ensures Same(a, b)
  {
    match a
    case Array(items) =>
      forall i | 0 <= i < |items| ensures Same(items[i], b.items[i]) {
        EqualImpliesSame(items[i], b.items[i]);
      }
    case Object(fields) =>
      forall i | 0 <= i < |fields| ensures HasSame(fields[i], b.fields) {
        assert HasEqual(fields[i], b.fields);
        var j :| 0 <= j < |b.fields| && fields[i].key == b.fields[j].key
          && EqualUpToKeyOrder(fields[i].value, b.fields[j].value);
        EqualImpliesSame(fields[i].value, b.fields[j].value);
      }
    case _ =>
  }

  /** Without undefined and non-finite numbers, equal text is equality up to key order. */
  lemma StableIsInjective(a: Json, b: Json)
    requires WellFormed(a) && WellFormed(b) && Plain(a) && Plain(b)
    ensures Stable(a) == Stable(b) <==> EqualUpToKeyOrder(a, b)
  {
    StableIsCanonical(a, b);
    if Same(a, b) {
      SameImpliesEqual(a, b);
    }
    if EqualUpToKeyOrder(a, b) {
      EqualImpliesSame(a, b);
    }
  }
}
