/** Quoted strings against a reader of strings by section 7 of RFC 8259. */
module JsonStrings {
  import opened StableJson
  import opened Wrappers

  /** A code unit by its character. */
  function U(c: char): Unit
    requires c as int < 0x10000
  {
    c as int
  }

  /** What the letter behind a backslash stands for. */
  function Unescaped(letter: Unit): Option<Unit> {
    if letter == U('"') then Some(U('"'))
    else if letter == U('\\') then Some(U('\\'))
    else if letter == U('/') then Some(U('/'))
    else if letter == U('b') then Some(8)
    else if letter == U('f') then Some(12)
    else if letter == U('n') then Some(U('\n'))
    else if letter == U('r') then Some(U('\r'))
    else if letter == U('t') then Some(U('\t'))
    else None
  }

  function HexValue(u: Unit): Option<nat> {
    if U('0') <= u <= U('9') then Some(u - U('0'))
    else if U('a') <= u <= U('f') then Some(u - U('a') + 10)
    else if U('A') <= u <= U('F') then Some(u - U('A') + 10)
    else None
  }

  /** Four hexadecimal digits. */
  function FourHex(a: Unit, b: Unit, c: Unit, d: Unit): (r: Option<nat>)
    ensures r.Some? ==> r.value < 0x10000
  {
    var w, x, y, z := HexValue(a), HexValue(b), HexValue(c), HexValue(d);
    if w.Some? && x.Some? && y.Some? && z.Some? then
      HexBelow(a);
      HexBelow(b);
      HexBelow(c);
      HexBelow(d);
      Some(((w.value * 16 + x.value) * 16 + y.value) * 16 + z.value)
    else None
  }

  lemma HexBelow(u: Unit)
    ensures HexValue(u).Some? ==> HexValue(u).value < 16
  {
  }

  /** One character or escape at the start of the text, and how long it is. */
  function ReadUnit(t: Text): (r: Option<(Unit, nat)>)
    requires t != []
    ensures r.Some? ==> 1 <= r.value.1 <= |t|
  {
    if t[0] < 32 || t[0] == U('"') then None
    else if t[0] != U('\\') then Some((t[0], 1))
    else if |t| > 1 && Unescaped(t[1]).Some? then Some((Unescaped(t[1]).value, 2))
    else if |t| > 5 && t[1] == U('u') && FourHex(t[2], t[3], t[4], t[5]).Some? then
      Some((FourHex(t[2], t[3], t[4], t[5]).value, 6))
    else None
  }

  /** The string behind an opening quote, and what follows its closing quote. */
  function ReadString(t: Text): Option<(Text, Text)>
    decreases |t|
  {
    if t == [] then None
    else if t[0] == U('"') then Some(([], t[1..]))
    else
      var u := ReadUnit(t);
      if u.None? then None
      else
        var more := ReadString(t[u.value.1..]);
        if more.None? then None else Some(([u.value.0] + more.value.0, more.value.1))
  }

  lemma ReadMore(t: Text, u: Unit, n: nat)
    requires t != [] && t[0] != U('"') && ReadUnit(t) == Some((u, n)) && ReadString(t[n..]).Some?
    ensures ReadString(t) == Some(([u] + ReadString(t[n..]).value.0, ReadString(t[n..]).value.1))
  {
    hide ReadUnit;
  }

  lemma HexReads(d: nat)
    requires d < 16
    ensures HexValue(HexDigit(d)) == Some(d)
  {
  }

  lemma NibblesOf(u: Unit)
    ensures ((u / 16 / 16 / 16 * 16 + u / 16 / 16 % 16) * 16 + u / 16 % 16) * 16 + u % 16 == u
    ensures u / 16 / 16 / 16 < 16
  {
    assert u / 16 * 16 + u % 16 == u;
    assert u / 16 / 16 * 16 + u / 16 % 16 == u / 16;
    assert u / 16 / 16 / 16 * 16 + u / 16 / 16 % 16 == u / 16 / 16;
  }

  lemma HexEscapeReads(u: Unit, rest: Text)
    ensures var a, b, c, d := HexDigit(u / 16 / 16 / 16), HexDigit(u / 16 / 16 % 16), HexDigit(u / 16 % 16),
                              HexDigit(u % 16);
            ReadUnit([BACKSLASH, 117, a, b, c, d] + rest) == Some((u, 6))
  {
    NibblesOf(u);
    HexReads(u / 16 / 16 / 16);
    HexReads(u / 16 / 16 % 16);
    HexReads(u / 16 % 16);
    HexReads(u % 16);
    hide HexDigit;
    hide HexValue;
  }

  /** An escaped unit is read as the unit. */
  lemma UnitReads(u: Unit, rest: Text)
    ensures var t := EscapeUnit(u) + rest;
            t != [] && t[0] != U('"') && ReadUnit(t) == Some((u, |EscapeUnit(u)|)) && t[|EscapeUnit(u)|..] == rest
  {
    if ShortEscape(u) == 0 && (u < 32 || High(u) || Low(u)) { HexEscapeReads(u, rest); }
    hide HexDigit;
    hide FourHex;
  }

  /** Whatever the string: it is read back, and reading goes on behind it. */
  lemma {:induction false} ReadBack(s: Text, rest: Text)
    ensures ReadString(Escape(s) + ([U('"')] + rest)) == Some((s, rest))
    decreases |s|
  {
    EscapeParts(s, [U('"')] + rest);
    hide *;
    if s == [] {
      ReadEnd(rest);
    } else {
      ReadBack(s[Width(s)..], rest);
      ChunkReads(s, Escape(s[Width(s)..]) + ([U('"')] + rest), rest);
    }
  }

  lemma ReadEnd(rest: Text)
    ensures ReadString([U('"')] + rest) == Some(([], rest))
  {
    assert ([U('"')] + rest)[1..] == rest;
  }

  lemma EscapeParts(s: Text, rest: Text)
    ensures Escape(s) + rest == if s == [] then rest else Chunk(s) + (Escape(s[Width(s)..]) + rest)
  {
    hide Chunk;
    if s != [] { Assoc(Chunk(s), Escape(s[Width(s)..]), rest); }
  }

  lemma Assoc(a: Text, b: Text, c: Text)
    ensures (a + b) + c == a + (b + c)
  {
  }

  lemma ChunkReads(s: Text, more: Text, rest: Text)
    requires s != [] && ReadString(more) == Some((s[Width(s)..], rest))
    ensures ReadString(Chunk(s) + more) == Some((s, rest))
  {
    hide ReadString;
    if Width(s) == 2 {
      PairReads(s[0], s[1], more);
      assert s[..2] == [s[0], s[1]] && s == [s[0]] + ([s[1]] + s[2..]);
    } else {
      UnitReads(s[0], more);
      ReadMore(EscapeUnit(s[0]) + more, s[0], |EscapeUnit(s[0])|);
      hide EscapeUnit;
      assert s == [s[0]] + s[1..];
    }
  }

  lemma PairReads(a: Unit, b: Unit, more: Text)
    requires High(a) && Low(b) && ReadString(more).Some?
    ensures ReadString([a, b] + more) == Some(([a] + ([b] + ReadString(more).value.0), ReadString(more).value.1))
  {
    var t := [a, b] + more;
    assert t[1..] == [b] + more && t[1..][1..] == more;
    ReadMore([b] + more, b, 1);
    ReadMore(t, a, 1);
  }

  // ---------------------------------------------------------------- surrogates

  /** No half of a pair stands alone. */
  predicate Paired(t: Text)
    decreases |t|
  {
    t == [] ||
    if 0xD800 <= t[0] <= 0xDBFF then |t| > 1 && 0xDC00 <= t[1] <= 0xDFFF && Paired(t[2..])
    else !(0xDC00 <= t[0] <= 0xDFFF) && Paired(t[1..])
  }

  /** Nothing of it needs an escape. */
  ghost predicate Simple(t: Text) {
    Paired(t) && forall i | 0 <= i < |t| :: t[i] >= 32 && t[i] != U('"') && t[i] != U('\\')
  }

  lemma {:induction false} PairedAppend(s: Text, t: Text)
    requires Paired(s) && Paired(t)
    ensures Paired(s + t)
    decreases |s|
  {
    if s == [] {
      assert s + t == t;
    } else if 0xD800 <= s[0] <= 0xDBFF {
      assert (s + t)[2..] == s[2..] + t;
      PairedAppend(s[2..], t);
    } else {
      assert (s + t)[1..] == s[1..] + t;
      PairedAppend(s[1..], t);
    }
  }

  lemma {:induction false} UnitsPaired(t: Text)
    requires forall i | 0 <= i < |t| :: !(0xD800 <= t[i] <= 0xDFFF)
    ensures Paired(t)
  {
    if t != [] { UnitsPaired(t[1..]); }
  }

  /** A quoted string is well-formed UTF-16, whatever the string was. */
  lemma {:induction false} EscapePaired(s: Text)
    ensures Paired(Escape(s))
    decreases |s|
  {
    if s != [] {
      EscapePaired(s[Width(s)..]);
      if Width(s) == 2 {
        assert s[..2][2..] == [];
      } else {
        UnitsPaired(EscapeUnit(s[0]));
      }
      PairedAppend(Chunk(s), Escape(s[Width(s)..]));
    }
  }

  /** And a string that needs no escape is written as it is. */
  lemma {:induction false} SimpleStays(s: Text)
    requires Simple(s)
    ensures Escape(s) == s
    decreases |s|
  {
    if s != [] {
      SimpleStays(s[Width(s)..]);
      assert s == s[..Width(s)] + s[Width(s)..];
    }
  }

  /** The marks and words of the text. */
  lemma Marks()
    ensures QUOTE == U('"') && COMMA == U(',') && COLON == U(':') && LBRACKET == U('[') && RBRACKET == U(']')
    ensures LBRACE == U('{') && RBRACE == U('}')
    ensures Spells(NULL_TEXT, "null") && Spells(TRUE_TEXT, "true") && Spells(FALSE_TEXT, "false")
  {
  }

  ghost predicate Spells(t: Text, word: string) {
    |t| == |word| && forall i | 0 <= i < |t| :: t[i] == word[i] as int
  }

  /** What a finite number is printed with. */
  lemma NumberUnitMeans(u: Unit)
    ensures var units := "0123456789-+.e"; NumberUnit(u) <==> exists i | 0 <= i < |units| :: units[i] as int == u
  {
    var units := "0123456789-+.e";
    if 48 <= u <= 57 { assert units[u - 48] as int == u; }
    assert units[10] as int == 45 && units[11] as int == 43 && units[12] as int == 46 && units[13] as int == 101;
  }
}
