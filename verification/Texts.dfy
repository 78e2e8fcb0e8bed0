/** Characters and strings as JavaScript has them. */
module Texts {
  /** The white space of trim() and of the regular expressions. */
  predicate IsSpace(c: char) {
    var n := c as int;
    9 <= n <= 13 || n == 0x20 || n == 0xa0 || n == 0x1680 || 0x2000 <= n <= 0x200a ||
    n == 0x2028 || n == 0x2029 || n == 0x202f || n == 0x205f || n == 0x3000 || n == 0xfeff
  }

  lemma SpaceMeans(c: char)
    ensures IsSpace(c) <==>
            c as int in {9, 10, 11, 12, 13, 32, 160, 5760, 8192, 8193, 8194, 8195, 8196, 8197, 8198, 8199, 8200, 8201,
                         8202, 8232, 8233, 8239, 8287, 12288, 65279}
  {
  }

  /** A lower-case hexadecimal digit. */
  predicate IsHex(c: char) {
    '0' <= c <= '9' || 'a' <= c <= 'f'
  }

  lemma HexMeans(c: char)
    ensures IsHex(c) <==> c in "0123456789abcdef"
  {
    var digits := "0123456789abcdef";
    if '0' <= c <= '9' { assert digits[c as int - 48] == c; }
    if 'a' <= c <= 'f' { assert digits[c as int - 87] == c; }
  }

  predicate Hex(s: string) {
    forall i | 0 <= i < |s| :: IsHex(s[i])
  }

  lemma SmallLetters(c: char)
    ensures 'a' <= c <= 'z' <==> c in "abcdefghijklmnopqrstuvwxyz"
  {
    var letters := "abcdefghijklmnopqrstuvwxyz";
    if 'a' <= c <= 'z' { assert letters[c as int - 97] == c; }
  }

  lemma CapitalLetters(c: char)
    ensures 'A' <= c <= 'Z' <==> c in "ABCDEFGHIJKLMNOPQRSTUVWXYZ"
  {
    var letters := "ABCDEFGHIJKLMNOPQRSTUVWXYZ";
    if 'A' <= c <= 'Z' { assert letters[c as int - 65] == c; }
  }

  predicate StartsWith(s: string, p: string) {
    |p| <= |s| && s[..|p|] == p
  }

  lemma PrefixHead(s: string, p: string)
    requires StartsWith(s, p) && p != ""
    ensures s != "" && s[0] == p[0]
  {
    assert s[..|p|][0] == s[0];
  }

  function TrimStart(s: string): string {
    if s != "" && IsSpace(s[0]) then TrimStart(s[1..]) else s
  }

  function TrimEnd(s: string): string {
    if s != "" && IsSpace(s[|s| - 1]) then TrimEnd(s[..|s| - 1]) else s
  }

  function Trim(s: string): string {
    TrimEnd(TrimStart(s))
  }

  /** A text that begins and ends in something is all that is left of it behind a space. */
  lemma TrimSpace(s: string)
    requires s != "" && !IsSpace(s[0]) && !IsSpace(s[|s| - 1])
    ensures Trim([' '] + s) == s
  {
    assert IsSpace(([' '] + s)[0]) && ([' '] + s)[1..] == s;
    hide IsSpace;
    assert TrimStart([' '] + s) == TrimStart(s) == s;
  }

  /** toLowerCase() on ASCII. */
  function LowerChar(c: char): char {
    if 'A' <= c <= 'Z' then (c as int + 32) as char else c
  }

  function Lower(s: string): (t: string)
    ensures |t| == |s| && forall i | 0 <= i < |s| :: t[i] == LowerChar(s[i])
  {
    seq(|s|, i requires 0 <= i < |s| => LowerChar(s[i]))
  }

  lemma LowerAlready(s: string)
    requires forall i | 0 <= i < |s| :: !('A' <= s[i] <= 'Z')
    ensures Lower(s) == s
  {
  }

  lemma {:induction false} TrimStartHead(s: string)
    ensures TrimStart(s) == "" || !IsSpace(TrimStart(s)[0])
  {
    if s != "" && IsSpace(s[0]) { TrimStartHead(s[1..]); }
  }

  lemma {:induction false} TrimEndLast(s: string)
    ensures TrimEnd(s) == "" || !IsSpace(TrimEnd(s)[|TrimEnd(s)| - 1])
    ensures s != "" && !IsSpace(s[0]) ==> TrimEnd(s) != "" && TrimEnd(s)[0] == s[0]
  {
    if s != "" && IsSpace(s[|s| - 1]) { TrimEndLast(s[..|s| - 1]); }
  }

  /** Nothing is left to trim. */
  lemma TrimIdempotent(s: string)
    ensures Trim(Trim(s)) == Trim(s)
  {
    TrimStartHead(s);
    TrimEndLast(TrimStart(s));
  }

  /** What is left begins and ends in something, and only white space came off, at both ends. */
  lemma TrimMeans(s: string)
    ensures exists a, b ::
              s == a + Trim(s) + b && forall c | c in a + b :: IsSpace(c)
    ensures Trim(s) == "" || (!IsSpace(Trim(s)[0]) && !IsSpace(Trim(s)[|Trim(s)| - 1]))
  {
    var t := TrimStart(s);
    var a := TrimStartOff(s);
    var b := TrimEndOff(t);
    TrimStartHead(s);
    TrimEndLast(t);
    hide IsSpace;
    assert s == a + Trim(s) + b;
  }

  lemma {:induction false} TrimStartOff(s: string) returns (a: string)
    ensures s == a + TrimStart(s) && forall c | c in a :: IsSpace(c)
  {
    hide IsSpace;
    a := "";
    if s != "" && IsSpace(s[0]) {
      a := TrimStartOff(s[1..]);
      assert s == [s[0]] + s[1..];
      a := [s[0]] + a;
    }
  }

  lemma {:induction false} TrimStartOf(indent: string, t: string)
    requires (forall c | c in indent :: IsSpace(c)) && (t == "" || !IsSpace(t[0]))
    ensures TrimStart(indent + t) == t
  {
    hide IsSpace;
    if indent == "" {
      assert indent + t == t;
    } else {
      assert (indent + t)[1..] == indent[1..] + t && (indent + t)[0] == indent[0];
      TrimStartOf(indent[1..], t);
    }
  }

  lemma {:induction false} TrimEndOff(s: string) returns (b: string)
    ensures s == TrimEnd(s) + b && forall c | c in b :: IsSpace(c)
  {
    hide IsSpace;
    b := "";
    if s != "" && IsSpace(s[|s| - 1]) {
      b := TrimEndOff(s[..|s| - 1]);
      assert s == s[..|s| - 1] + [s[|s| - 1]];
      b := b + [s[|s| - 1]];
    }
  }

  // ---------------------------------------------------------------- splitting

  /** The pieces between the separators. */
  function Split(t: string, sep: char): (r: seq<string>)
    ensures r != []
  {
    if t == "" then [""]
    else if t[0] == sep then [""] + Split(t[1..], sep)
    else var p := Split(t[1..], sep); [[t[0]] + p[0]] + p[1..]
  }

  lemma {:induction false} SplitNone(t: string, sep: char)
    ensures forall i | 0 <= i < |Split(t, sep)| :: sep !in Split(t, sep)[i]
  {
    if t != "" { SplitNone(t[1..], sep); }
  }

  lemma {:induction false} SplitOne(t: string, sep: char)
    requires sep !in t
    ensures Split(t, sep) == [t]
  {
    if t != "" {
      SplitOne(t[1..], sep);
      assert [t[0]] + t[1..] == t;
    }
  }

  lemma SplitFirst(c: char, t: string, sep: char)
    ensures Split([c] + t, sep) ==
            if c == sep then [""] + Split(t, sep) else [[c] + Split(t, sep)[0]] + Split(t, sep)[1..]
  {
    assert ([c] + t)[1..] == t;
  }

  lemma {:induction false} SplitAppend(a: string, b: string, sep: char)
    ensures Split(a + [sep] + b, sep) == Split(a, sep) + Split(b, sep)
  {
    if a == "" {
      SplitFirst(sep, b, sep);
      assert a + [sep] + b == [sep] + b;
    } else {
      assert a + [sep] + b == [a[0]] + (a[1..] + [sep] + b);
      assert [a[0]] + a[1..] == a;
      SplitAppend(a[1..], b, sep);
      SplitFirst(a[0], a[1..] + [sep] + b, sep);
      SplitFirst(a[0], a[1..], sep);
      hide Split;
    }
  }
}
