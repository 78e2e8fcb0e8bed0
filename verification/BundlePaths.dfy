/** Paths inside a bundle: which relative names are accepted, and where they lead. */
module BundlePaths {
  import opened Texts
  import opened Wrappers

  const SLASH := '/'

  function Joined(names: seq<string>): string {
    if names == [] then "" else if |names| == 1 then names[0] else names[0] + [SLASH] + Joined(names[1..])
  }

  /** Resolving one name: empty and `.` say nothing, `..` goes up and stays at the top. */
  function Next(at: seq<string>, n: string): seq<string> {
    if n == "" || n == "." then at
    else if n == ".." then (if at == [] then [] else at[..|at| - 1])
    else at + [n]
  }

  function Walk(at: seq<string>, names: seq<string>): seq<string>
    decreases |names|
  {
    if names == [] then at else Walk(Next(at, names[0]), names[1..])
  }

  /** path.resolve against the working directory. */
  function Resolve(cwd: seq<string>, s: string): seq<string> {
    Walk(if s != "" && s[0] == SLASH then [] else cwd, Split(s, SLASH))
  }

  /** The text of an absolute path. */
  function AbsoluteText(at: seq<string>): string {
    [SLASH] + Joined(at)
  }

  /** A name a directory entry can have. */
  predicate ProperName(n: string) {
    n != "" && n != "." && n != ".." && SLASH !in n
  }

  ghost predicate Proper(at: seq<string>) {
    forall i | 0 <= i < |at| :: ProperName(at[i])
  }

  // ---------------------------------------------------------------- accepted relative paths

  predicate IsLetter(c: char) {
    'a' <= c <= 'z' || 'A' <= c <= 'Z'
  }

  /** The relative path a manifest may name, or a refusal. */
  function AssertSafeRelativePath(rel: string): Option<string> {
    var v := Trim(rel);
    if v == "" || '\0' in v || '\\' in v then None
    else if v[0] == SLASH || (|v| > 1 && IsLetter(v[0]) && v[1] == ':') then None
    else if exists i | 0 <= i < |Split(v, SLASH)| :: Split(v, SLASH)[i] in {"", ".", ".."} then None
    else Some(v)
  }

  /** Names that a path in a bundle may consist of: none is empty or a step, none holds a slash, a backslash or
      NUL, and the first does not begin with a drive. */
  ghost predicate SafeNames(names: seq<string>) {
    && names != [] && (forall n | n in names :: n !in {"", ".", ".."} && '/' !in n && '\\' !in n && '\0' !in n)
    && !(|names[0]| > 1 && names[0][1] == ':' &&
         (names[0][0] in "abcdefghijklmnopqrstuvwxyz" || names[0][0] in "ABCDEFGHIJKLMNOPQRSTUVWXYZ"))
  }

  /** What is accepted, and as what: the text without white space around it, if it is such names with slashes
      between them. */
  lemma SafeMeans(rel: string, v: string)
    ensures AssertSafeRelativePath(rel) == Some(v) <==>
            v == Trim(rel) && exists names :: SafeNames(names) && v == Joined(names)
  {
    hide Trim;
    hide SafeNames;
    if AssertSafeRelativePath(rel) == Some(v) {
      SafeHasNames(rel);
    }
    forall names | SafeNames(names) && v == Joined(names) && v == Trim(rel)
      ensures AssertSafeRelativePath(rel) == Some(v)
    {
      NamesAreSafe(rel, names);
    }
  }

  lemma SafeHasNames(rel: string)
    requires AssertSafeRelativePath(rel).Some?
    ensures var v := Trim(rel); SafeNames(Split(v, '/')) && v == Joined(Split(v, '/'))
  {
    var v := Trim(rel);
    hide Trim;
    var names := Split(v, '/');
    JoinedSplit(v);
    SplitNone(v, '/');
    JoinedHas(names, '\\');
    JoinedHas(names, '\0');
    JoinedStarts(names);
    Letters(v[0]);
    hide Joined;
    hide IsLetter;
    forall n | n in names ensures n !in {"", ".", ".."} && '/' !in n && '\\' !in n && '\0' !in n {
      var i :| 0 <= i < |names| && names[i] == n;
    }
  }

  lemma NamesAreSafe(rel: string, names: seq<string>)
    requires SafeNames(names) && Trim(rel) == Joined(names)
    ensures AssertSafeRelativePath(rel) == Some(Trim(rel))
  {
    var v := Trim(rel);
    hide Trim;
    assert forall i | 0 <= i < |names| :: names[i] in names;
    SplitJoined(names);
    JoinedHas(names, '\\');
    JoinedHas(names, '\0');
    JoinedStarts(names);
    Letters(v[0]);
    hide Joined;
    hide IsLetter;
    hide Split;
  }

  lemma Letters(c: char)
    ensures IsLetter(c) <==> c in "abcdefghijklmnopqrstuvwxyz" || c in "ABCDEFGHIJKLMNOPQRSTUVWXYZ"
  {
    SmallLetters(c);
    CapitalLetters(c);
  }

  /** The characters of joined names are those of the names and the slashes between them. */
  lemma {:induction false} JoinedHas(names: seq<string>, c: char)
    requires c != SLASH
    ensures c in Joined(names) <==> exists i | 0 <= i < |names| :: c in names[i]
  {
    if |names| == 1 {
      assert c in names[0] <==> c in Joined(names);
    } else if |names| > 1 {
      JoinedHas(names[1..], c);
      if c in Joined(names) && c !in names[0] {
        assert c in Joined(names[1..]);
        var i :| 0 <= i < |names[1..]| && c in names[1..][i];
        assert names[i + 1] == names[1..][i];
      }
      if i :| 0 <= i < |names| && c in names[i] {
        assert i > 0 ==> names[1..][i - 1] == names[i];
      }
    }
  }

  lemma JoinedStarts(names: seq<string>)
    requires names != []
    ensures names[0] != "" ==> Joined(names) != "" && Joined(names)[0] == names[0][0]
    ensures |names[0]| > 1 ==> |Joined(names)| > 1 && Joined(names)[1] == names[0][1]
    ensures |names[0]| == 1 ==> |Joined(names)| == 1 || Joined(names)[1] == SLASH
  {
  }

  // ---------------------------------------------------------------- splitting and joining

  /** A character in front of the first name is a character in front of the text. */
  lemma JoinedFirst(c: char, names: seq<string>)
    requires names != []
    ensures Joined([[c] + names[0]] + names[1..]) == [c] + Joined(names)
  {
    var longer := [[c] + names[0]] + names[1..];
    assert longer[1..] == names[1..];
    if |names| > 1 {
      assert [c] + names[0] + [SLASH] + Joined(names[1..]) == [c] + (names[0] + [SLASH] + Joined(names[1..]));
    }
  }

  lemma {:induction false} JoinedSplit(s: string)
    ensures Joined(Split(s, SLASH)) == s
  {
    if s != "" {
      JoinedSplit(s[1..]);
      var p := Split(s[1..], SLASH);
      assert [s[0]] + s[1..] == s;
      if s[0] == SLASH {
        assert ([""] + p)[1..] == p;
        assert "" + [SLASH] + s[1..] == [SLASH] + s[1..];
      } else {
        JoinedFirst(s[0], p);
      }
    }
  }

  lemma {:induction false} SplitJoined(at: seq<string>)
    requires at != [] && forall i | 0 <= i < |at| :: SLASH !in at[i]
    ensures Split(Joined(at), SLASH) == at
  {
    SplitOne(at[0], SLASH);
    if |at| > 1 {
      SplitJoined(at[1..]);
      SplitAppend(at[0], Joined(at[1..]), SLASH);
      assert [at[0]] + at[1..] == at;
    } else {
      assert at == [at[0]];
    }
  }

  lemma {:induction false} WalkAppend(at: seq<string>, xs: seq<string>, ys: seq<string>)
    ensures Walk(at, xs + ys) == Walk(Walk(at, xs), ys)
    decreases |xs|
  {
    if xs == [] {
      assert xs + ys == ys;
    } else {
      assert (xs + ys)[0] == xs[0] && (xs + ys)[1..] == xs[1..] + ys;
      WalkAppend(Next(at, xs[0]), xs[1..], ys);
    }
  }

  /** Proper names are just appended. */
  lemma {:induction false} WalkProper(at: seq<string>, names: seq<string>)
    requires Proper(names)
    ensures Walk(at, names) == at + names
    decreases |names|
  {
    if names != [] {
      assert ProperName(names[0]);
      WalkProper(at + [names[0]], names[1..]);
      assert Next(at, names[0]) == at + [names[0]];
      assert at + [names[0]] + names[1..] == at + names;
    }
  }

  /** Resolving always ends at proper names. */
  lemma {:induction false} WalkIsProper(at: seq<string>, names: seq<string>)
    requires Proper(at) && forall i | 0 <= i < |names| :: SLASH !in names[i]
    ensures Proper(Walk(at, names))
    decreases |names|
  {
    if names != [] {
      WalkIsProper(Next(at, names[0]), names[1..]);
    }
  }

  lemma ResolveIsProper(cwd: seq<string>, s: string)
    requires Proper(cwd)
    ensures Proper(Resolve(cwd, s))
  {
    SplitNone(s, SLASH);
    WalkIsProper(if s != "" && s[0] == SLASH then [] else cwd, Split(s, SLASH));
  }

  // ---------------------------------------------------------------- where accepted paths lead

  lemma SafeIsProper(rel: string)
    requires AssertSafeRelativePath(rel).Some?
    ensures Proper(Split(AssertSafeRelativePath(rel).value, SLASH))
  {
    var v := AssertSafeRelativePath(rel).value;
    SplitNone(v, SLASH);
    forall i | 0 <= i < |Split(v, SLASH)| ensures ProperName(Split(v, SLASH)[i]) {
      assert Split(v, SLASH)[i] !in {"", ".", ".."};
    }
  }

  /** An accepted path, looked up under any directory, leads to that directory plus exactly its own names. */
  lemma SafeStaysInside(cwd: seq<string>, dir: string, rel: string)
    requires AssertSafeRelativePath(rel).Some? && dir != ""
    ensures var v := AssertSafeRelativePath(rel).value;
            Resolve(cwd, dir + [SLASH] + v) == Resolve(cwd, dir) + Split(v, SLASH)
  {
    var v := AssertSafeRelativePath(rel).value;
    SafeIsProper(rel);
    SplitAppend(dir, v, SLASH);
    var from := if dir[0] == SLASH then [] else cwd;
    assert (dir + [SLASH] + v)[0] == dir[0];
    WalkAppend(from, Split(dir, SLASH), Split(v, SLASH));
    WalkProper(Walk(from, Split(dir, SLASH)), Split(v, SLASH));
  }

  /** Different accepted paths lead to different places. */
  lemma SafeNeverCollides(cwd: seq<string>, dir: string, a: string, b: string)
    requires AssertSafeRelativePath(a).Some? && AssertSafeRelativePath(b).Some? && dir != ""
    requires Resolve(cwd, dir + [SLASH] + AssertSafeRelativePath(a).value) ==
             Resolve(cwd, dir + [SLASH] + AssertSafeRelativePath(b).value)
    ensures AssertSafeRelativePath(a) == AssertSafeRelativePath(b)
  {
    var v, w := AssertSafeRelativePath(a).value, AssertSafeRelativePath(b).value;
    SafeStaysInside(cwd, dir, a);
    SafeStaysInside(cwd, dir, b);
    var root := Resolve(cwd, dir);
    assert Split(v, SLASH) == (root + Split(v, SLASH))[|root|..]
           && Split(w, SLASH) == (root + Split(w, SLASH))[|root|..];
    JoinedSplit(v);
    JoinedSplit(w);
  }

  // ---------------------------------------------------------------- the check on resolved paths

  /** The resolved path, when it is the root or its text starts with the root's and a slash. */
  function ResolveWithinRoot(cwd: seq<string>, candidate: string, root: string): Option<seq<string>> {
    if candidate == "" || candidate[0] == '-' then None
    else
      var at, top := Resolve(cwd, candidate), Resolve(cwd, root);
      if at != top && !StartsWith(AbsoluteText(at), AbsoluteText(top) + [SLASH]) then None else Some(at)
  }

  lemma {:induction false} JoinedAppend(xs: seq<string>, ys: seq<string>)
    requires xs != [] && ys != []
    ensures Joined(xs + ys) == Joined(xs) + [SLASH] + Joined(ys)
  {
    if |xs| == 1 {
      assert xs + ys == [xs[0]] + ys && ([xs[0]] + ys)[1..] == ys;
    } else {
      assert (xs + ys)[0] == xs[0] && (xs + ys)[1..] == xs[1..] + ys;
      JoinedAppend(xs[1..], ys);
      assert xs[0] + [SLASH] + (Joined(xs[1..]) + [SLASH] + Joined(ys)) == Joined(xs) + [SLASH] + Joined(ys);
    }
  }

  lemma PrefixOnce(p: string, a: string, b: string)
    ensures StartsWith(p + a, p + b) <==> StartsWith(a, b)
  {
    if StartsWith(p + a, p + b) {
      assert a[..|b|] == (p + a)[..|p + b|][|p|..];
    }
    if StartsWith(a, b) {
      assert (p + a)[..|p + b|] == p + a[..|b|];
    }
  }

  /** In text as in names: below the root or not. */
  lemma BelowInText(at: seq<string>, top: seq<string>)
    requires Proper(at) && Proper(top)
    ensures StartsWith(AbsoluteText(at), AbsoluteText(top) + [SLASH])
            <==> top != [] && |top| < |at| && at[..|top|] == top
  {
    assert AbsoluteText(top) + [SLASH] == [SLASH] + (Joined(top) + [SLASH]);
    PrefixOnce([SLASH], Joined(at), Joined(top) + [SLASH]);
    if top == [] {
      if StartsWith(Joined(at), [SLASH]) {
        PrefixHead(Joined(at), [SLASH]);
        FirstNotSlash(at);
        assert false;
      }
    } else {
      if |top| < |at| && at[..|top|] == top {
        JoinedAppend(top, at[|top|..]);
        assert top + at[|top|..] == at;
        assert Joined(at)[..|Joined(top)| + 1] == Joined(top) + [SLASH];
      }
      if StartsWith(Joined(at), Joined(top) + [SLASH]) {
        var rest := Joined(at)[|Joined(top)| + 1..];
        assert Joined(at) == Joined(top) + [SLASH] + rest;
        SplitAppend(Joined(top), rest, SLASH);
        SplitJoined(top);
        NotEmpty(at);
        SplitJoined(at);
        assert at == top + Split(rest, SLASH);
      }
    }
  }

  lemma NotEmpty(at: seq<string>)
    requires Joined(at) != ""
    ensures at != []
  {
  }

  lemma FirstNotSlash(at: seq<string>)
    requires Proper(at)
    ensures Joined(at) == "" || Joined(at)[0] != SLASH
  {
    if at != [] {
      assert ProperName(at[0]);
      assert Joined(at)[0] == at[0][0];
    }
  }

  /** The check passes exactly for the root itself and what lies below it; under the top directory, whose
      text already ends in a slash, only for the root itself. */
  lemma WithinRootExactly(cwd: seq<string>, candidate: string, root: string)
    requires Proper(cwd)
    ensures var at, top := Resolve(cwd, candidate), Resolve(cwd, root);
            ResolveWithinRoot(cwd, candidate, root) ==
            if candidate != "" && candidate[0] != '-' &&
               (at == top || (top != [] && |top| < |at| && at[..|top|] == top))
            then Some(at) else None
  {
    ResolveIsProper(cwd, candidate);
    ResolveIsProper(cwd, root);
    BelowInText(Resolve(cwd, candidate), Resolve(cwd, root));
  }
}
