/** The edit distance behind the flag suggestions of scripts/cliFlagPolicy.js: a dynamic program
    that keeps a single row, the distance it computes, and what that distance means. */
module EditDistance {
  import opened Texts
  import opened Wrappers

  function Min3(x: nat, y: nat, z: nat): nat {
    if x <= y && x <= z then x else if y <= z then y else z
  }

  function Cost<T(==)>(x: T, y: T): nat {
    if x == y then 0 else 1
  }

  function Init<T>(s: seq<T>): seq<T>
    requires s != []
  {
    s[..|s| - 1]
  }

  function Last<T>(s: seq<T>): T
    requires s != []
  {
    s[|s| - 1]
  }

  /** Levenshtein distance by its recurrence on the last elements. */
  function Lev<T(==)>(a: seq<T>, b: seq<T>): nat
    decreases |a| + |b|
  {
    if a == [] then |b|
    else if b == [] then |a|
    else Min3(Lev(Init(a), b) + 1, Lev(a, Init(b)) + 1, Lev(Init(a), Init(b)) + Cost(Last(a), Last(b)))
  }

  // ---------------------------------------------------------------- the one-row program

  /** The distance of the first i elements of a and the first j elements of b. */
  ghost function Cell<T>(a: seq<T>, b: seq<T>, i: nat, j: nat): nat
    requires i <= |a| && j <= |b|
  {
    Lev(a[..i], b[..j])
  }

  lemma LevStep<T>(a: seq<T>, b: seq<T>, i: nat, j: nat)
    requires 1 <= i <= |a| && 1 <= j <= |b|
    ensures Cell(a, b, i, j) ==
            Min3(Cell(a, b, i - 1, j) + 1, Cell(a, b, i, j - 1) + 1,
                 Cell(a, b, i - 1, j - 1) + Cost(a[i - 1], b[j - 1]))
  {
    assert Init(a[..i]) == a[..i - 1] && Init(b[..j]) == b[..j - 1];
  }

  lemma LevEdges<T>(a: seq<T>, b: seq<T>, i: nat, j: nat)
    requires i <= |a| && j <= |b|
    ensures Cell(a, b, 0, j) == j && Cell(a, b, i, 0) == i
  {
  }

  /** The source's program: one array, overwritten row by row, with the value to the upper left
      carried in diag. */
  method Distance<T(==)>(a: seq<T>, b: seq<T>) returns (d: nat)
    ensures d == Lev(a, b)
  {
    var prev := new nat[|b| + 1](j => j);
    forall k | 0 <= k <= |b| ensures prev[k] == Cell(a, b, 0, k) {
      LevEdges(a, b, 0, k);
    }
    for i := 1 to |a| + 1
      invariant forall k | 0 <= k <= |b| :: prev[k] == Cell(a, b, i - 1, k)
    {
      var diag := prev[0];
      prev[0] := i;
      LevEdges(a, b, i, 0);
      for j := 1 to |b| + 1
        invariant forall k | 0 <= k < j :: prev[k] == Cell(a, b, i, k)
        invariant forall k | j <= k <= |b| :: prev[k] == Cell(a, b, i - 1, k)
        invariant diag == Cell(a, b, i - 1, j - 1)
      {
        LevStep(a, b, i, j);
        var tmp := prev[j];
        prev[j] := Min3(prev[j] + 1, prev[j - 1] + 1, diag + Cost(a[i - 1], b[j - 1]));
        diag := tmp;
      }
    }
    assert a[..|a|] == a && b[..|b|] == b;
    d := prev[|b|];
  }

  // ---------------------------------------------------------------- a metric

  lemma {:induction false} LevSelf<T>(a: seq<T>)
    ensures Lev(a, a) == 0
  {
    if a != [] {
      LevSelf(Init(a));
    }
  }

  lemma {:induction false} LevSymmetric<T>(a: seq<T>, b: seq<T>)
    ensures Lev(a, b) == Lev(b, a)
    decreases |a| + |b|
  {
    if a != [] && b != [] {
      LevSymmetric(Init(a), b);
      LevSymmetric(a, Init(b));
      LevSymmetric(Init(a), Init(b));
    }
  }

  lemma {:induction false} LevZeroOnlyOnEqual<T>(a: seq<T>, b: seq<T>)
    ensures Lev(a, b) == 0 <==> a == b
    decreases |a| + |b|
  {
    if a == b {
      LevSelf(a);
    }
    if a != [] && b != [] && Lev(a, b) == 0 {
      LevZeroOnlyOnEqual(Init(a), Init(b));
      assert a == Init(a) + [Last(a)] && b == Init(b) + [Last(b)];
    }
  }

  /** The distance is at least the difference in length and at most the longer length. */
  lemma {:induction false} LevBounds<T>(a: seq<T>, b: seq<T>)
    ensures Lev(a, b) >= |a| - |b| && Lev(a, b) >= |b| - |a|
    ensures Lev(a, b) <= |a| || Lev(a, b) <= |b|
    decreases |a| + |b|
  {
    if a != [] && b != [] {
      LevBounds(Init(a), b);
      LevBounds(a, Init(b));
      LevBounds(Init(a), Init(b));
    }
  }

  /** The inequality for one cell of each table from the inequalities for the cells before it; the
      primes say which of the three strings has lost its last element. */
  lemma TriangleStep(ac: nat, a'c: nat, ac': nat, a'c': nat, ab: nat, a'b: nat, ab': nat, a'b': nat,
                     bc: nat, b'c: nat, bc': nat, b'c': nat, costAC: nat, costAB: nat, costBC: nat)
    requires ac == Min3(a'c + 1, ac' + 1, a'c' + costAC)
    requires ab == Min3(a'b + 1, ab' + 1, a'b' + costAB)
    requires bc == Min3(b'c + 1, bc' + 1, b'c' + costBC)
    requires costAC <= costAB + costBC <= 2
    requires a'c <= a'b + bc && ac' <= ab + bc' && ac <= ab' + b'c
    requires ac' <= ab' + b'c' && a'c <= a'b' + b'c && a'c' <= a'b' + b'c'
    ensures ac <= ab + bc
  {
  }

  lemma LevUnfold<T>(a: seq<T>, b: seq<T>)
    requires a != [] && b != []
    ensures Lev(a, b) == Min3(Lev(Init(a), b) + 1, Lev(a, Init(b)) + 1, Lev(Init(a), Init(b)) + Cost(Last(a), Last(b)))
  {
    hide Min3;
    hide Cost;
    hide Init;
    hide Last;
  }

  lemma TriangleEdge<T>(a: seq<T>, b: seq<T>, c: seq<T>)
    requires a == [] || b == [] || c == []
    ensures Lev(a, c) <= Lev(a, b) + Lev(b, c)
  {
    LevBounds(a, b);
    LevBounds(b, c);
    LevBounds(a, c);
  }

  lemma {:induction false} LevTriangle<T>(a: seq<T>, b: seq<T>, c: seq<T>)
    ensures Lev(a, c) <= Lev(a, b) + Lev(b, c)
    decreases |a| + |b| + |c|
  {
    hide Lev;
    hide Min3;
    if a == [] || b == [] || c == [] {
      TriangleEdge(a, b, c);
    } else {
      var a', b', c' := Init(a), Init(b), Init(c);
      LevTriangle(a', b, c);
      LevTriangle(a, b, c');
      LevTriangle(a, b', c);
      LevTriangle(a, b', c');
      LevTriangle(a', b', c);
      LevTriangle(a', b', c');
      LevUnfold(a, b);
      LevUnfold(b, c);
      LevUnfold(a, c);
      TriangleStep(Lev(a, c), Lev(a', c), Lev(a, c'), Lev(a', c'), Lev(a, b), Lev(a', b), Lev(a, b'), Lev(a', b'),
                   Lev(b, c), Lev(b', c), Lev(b, c'), Lev(b', c'),
                   Cost(Last(a), Last(c)), Cost(Last(a), Last(b)), Cost(Last(b), Last(c)));
    }
  }

  // ---------------------------------------------------------------- shortest edit paths

  /** One edit: a segment of at most one element is replaced by a segment of at most one element,
      which covers insertion, deletion and substitution at any position. */
  ghost predicate OneEdit<T(!new)>(s: seq<T>, t: seq<T>) {
    exists p: seq<T>, x: seq<T>, y: seq<T>, q: seq<T> {:trigger p + x + q, p + y + q} ::
      |x| <= 1 && |y| <= 1 && s == p + x + q && t == p + y + q
  }

  /** A sequence of strings, each one edit away from the one before. */
  ghost predicate EditPath<T(!new)>(path: seq<seq<T>>) {
    |path| > 0 && forall i {:trigger path[i]} | 0 < i < |path| :: OneEdit(path[i - 1], path[i])
  }

  lemma {:induction false} LevCommonSuffix<T>(s: seq<T>, t: seq<T>, q: seq<T>)
    ensures Lev(s + q, t + q) <= Lev(s, t)
    decreases |q|
  {
    if q == [] {
      assert s + q == s && t + q == t;
    } else {
      LevCommonSuffix(s, t, Init(q));
      assert Init(s + q) == s + Init(q) && Init(t + q) == t + Init(q);
    }
  }

  lemma InitOfAppend<T>(p: seq<T>, x: seq<T>)
    requires |x| == 1
    ensures p + x != [] && Init(p + x) == p
  {
  }

  lemma LevShortEnds<T>(p: seq<T>, x: seq<T>, y: seq<T>)
    requires |x| <= 1 && |y| <= 1
    ensures Lev(p + x, p + y) <= 1
  {
    LevSelf(p);
    if x == [] && y == [] {
      assert p + x == p;
    } else if x == [] {
      assert p + x == p;
      InitOfAppend(p, y);
    } else if y == [] {
      assert p + y == p;
      InitOfAppend(p, x);
    } else {
      InitOfAppend(p, x);
      InitOfAppend(p, y);
    }
  }

  lemma LevOneEdit<T(!new)>(s: seq<T>, t: seq<T>)
    requires OneEdit(s, t)
    ensures Lev(s, t) <= 1
  {
    var p, x, y, q :| |x| <= 1 && |y| <= 1 && s == p + x + q && t == p + y + q;
    LevShortEnds(p, x, y);
    LevCommonSuffix(p + x, p + y, q);
  }

  /** No path of single edits is shorter than the distance. */
  lemma {:induction false} LevBelowEveryPath<T(!new)>(path: seq<seq<T>>)
    requires EditPath(path)
    ensures Lev(path[0], Last(path)) <= |path| - 1
    decreases |path|
  {
    if |path| == 1 {
      LevSelf(path[0]);
    } else {
      var front := Init(path);
      forall i | 0 < i < |front| ensures OneEdit(front[i - 1], front[i]) {
        assert OneEdit(path[i - 1], path[i]);
      }
      LevBelowEveryPath(front);
      assert OneEdit(path[|path| - 2], path[|path| - 1]);
      LevOneEdit(Last(front), Last(path));
      LevTriangle(path[0], Last(front), Last(path));
    }
  }

  function AppendAll<T>(path: seq<seq<T>>, x: T): (r: seq<seq<T>>)
    ensures |r| == |path| && forall i | 0 <= i < |path| :: r[i] == path[i] + [x]
  {
    seq(|path|, i requires 0 <= i < |path| => path[i] + [x])
  }

  lemma AppendAllIsPath<T(!new)>(path: seq<seq<T>>, z: T)
    requires EditPath(path)
    ensures EditPath(AppendAll(path, z))
  {
    var r := AppendAll(path, z);
    forall i | 0 < i < |r| ensures OneEdit(r[i - 1], r[i]) {
      assert OneEdit(path[i - 1], path[i]);
      var p, x, y, q :| |x| <= 1 && |y| <= 1 && path[i - 1] == p + x + q && path[i] == p + y + q;
      assert r[i - 1] == p + x + (q + [z]) && r[i] == p + y + (q + [z]);
    }
  }

  lemma ExtendPath<T(!new)>(path: seq<seq<T>>, t: seq<T>)
    requires EditPath(path) && OneEdit(Last(path), t)
    ensures EditPath(path + [t])
  {
    var r := path + [t];
    forall i | 0 < i < |r| ensures OneEdit(r[i - 1], r[i]) {
      if i < |path| {
        assert OneEdit(path[i - 1], path[i]);
      }
    }
  }

  lemma PrependPath<T(!new)>(s: seq<T>, path: seq<seq<T>>)
    requires EditPath(path) && OneEdit(s, path[0])
    ensures EditPath([s] + path)
  {
    var r := [s] + path;
    forall i | 0 < i < |r| ensures OneEdit(r[i - 1], r[i]) {
      if i > 1 {
        assert r[i - 1] == path[i - 2] && r[i] == path[i - 1];
        assert OneEdit(path[i - 2], path[i - 1]);
      }
    }
  }

  lemma AppendIsOneEdit<T(!new)>(s: seq<T>, x: T)
    ensures OneEdit(s, s + [x]) && OneEdit(s + [x], s)
  {
    assert s == s + [] + [] && s + [x] == s + [x] + [];
  }

  lemma SubstituteIsOneEdit<T(!new)>(s: seq<T>, x: T, y: T)
    ensures OneEdit(s + [x], s + [y])
  {
    assert s + [x] == s + [x] + [] && s + [y] == s + [y] + [];
  }

  ghost predicate PathBetween<T(!new)>(path: seq<seq<T>>, a: seq<T>, b: seq<T>, edits: nat) {
    EditPath(path) && path[0] == a && Last(path) == b && |path| - 1 == edits
  }

  lemma ExtendBetween<T(!new)>(path: seq<seq<T>>, a: seq<T>, b: seq<T>, c: seq<T>, n: nat)
    requires PathBetween(path, a, b, n) && OneEdit(b, c)
    ensures PathBetween(path + [c], a, c, n + 1)
  {
    ExtendPath(path, c);
  }

  lemma AppendAllBetween<T(!new)>(path: seq<seq<T>>, a: seq<T>, b: seq<T>, n: nat, x: T)
    requires PathBetween(path, a, b, n)
    ensures PathBetween(AppendAll(path, x), a + [x], b + [x], n)
  {
    AppendAllIsPath(path, x);
  }

  lemma PathThenAppend<T(!new)>(path: seq<seq<T>>, a: seq<T>, b: seq<T>, n: nat)
    requires b != [] && PathBetween(path, a, Init(b), n)
    ensures PathBetween(path + [b], a, b, n + 1)
  {
    AppendIsOneEdit(Init(b), Last(b));
    assert b == Init(b) + [Last(b)];
    ExtendBetween(path, a, Init(b), b, n);
  }

  lemma DropThenPath<T(!new)>(path: seq<seq<T>>, a: seq<T>, b: seq<T>, n: nat)
    requires a != [] && PathBetween(path, Init(a), b, n)
    ensures PathBetween([a] + path, a, b, n + 1)
  {
    AppendIsOneEdit(Init(a), Last(a));
    assert a == Init(a) + [Last(a)];
    PrependPath(a, path);
  }

  lemma PathThenSubstitute<T(!new)>(inner: seq<seq<T>>, a: seq<T>, b: seq<T>, n: nat) returns (path: seq<seq<T>>)
    requires a != [] && b != [] && PathBetween(inner, Init(a), Init(b), n)
    ensures PathBetween(path, a, b, n + Cost(Last(a), Last(b)))
  {
    var x, y := Last(a), Last(b);
    AppendAllBetween(inner, Init(a), Init(b), n, x);
    path := AppendAll(inner, x);
    InitLast(a);
    InitLast(b);
    if x != y {
      SubstituteIsOneEdit(Init(b), x, y);
      ExtendBetween(path, a, Init(b) + [x], b, n);
      path := path + [b];
    }
  }

  lemma InitLast<T>(s: seq<T>)
    requires s != []
    ensures s == Init(s) + [Last(s)]
  {
  }

  /** Some path of single edits has exactly the distance as its length. */
  lemma {:induction false} LevPathExists<T(!new)>(a: seq<T>, b: seq<T>) returns (path: seq<seq<T>>)
    ensures PathBetween(path, a, b, Lev(a, b))
    decreases |a| + |b|
  {
    if a == [] && b == [] {
      path := [a];
    } else if a == [] || (b != [] && Lev(a, b) == Lev(a, Init(b)) + 1) {
      var inner := LevPathExists(a, Init(b));
      PathThenAppend(inner, a, b, Lev(a, Init(b)));
      path := inner + [b];
    } else if b == [] || Lev(a, b) == Lev(Init(a), b) + 1 {
      var inner := LevPathExists(Init(a), b);
      DropThenPath(inner, a, b, Lev(Init(a), b));
      path := [a] + inner;
    } else {
      var inner := LevPathExists(Init(a), Init(b));
      path := PathThenSubstitute(inner, a, b, Lev(Init(a), Init(b)));
    }
  }

  /** The distance is the length of a shortest sequence of single edits. */
  lemma LevIsShortestEditPath<T(!new)>(a: seq<T>, b: seq<T>)
    ensures exists path: seq<seq<T>> :: PathBetween(path, a, b, Lev(a, b))
    ensures forall path: seq<seq<T>>, n: nat :: PathBetween(path, a, b, n) ==> n >= Lev(a, b)
  {
    var _ := LevPathExists(a, b);
    forall path: seq<seq<T>>, n: nat | PathBetween(path, a, b, n) ensures n >= Lev(a, b) {
      LevBelowEveryPath(path);
    }
  }

  // ---------------------------------------------------------------- suggestions

  /** Keep the ASCII letters, in lower case. */
  function FlagShape(s: string): string {
    if s == [] then []
    else (if 'a' <= LowerChar(s[0]) <= 'z' then [LowerChar(s[0])] else []) + FlagShape(s[1..])
  }

  /** The letters of a text in their order, each by its place in the alphabet, and nothing else. */
  lemma ShapeMeans(s: string, t: string, c: char)
    ensures FlagShape("") == "" && FlagShape(s + t) == FlagShape(s) + FlagShape(t)
    ensures var upper, lower := "ABCDEFGHIJKLMNOPQRSTUVWXYZ", "abcdefghijklmnopqrstuvwxyz";
            && (forall i | 0 <= i < 26 :: FlagShape([upper[i]]) == [lower[i]] == FlagShape([lower[i]]))
            && (c !in upper && c !in lower ==> FlagShape([c]) == "")
  {
    ShapeAppend(s, t);
    assert FlagShape("") == "";
    var upper, lower := "ABCDEFGHIJKLMNOPQRSTUVWXYZ", "abcdefghijklmnopqrstuvwxyz";
    forall i | 0 <= i < 26 ensures FlagShape([upper[i]]) == [lower[i]] == FlagShape([lower[i]]) {
      LetterShape(i);
    }
    if c !in upper && c !in lower { OtherShape(c); }
    hide FlagShape;
  }

  lemma LetterShape(i: nat)
    requires i < 26
    ensures var u, l := "ABCDEFGHIJKLMNOPQRSTUVWXYZ"[i], "abcdefghijklmnopqrstuvwxyz"[i];
            FlagShape([u]) == [l] == FlagShape([l])
  {
    var u, l := "ABCDEFGHIJKLMNOPQRSTUVWXYZ"[i], "abcdefghijklmnopqrstuvwxyz"[i];
    assert u as int == 65 + i && l as int == 97 + i;
    OneLetter(u);
    OneLetter(l);
    hide FlagShape;
  }

  lemma OneLetter(c: char)
    ensures FlagShape([c]) == if 'a' <= LowerChar(c) <= 'z' then [LowerChar(c)] else ""
  {
    assert [c][1..] == "";
  }

  lemma OtherShape(c: char)
    requires c !in "ABCDEFGHIJKLMNOPQRSTUVWXYZ" && c !in "abcdefghijklmnopqrstuvwxyz"
    ensures FlagShape([c]) == ""
  {
    SmallLetters(c);
    CapitalLetters(c);
    OneLetter(c);
    hide FlagShape;
  }

  lemma {:induction false} ShapeAppend(s: string, t: string)
    ensures FlagShape(s + t) == FlagShape(s) + FlagShape(t)
  {
    if s == "" {
      assert s + t == t;
    } else {
      assert (s + t)[1..] == s[1..] + t;
      ShapeAppend(s[1..], t);
    }
  }

  /** How far a flag is from the token once both are reduced to their shapes. */
  ghost function Gap(token: string, flag: string): nat {
    Lev(FlagShape(token), FlagShape(flag))
  }

  /** Index k holds the first flag whose shape is nearest to the token's shape. */
  ghost predicate FirstNearest(token: string, allowed: seq<string>, k: int) {
    && 0 <= k < |allowed|
    && (forall m | 0 <= m < |allowed| :: Gap(token, allowed[k]) <= Gap(token, allowed[m]))
    && (forall m | 0 <= m < k :: Gap(token, allowed[k]) < Gap(token, allowed[m]))
  }

  /** The suggestion for an unknown token: the first flag at least distance when that distance is
      within the bound, and no suggestion exactly when every flag is further away. */
  method SuggestFlag(token: string, allowed: seq<string>, maxDistance: nat) returns (hint: Option<string>)
    ensures hint.None? <==> forall m | 0 <= m < |allowed| :: Gap(token, allowed[m]) > maxDistance
    ensures hint.Some? ==> exists k :: FirstNearest(token, allowed, k) && hint.value == allowed[k]
  {
    var t := FlagShape(token);
    var best := 0;
    var bestD: Option<nat> := None;
    for i := 0 to |allowed|
      invariant bestD.None? <==> i == 0
      invariant bestD.Some? ==> FirstNearest(token, allowed[..i], best) && bestD.value == Gap(token, allowed[best])
    {
      var d := Distance(t, FlagShape(allowed[i]));
      assert d == Gap(token, allowed[i]);
      assert allowed[..i + 1] == allowed[..i] + [allowed[i]];
      if bestD.None? || d < bestD.value {
        bestD := Some(d);
        best := i;
      }
    }
    assert allowed[..|allowed|] == allowed;
    if bestD.Some? && bestD.value <= maxDistance {
      hint := Some(allowed[best]);
    } else {
      hint := None;
    }
  }

  /** A token that has exactly the shape of an allowed flag is answered with a flag of that shape,
      whatever the bound. */
  lemma ExactShapeIsSuggested(token: string, allowed: seq<string>, k: int, m: nat)
    requires FirstNearest(token, allowed, k)
    requires m < |allowed| && FlagShape(allowed[m]) == FlagShape(token)
    ensures FlagShape(allowed[k]) == FlagShape(token) && k <= m
  {
    LevSelf(FlagShape(token));
    assert Gap(token, allowed[m]) == 0;
    LevZeroOnlyOnEqual(FlagShape(token), FlagShape(allowed[k]));
  }
}
