/** The comment ratchet: a ledger of comment lines per file that may only go down. */
module CommentRatchet {
  import TextLines
  import opened Texts
  import opened Wrappers

  /** Comment and code lines of one file. */
  datatype Measure = Measure(comment: nat, code: nat)

  datatype FileMeasure = FileMeasure(name: string, m: Measure)

  /** An entry as found in a ledger; a number that is missing or not finite is None. */
  datatype Entry = NotObject | Entry(comment: Option<int>, code: Option<int>)

  datatype Listed = Listed(name: string, entry: Entry)

  /** The ledger file: absent, not JSON or not of the outer shape, or files and totals. */
  datatype Ledger = Missing | Broken | Ledger(files: seq<Listed>, comment: Option<int>, code: Option<int>)

  datatype State = Absent | Corrupt | Good

  // ---------------------------------------------------------------- measuring

  // Two slashes, a slash and a star, or a star, behind white space.
  predicate IsCommentLine(line: string) {
    var t := TrimStart(line);
    StartsWith(t, "//") || StartsWith(t, "/*") || StartsWith(t, "*")
  }

  predicate IsBlank(line: string) {
    TrimStart(line) == ""
  }

  /** White space, a comment mark, and whatever follows. */
  ghost predicate Marked(line: string, indent: string, mark: string, rest: string) {
    line == indent + mark + rest && mark in {"//", "/*", "*"} && forall i | 0 <= i < |indent| :: IsSpace(indent[i])
  }

  lemma CommentLineMeans(line: string)
    ensures IsCommentLine(line) <==> exists indent, mark, rest :: Marked(line, indent, mark, rest)
    ensures IsBlank(line) <==> forall i | 0 <= i < |line| :: IsSpace(line[i])
  {
    var indent := TrimStartOff(line);
    TrimStartHead(line);
    if IsCommentLine(line) { CommentIsMarked(line); }
    forall indent, mark, rest | Marked(line, indent, mark, rest) ensures IsCommentLine(line) {
      MarkedIsComment(line, indent, mark, rest);
    }
    assert TrimStart(line) != "" ==> TrimStart(line)[0] == line[|indent|];
    hide IsCommentLine;
    hide IsSpace;
    hide TrimStart;
  }

  lemma CommentIsMarked(line: string)
    requires IsCommentLine(line)
    ensures exists indent, mark, rest :: Marked(line, indent, mark, rest)
  {
    var t := TrimStart(line);
    var indent := TrimStartOff(line);
    hide IsSpace;
    hide TrimStart;
    var mark := if StartsWith(t, "//") then "//" else if StartsWith(t, "/*") then "/*" else "*";
    assert t == mark + t[|mark|..];
    assert indent + t == indent + mark + t[|mark|..];
    assert Marked(line, indent, mark, t[|mark|..]);
  }

  lemma MarkedIsComment(line: string, indent: string, mark: string, rest: string)
    requires Marked(line, indent, mark, rest)
    ensures IsCommentLine(line)
  {
    assert !IsSpace('/') && !IsSpace('*');
    hide IsSpace;
    assert line == indent + (mark + rest) && (mark + rest)[..|mark|] == mark;
    TrimStartOf(indent, mark + rest);
    hide TrimStart;
  }

  function CountLines(lines: seq<string>, p: string -> bool): nat {
    if lines == [] then 0 else CountLines(lines[..|lines| - 1], p) + if p(lines[|lines| - 1]) then 1 else 0
  }

  method MeasureText(text: string) returns (m: Measure)
    ensures m.comment == CountLines(TextLines.Lines(text), l => !IsBlank(l) && IsCommentLine(l))
    ensures m.comment + m.code == CountLines(TextLines.Lines(text), l => !IsBlank(l))
  {
    hide IsBlank;
    hide IsCommentLine;
    var lines := TextLines.Lines(text);
    var comment, code := 0, 0;
    assert lines[..0] == [];
    ghost var commented: string -> bool := l => !IsBlank(l) && IsCommentLine(l);
    ghost var filled: string -> bool := l => !IsBlank(l);
    for i := 0 to |lines|
      invariant comment == CountLines(lines[..i], commented) && comment + code == CountLines(lines[..i], filled)
    {
      assert lines[..i + 1][..i] == lines[..i];
      if !IsBlank(lines[i]) {
        if IsCommentLine(lines[i]) { comment := comment + 1; } else { code := code + 1; }
      }
    }
    assert lines[..|lines|] == lines;
    m := Measure(comment, code);
  }

  // ---------------------------------------------------------------- reading a ledger

  predicate HasComment(e: Entry) {
    e.Entry? && e.comment.Some?
  }

  predicate HasCode(e: Entry) {
    e.Entry? && e.code.Some?
  }

  function SumComment(files: seq<Listed>): int
    requires forall i | 0 <= i < |files| :: HasComment(files[i].entry)
  {
    if files == [] then 0
    else
      assert HasComment(files[0].entry);
      files[0].entry.comment.value + SumComment(files[1..])
  }

  function SumCode(files: seq<Listed>): int
    requires forall i | 0 <= i < |files| :: HasCode(files[i].entry)
  {
    if files == [] then 0
    else
      assert HasCode(files[0].entry);
      files[0].entry.code.value + SumCode(files[1..])
  }

  /** Every entry has a comment count, and the totals there are add up. A ledger without a code total may
      lack code counts. */
  predicate SelfConsistent(files: seq<Listed>, comment: int, code: Option<int>) {
    && (forall i | 0 <= i < |files| :: HasComment(files[i].entry))
    && SumComment(files) == comment
    && (code.Some? ==> (forall i | 0 <= i < |files| :: HasCode(files[i].entry)) && SumCode(files) == code.value)
  }

  function ReadBaseline(l: Ledger): State {
    match l
    case Missing => Absent
    case Broken => Corrupt
    case Ledger(files, comment, code) => if comment.Some? && SelfConsistent(files, comment.value, code) then Good
      else Corrupt
  }

  /** A ledger is good when every file has a comment count and their sum is the total, and if there is a code
      total the same holds of the code counts. */
  lemma GoodMeans(l: Ledger)
    ensures ReadBaseline(l).Good? <==>
            && l.Ledger? && l.comment.Some? && (forall f | f in l.files :: f.entry.Entry? && f.entry.comment.Some?)
            && SumComment(l.files) == l.comment.value
            && (l.code.Some? ==>
                  (forall f | f in l.files :: f.entry.code.Some?) && SumCode(l.files) == l.code.value)
    ensures ReadBaseline(l).Absent? <==> l.Missing?
  {
    if l.Ledger? {
      assert forall i | 0 <= i < |l.files| :: l.files[i] in l.files;
    }
  }

  // ---------------------------------------------------------------- comparing

  /** More than three tenths of the lines are comments: too many for a new file. */
  predicate OverCap(m: Measure) {
    10 * m.comment > 3 * (m.comment + m.code)
  }

  /** The share of comment lines is above 0.3; of no lines at all there is no share. */
  lemma OverCapMeans(m: Measure)
    ensures OverCap(m) <==> m.comment + m.code > 0 && m.comment as real / (m.comment + m.code) as real > 0.3
  {
    if m.comment + m.code > 0 {
      ShareAbove(m.comment as real, (m.comment + m.code) as real);
    }
  }

  lemma ShareAbove(x: real, y: real)
    requires y > 0.0
    ensures x / y > 0.3 <==> 10.0 * x > 3.0 * y
  {
    var share := x / y;
    assert share * y == x;
    if share > 0.3 { assert (share - 0.3) * y > 0.0; } else { assert (0.3 - share) * y >= 0.0; }
  }

  function Registered(files: seq<Listed>, name: string): Option<Entry> {
    if files == [] then None else if files[0].name == name then Some(files[0].entry) else Registered(files[1..], name)
  }

  predicate IsCurrent(current: seq<FileMeasure>, name: string) {
    exists i | 0 <= i < |current| :: current[i].name == name
  }

  function TotalComment(files: seq<FileMeasure>): nat {
    if files == [] then 0 else files[0].m.comment + TotalComment(files[1..])
  }

  function TotalCode(files: seq<FileMeasure>): nat {
    if files == [] then 0 else files[0].m.code + TotalCode(files[1..])
  }

  datatype Verdict = Verdict(regressions: seq<string>, overCap: seq<string>, stale: seq<string>, totalRegressed: bool)

  predicate VerdictOk(v: Verdict) {
    v.regressions == [] && v.overCap == [] && v.stale == [] && !v.totalRegressed
  }

  predicate Regressed(base: seq<Listed>, f: FileMeasure) {
    var e := Registered(base, f.name);
    e.Some? && HasComment(e.value) && f.m.comment > e.value.comment.value
  }

  predicate NewAndOverCap(base: seq<Listed>, f: FileMeasure) {
    Registered(base, f.name).None? && OverCap(f.m)
  }

  function NamesWhere(files: seq<FileMeasure>, p: FileMeasure -> bool): seq<string> {
    if files == [] then []
    else NamesWhere(files[..|files| - 1], p) + if p(files[|files| - 1]) then [files[|files| - 1].name] else []
  }

  function StaleNames(base: seq<Listed>, current: seq<FileMeasure>): seq<string> {
    if base == [] then []
    else StaleNames(base[..|base| - 1], current) + if IsCurrent(current, base[|base| - 1].name) then []
      else [base[|base| - 1].name]
  }

  function RegressedFrom(base: seq<Listed>): FileMeasure -> bool {
    f => Regressed(base, f)
  }

  function OverCapFrom(base: seq<Listed>): FileMeasure -> bool {
    f => NewAndOverCap(base, f)
  }

  /** The comparison, file by file; every list is complete and in order. */
  method Evaluate(base: seq<Listed>, baseTotal: int, current: seq<FileMeasure>) returns (v: Verdict)
    ensures v.regressions == NamesWhere(current, RegressedFrom(base))
            && v.overCap == NamesWhere(current, OverCapFrom(base))
    ensures v.stale == StaleNames(base, current) && v.totalRegressed == (TotalComment(current) > baseTotal)
  {
    hide Regressed;
    hide NewAndOverCap;
    var regressions: seq<string>, overCap: seq<string>, stale: seq<string> := [], [], [];
    assert current[..0] == [];
    for i := 0 to |current|
      invariant regressions == NamesWhere(current[..i], RegressedFrom(base))
                && overCap == NamesWhere(current[..i], OverCapFrom(base))
    {
      assert current[..i + 1][..i] == current[..i];
      RegressedCases(base, current[i]);
      var e := Registered(base, current[i].name);
      if e.None? {
        if OverCap(current[i].m) { overCap := overCap + [current[i].name]; }
      } else if HasComment(e.value) && current[i].m.comment > e.value.comment.value {
        regressions := regressions + [current[i].name];
      }
    }
    assert current[..|current|] == current;
    assert base[..0] == [];
    for i := 0 to |base|
      invariant stale == StaleNames(base[..i], current)
    {
      assert base[..i + 1][..i] == base[..i];
      if !IsCurrent(current, base[i].name) { stale := stale + [base[i].name]; }
    }
    assert base[..|base|] == base;
    v := Verdict(regressions, overCap, stale, TotalComment(current) > baseTotal);
  }

  lemma RegressedCases(base: seq<Listed>, f: FileMeasure)
    ensures Regressed(base, f) <==>
            Registered(base, f.name).Some? && HasComment(Registered(base, f.name).value)
              && f.m.comment > Registered(base, f.name).value.comment.value
    ensures NewAndOverCap(base, f) <==> Registered(base, f.name).None? && OverCap(f.m)
  {
  }

  /** What an accepted comparison means. */
  ghost predicate Within(base: seq<Listed>, baseTotal: int, current: seq<FileMeasure>) {
    && (forall i | 0 <= i < |current| :: !Regressed(base, current[i]) && !NewAndOverCap(base, current[i]))
    && (forall i | 0 <= i < |base| :: IsCurrent(current, base[i].name))
    && TotalComment(current) <= baseTotal
  }

  lemma {:induction false} NamesNone(files: seq<FileMeasure>, p: FileMeasure -> bool)
    ensures NamesWhere(files, p) == [] <==> forall i | 0 <= i < |files| :: !p(files[i])
  {
    var n := |files| - 1;
    if files != [] {
      var front := files[..n];
      NamesNone(front, p);
      assert forall i | 0 <= i < n :: files[i] == front[i];
      assert NamesWhere(files, p) == NamesWhere(front, p) + (if p(files[n]) then [files[n].name] else []);
      if p(files[n]) {
        assert |NamesWhere(files, p)| > 0;
      } else {
        assert forall i | 0 <= i < |files| :: i == n || p(files[i]) == p(front[i]);
        hide NamesWhere;
      }
    }
  }

  lemma {:induction false} StaleNone(base: seq<Listed>, current: seq<FileMeasure>)
    ensures StaleNames(base, current) == [] <==> forall i | 0 <= i < |base| :: IsCurrent(current, base[i].name)
  {
    var n := |base| - 1;
    if base != [] {
      StaleNone(base[..n], current);
      assert forall i | 0 <= i < n :: base[i] == base[..n][i];
    }
  }

  // ---------------------------------------------------------------- updating

  function Snapshot(files: seq<FileMeasure>): Ledger {
    Ledger(Entries(files), Some(TotalComment(files)), Some(TotalCode(files)))
  }

  function Entries(files: seq<FileMeasure>): (r: seq<Listed>)
    ensures |r| == |files|
    ensures forall i | 0 <= i < |files| ::
            r[i] == Listed(files[i].name, Entry(Some(files[i].m.comment), Some(files[i].m.code)))
  {
    seq(|files|, i requires 0 <= i < |files| => Listed(files[i].name,
                                                       Entry(Some(files[i].m.comment), Some(files[i].m.code))))
  }

  /** Files, none of which the ledger knows. */
  predicate NothingInCommon(base: seq<Listed>, files: seq<FileMeasure>) {
    files != [] && forall i | 0 <= i < |files| :: Registered(base, files[i].name).None?
  }

  /** A survey that an update of the ledger accepts. */
  ghost predicate Accepts(l: Ledger, files: seq<FileMeasure>) {
    match ReadBaseline(l)
    case Absent => true
    case Corrupt => false
    case Good => !NothingInCommon(l.files, files) && Within(l.files, l.comment.value, files)
  }

  class Repository {
    var ledger: Ledger

    /** Compare a survey with the ledger, as a check does and before anything is written. */
    method Compare(files: seq<FileMeasure>) returns (ok: bool)
      requires ReadBaseline(ledger).Good?
      ensures ok <==> Accepts(ledger, files)
    {
      hide Regressed;
      hide NewAndOverCap;
      hide SelfConsistent;
      if NothingInCommon(ledger.files, files) { return false; }
      var v := Evaluate(ledger.files, ledger.comment.value, files);
      NamesNone(files, RegressedFrom(ledger.files));
      NamesNone(files, OverCapFrom(ledger.files));
      StaleNone(ledger.files, files);
      assert forall i | 0 <= i < |files| :: RegressedFrom(ledger.files)(files[i]) == Regressed(ledger.files, files[i]);
      assert forall i | 0 <= i < |files| :: OverCapFrom(ledger.files)(files[i]) ==
                                            NewAndOverCap(ledger.files, files[i]);
      ok := VerdictOk(v);
    }

    /** Check only: without a readable ledger there is nothing to compare with. */
    method Check(files: seq<FileMeasure>) returns (ok: bool)
      ensures ok <==> ReadBaseline(ledger).Good? && Accepts(ledger, files)
    {
      if !ReadBaseline(ledger).Good? { return false; }
      ok := Compare(files);
    }

    /** Replace the ledger by the survey, or refuse and leave it. */
    method UpdateBaseline(files: seq<FileMeasure>) returns (ok: bool)
      modifies this
      ensures ok <==> Accepts(old(ledger), files)
      ensures ledger == if ok then Snapshot(files) else old(ledger)
    {
      var state := ReadBaseline(ledger);
      if state.Corrupt? { return false; }
      if state.Good? {
        ok := Compare(files);
        if !ok { return; }
      }
      ledger := Snapshot(files);
      ok := true;
    }

    /** Any number of updates, each with the survey of its day. */
    method UpdateAll(surveys: seq<seq<FileMeasure>>)
      requires ReadBaseline(ledger).Good?
      requires forall k | 0 <= k < |surveys| :: DistinctNames(surveys[k])
      modifies this
      ensures ReadBaseline(ledger).Good? && Tighter(old(ledger), ledger)
    {
      hide *;
      ghost var start := ledger;
      TighterSelf(start);
      for k := 0 to |surveys|
        invariant ReadBaseline(ledger).Good? && Tighter(start, ledger)
      {
        ghost var before := ledger;
        var ok := UpdateBaseline(surveys[k]);
        if ok {
          SnapshotReads(surveys[k]);
          UpdateTightens(before, surveys[k]);
          TighterTransitive(start, before, ledger);
        }
      }
    }
  }

  // ---------------------------------------------------------------- what a ledger keeps

  ghost predicate DistinctNames(files: seq<FileMeasure>) {
    forall i, j | 0 <= i < j < |files| :: files[i].name != files[j].name
  }

  /** Every file of the one is in the other with no more comment lines, and the total is no higher. */
  ghost predicate Tighter(a: Ledger, b: Ledger) {
    && a.Ledger? && b.Ledger? && a.comment.Some? && b.comment.Some? && b.comment.value <= a.comment.value
    && forall name | Registered(a.files, name).Some? ::
         && Registered(b.files, name).Some?
         && (HasComment(Registered(a.files, name).value) ==>
               HasComment(Registered(b.files, name).value)
               && Registered(b.files, name).value.comment.value <= Registered(a.files, name).value.comment.value)
  }

  lemma TighterSelf(a: Ledger)
    requires ReadBaseline(a).Good?
    ensures Tighter(a, a)
  {
    hide Registered;
  }

  lemma TighterTransitive(a: Ledger, b: Ledger, c: Ledger)
    requires Tighter(a, b) && Tighter(b, c) && ReadBaseline(b).Good?
    ensures Tighter(a, c)
  {
    hide Registered;
    hide SelfConsistent;
  }

  lemma {:induction false} Sums(files: seq<FileMeasure>)
    ensures SumComment(Entries(files)) == TotalComment(files) && SumCode(Entries(files)) == TotalCode(files)
  {
    if files != [] {
      Sums(files[1..]);
      assert Entries(files)[1..] == Entries(files[1..]);
    }
  }

  /** Every snapshot passes all checks a later reading makes. */
  lemma SnapshotReads(files: seq<FileMeasure>)
    ensures ReadBaseline(Snapshot(files)).Good?
  {
    Sums(files);
  }

  lemma {:induction false} RegisteredAt(files: seq<FileMeasure>, i: nat)
    requires DistinctNames(files) && i < |files|
    ensures Registered(Entries(files), files[i].name) == Some(Entry(Some(files[i].m.comment), Some(files[i].m.code)))
  {
    var es := Entries(files);
    if i > 0 {
      assert es[0].name == files[0].name != files[i].name;
      assert es[1..] == Entries(files[1..]);
      forall j, k | 0 <= j < k < |files[1..]| ensures files[1..][j].name != files[1..][k].name {
        assert files[1..][j] == files[j + 1] && files[1..][k] == files[k + 1];
      }
      RegisteredAt(files[1..], i - 1);
      assert files[1..][i - 1] == files[i];
    }
  }

  lemma {:induction false} RegisteredSomewhere(base: seq<Listed>, name: string) returns (i: nat)
    requires Registered(base, name).Some?
    ensures i < |base| && base[i].name == name && base[i].entry == Registered(base, name).value
  {
    if base[0].name == name {
      i := 0;
    } else {
      i := RegisteredSomewhere(base[1..], name);
      i := i + 1;
    }
  }

  /** An accepted update loses no file and raises no count. */
  lemma UpdateTightens(l: Ledger, files: seq<FileMeasure>)
    requires ReadBaseline(l).Good? && DistinctNames(files) && Accepts(l, files)
    ensures Tighter(l, Snapshot(files))
  {
    hide SelfConsistent;
    hide Registered;
    forall name | Registered(l.files, name).Some?
      ensures Registered(Entries(files), name).Some?
      ensures HasComment(Registered(l.files, name).value) ==>
                HasComment(Registered(Entries(files), name).value)
                && Registered(Entries(files), name).value.comment.value <= Registered(l.files, name).value.comment.value
    {
      var k := RegisteredSomewhere(l.files, name);
      assert IsCurrent(files, l.files[k].name);
      var i :| 0 <= i < |files| && files[i].name == name;
      RegisteredAt(files, i);
      assert !Regressed(l.files, files[i]);
    }
  }

  /** The survey a ledger was made from is accepted again. */
  lemma SnapshotAccepted(files: seq<FileMeasure>)
    requires DistinctNames(files)
    ensures Accepts(Snapshot(files), files)
  {
    SnapshotReads(files);
    hide ReadBaseline;
    hide Registered;
    forall i | 0 <= i < |files| ensures !Regressed(Entries(files), files[i]) && !NewAndOverCap(Entries(files), files[i])
    {
      RegisteredAt(files, i);
    }
    if files != [] { RegisteredAt(files, 0); }
    forall i | 0 <= i < |files| ensures IsCurrent(files, Entries(files)[i].name) {
      assert files[i].name == Entries(files)[i].name;
    }
  }
}
