/** Re-signing the audit HMACs under a new key, behind a write-ahead ledger that is only appended to. */
module HmacResign {
  import opened TextLines
  import opened Texts
  import opened Wrappers

  /** An audit record; its _id is its position. A missing or empty hmac counts as none. */
  datatype Doc = Doc(hash: Option<string>, hmac: Option<string>)

  datatype HmacState = AlreadySigned | NeverSigned | Clean | Suspect | Unverifiable

  datatype Counts = Counts(already: nat, never: nat, clean: nat, suspect: nat, unverifiable: nat)

  /** The keyed hash. */
  type Mac = (string, string) -> string

  const BATCH_SIZE: nat := 1000
  const SAMPLE_LIMIT: nat := 10

  // ---------------------------------------------------------------- classification

  predicate HasHmac(d: Doc) {
    d.hmac.Some? && d.hmac.value != ""
  }

  predicate SignedBy(mac: Mac, d: Doc, key: string) {
    d.hash.Some? && d.hmac == Some(mac(key, d.hash.value))
  }

  /** An empty current key is none. */
  function Classify(hasHmac: bool, matchesNewKey: bool, hasCurrentKey: bool, matchesCurrentKey: bool): HmacState {
    if matchesNewKey then AlreadySigned
    else if !hasHmac then NeverSigned
    else if !hasCurrentKey then Unverifiable
    else if matchesCurrentKey then Clean else Suspect
  }

  function StateOf(mac: Mac, d: Doc, newKey: string, currentKey: string): HmacState {
    Classify(HasHmac(d), SignedBy(mac, d, newKey), currentKey != "", currentKey != "" && SignedBy(mac, d, currentKey))
  }

  predicate Evidence(s: HmacState) {
    s.Suspect? || s.Unverifiable?
  }

  /** What each state says of an audited record. */
  ghost predicate InState(mac: Mac, d: Doc, newKey: string, currentKey: string, s: HmacState)
    requires d.hash.Some?
  {
    var signed, never := d.hmac == Some(mac(newKey, d.hash.value)), d.hmac == None || d.hmac == Some("");
    match s
    case AlreadySigned => signed
    case NeverSigned => !signed && never
    case Clean => !signed && !never && currentKey != "" && d.hmac == Some(mac(currentKey, d.hash.value))
    case Suspect => !signed && !never && currentKey != "" && d.hmac != Some(mac(currentKey, d.hash.value))
    case Unverifiable => !signed && !never && currentKey == ""
  }

  /** A record whose HMAC is neither the new key's nor known to be the current key's: signing it anew would
      hide that it was changed. */
  ghost predicate IsEvidence(mac: Mac, d: Doc, newKey: string, currentKey: string) {
    && d.hash.Some? && d.hmac.Some? && d.hmac.value != "" && d.hmac.value != mac(newKey, d.hash.value)
    && (currentKey == "" || d.hmac.value != mac(currentKey, d.hash.value))
  }

  /** A record that can be signed anew without an override, and nothing is lost. */
  ghost predicate Harmless(mac: Mac, d: Doc, currentKey: string) {
    d.hmac == None || d.hmac == Some("") || (d.hash.Some? && d.hmac == Some(mac(currentKey, d.hash.value)))
  }

  lemma StateMeans(mac: Mac, d: Doc, newKey: string, currentKey: string)
    requires d.hash.Some?
    ensures forall s :: StateOf(mac, d, newKey, currentKey) == s <==> InState(mac, d, newKey, currentKey, s)
    ensures Evidence(StateOf(mac, d, newKey, currentKey)) <==> IsEvidence(mac, d, newKey, currentKey)
  {
  }

  function Add(c: Counts, s: HmacState): Counts {
    match s
    case AlreadySigned => c.(already := c.already + 1)
    case NeverSigned => c.(never := c.never + 1)
    case Clean => c.(clean := c.clean + 1)
    case Suspect => c.(suspect := c.suspect + 1)
    case Unverifiable => c.(unverifiable := c.unverifiable + 1)
  }

  /** The records that do not yet carry the new key's HMAC. */
  function ToSign(c: Counts): nat {
    c.never + c.clean + c.suspect + c.unverifiable
  }

  /** How many audited records are in a state. */
  ghost function CountIn(mac: Mac, docs: seq<Doc>, newKey: string, currentKey: string, s: HmacState): nat {
    if docs == [] then 0
    else
      var d := docs[|docs| - 1];
      CountIn(mac, docs[..|docs| - 1], newKey, currentKey, s) +
      if d.hash.Some? && InState(mac, d, newKey, currentKey, s) then 1 else 0
  }

  /** How many audited records do not carry the key's HMAC. */
  function Unsigned(mac: Mac, docs: seq<Doc>, key: string): nat {
    if docs == [] then 0
    else
      var d := docs[|docs| - 1];
      Unsigned(mac, docs[..|docs| - 1], key) + if d.hash.Some? && !SignedBy(mac, d, key) then 1 else 0
  }

  function Audited(docs: seq<Doc>): nat {
    if docs == [] then 0 else Audited(docs[..|docs| - 1]) + if docs[|docs| - 1].hash.Some? then 1 else 0
  }

  function CountOf(c: Counts, s: HmacState): nat {
    match s
    case AlreadySigned => c.already
    case NeverSigned => c.never
    case Clean => c.clean
    case Suspect => c.suspect
    case Unverifiable => c.unverifiable
  }

  /** The records that are evidence, by _id. */
  ghost function Evident(mac: Mac, docs: seq<Doc>, newKey: string, currentKey: string): seq<nat> {
    if docs == [] then []
    else
      var k := |docs| - 1;
      Evident(mac, docs[..k], newKey, currentKey) +
      if IsEvidence(mac, docs[k], newKey, currentKey) then [k] else []
  }

  ghost predicate Increasing(xs: seq<nat>) {
    forall i, j | 0 <= i < j < |xs| :: xs[i] < xs[j]
  }

  /** All of them, in order. */
  lemma {:induction false} EvidentMeans(mac: Mac, docs: seq<Doc>, newKey: string, currentKey: string)
    ensures forall k: nat :: k in Evident(mac, docs, newKey, currentKey) <==>
              k < |docs| && IsEvidence(mac, docs[k], newKey, currentKey)
    ensures Increasing(Evident(mac, docs, newKey, currentKey))
  {
    hide IsEvidence;
    if docs != [] {
      var init := docs[..|docs| - 1];
      EvidentMeans(mac, init, newKey, currentKey);
      var before := Evident(mac, init, newKey, currentKey);
      forall i | 0 <= i < |before| ensures before[i] < |docs| - 1 {
        assert before[i] in before;
      }
      var e := Evident(mac, docs, newKey, currentKey);
      assert e == before || e == before + [|docs| - 1];
      forall i, j | 0 <= i < j < |e| ensures e[i] < e[j] {
        assert e[i] == before[i] && (j < |before| ==> e[j] == before[j]);
      }
    }
  }

  ghost predicate Tallies(c: Counts, mac: Mac, docs: seq<Doc>, newKey: string, currentKey: string) {
    forall s :: CountOf(c, s) == CountIn(mac, docs, newKey, currentKey, s)
  }

  lemma TallyNext(c: Counts, mac: Mac, docs: seq<Doc>, k: nat, newKey: string, currentKey: string)
    requires k < |docs| && Tallies(c, mac, docs[..k], newKey, currentKey)
    ensures docs[k].hash.Some? ==> Tallies(Add(c, StateOf(mac, docs[k], newKey, currentKey)), mac, docs[..k + 1],
                                           newKey, currentKey)
    ensures docs[k].hash.None? ==> Tallies(c, mac, docs[..k + 1], newKey, currentKey)
  {
    hide StateOf;
    hide InState;
    assert docs[..k + 1][..k] == docs[..k];
    var st := StateOf(mac, docs[k], newKey, currentKey);
    if docs[k].hash.Some? { StateMeans(mac, docs[k], newKey, currentKey); }
    forall s
      ensures docs[k].hash.Some? ==> CountOf(Add(c, st), s) == CountIn(mac, docs[..k + 1], newKey, currentKey, s)
      ensures docs[k].hash.None? ==> CountOf(c, s) == CountIn(mac, docs[..k + 1], newKey, currentKey, s)
    {
      assert CountOf(c, s) == CountIn(mac, docs[..k], newKey, currentKey, s);
    }
  }

  /** The first pass: count and sample, write nothing. Every class is counted exactly, and the samples are
      the first records that are evidence. */
  method TallyHmacStates(mac: Mac, docs: seq<Doc>, newKey: string, currentKey: string)
    returns (counts: Counts, samples: seq<nat>)
    ensures Tallies(counts, mac, docs, newKey, currentKey)
    ensures samples <= Evident(mac, docs, newKey, currentKey)
    ensures |samples| == 10 || (|samples| < 10 && samples == Evident(mac, docs, newKey, currentKey))
  {
    hide StateOf;
    hide InState;
    hide IsEvidence;
    hide Tallies;
    counts, samples := Counts(0, 0, 0, 0, 0), [];
    assert docs[..0] == [];
    TallyNone(mac, newKey, currentKey);
    for k := 0 to |docs|
      invariant Tallies(counts, mac, docs[..k], newKey, currentKey)
      invariant samples <= Evident(mac, docs[..k], newKey, currentKey)
      invariant |samples| == SAMPLE_LIMIT || (|samples| < SAMPLE_LIMIT
                                              && samples == Evident(mac, docs[..k], newKey, currentKey))
    {
      assert docs[..k + 1][..k] == docs[..k];
      TallyNext(counts, mac, docs, k, newKey, currentKey);
      NoHashNoEvidence(mac, docs[k], newKey, currentKey);
      if docs[k].hash.Some? {
        StateMeans(mac, docs[k], newKey, currentKey);
        var state := StateOf(mac, docs[k], newKey, currentKey);
        counts := Add(counts, state);
        if Evidence(state) && |samples| < SAMPLE_LIMIT {
          samples := samples + [k];
        }
      }
    }
    assert docs[..|docs|] == docs;
  }

  lemma NoHashNoEvidence(mac: Mac, d: Doc, newKey: string, currentKey: string)
    ensures IsEvidence(mac, d, newKey, currentKey) ==> d.hash.Some?
  {
  }

  lemma TallyNone(mac: Mac, newKey: string, currentKey: string)
    ensures Tallies(Counts(0, 0, 0, 0, 0), mac, [], newKey, currentKey)
  {
  }

  lemma {:induction false} StatesSplit(mac: Mac, docs: seq<Doc>, newKey: string, currentKey: string)
    ensures Unsigned(mac, docs, newKey) ==
            CountIn(mac, docs, newKey, currentKey, NeverSigned) + CountIn(mac, docs, newKey, currentKey, Clean) +
            CountIn(mac, docs, newKey, currentKey, Suspect) + CountIn(mac, docs, newKey, currentKey, Unverifiable)
    ensures Audited(docs) == Unsigned(mac, docs, newKey) + CountIn(mac, docs, newKey, currentKey, AlreadySigned)
  {
    if docs != [] {
      StatesSplit(mac, docs[..|docs| - 1], newKey, currentKey);
    }
  }

  /** The four classes that are not skipped are together the records the new key has not signed, and
      with the fifth they are all there are. */
  lemma TallyMeans(counts: Counts, mac: Mac, docs: seq<Doc>, newKey: string, currentKey: string)
    requires Tallies(counts, mac, docs, newKey, currentKey)
    ensures ToSign(counts) == Unsigned(mac, docs, newKey)
    ensures ToSign(counts) + counts.already == Audited(docs)
  {
    StatesSplit(mac, docs, newKey, currentKey);
    assert CountOf(counts, NeverSigned) == counts.never && CountOf(counts, Clean) == counts.clean;
    assert CountOf(counts, Suspect) == counts.suspect && CountOf(counts, Unverifiable) == counts.unverifiable;
    assert CountOf(counts, AlreadySigned) == counts.already;
  }

  // ---------------------------------------------------------------- the ledger file

  /** What JSON.parse accepts, and how a ledger entry is written. */
  datatype Format = Format(parses: string -> bool, render: Entry -> string)

  datatype Entry = Entry(operation: nat, completed: bool, overridden: bool, ticket: string, counts: Counts,
                         resigned: Option<nat>)

  /** An entry is one line, not blank, and valid; a proper beginning of it is not valid. */
  ghost predicate LineFormat(f: Format) {
    forall e :: LF !in f.render(e) && !Blank(f.render(e)) && f.parses(f.render(e))
             && forall k | 0 <= k < |f.render(e)| :: !f.parses(f.render(e)[..k])
  }

  /** The same entry but for white space around the ticket, which is trimmed before it is written. */
  predicate SameEntry(e: Entry, g: Entry) {
    e.(ticket := Trim(e.ticket)) == g.(ticket := Trim(g.ticket))
  }

  /** And equal lines come from the same entry. */
  ghost predicate GoodFormat(f: Format) {
    LineFormat(f) && forall e, g :: f.render(e) == f.render(g) ==> SameEntry(e, g)
  }

  lemma GoodIsLine(f: Format)
    requires GoodFormat(f)
    ensures LineFormat(f)
  {
  }

  lemma SameEntryMeans(e: Entry, g: Entry)
    requires SameEntry(e, g)
    ensures e.operation == g.operation && e.completed == g.completed && e.overridden == g.overridden
    ensures e.counts == g.counts && e.resigned == g.resigned && Trim(e.ticket) == Trim(g.ticket)
  {
    hide Trim;
  }

  predicate Blank(l: string) {
    forall i | 0 <= i < |l| :: IsSpace(l[i])
  }

  /** The lines that are not blank. */
  function Entries(ps: seq<string>): seq<string> {
    if ps == [] then [] else Entries(ps[..|ps| - 1]) + if Blank(ps[|ps| - 1]) then [] else [ps[|ps| - 1]]
  }

  function LedgerLines(text: string): seq<string> {
    Entries(Split(text, LF))
  }

  /** An empty ledger, or one whose last line is valid, can be appended to. */
  predicate Appendable(f: Format, text: string) {
    text == "" || (LedgerLines(text) != [] && f.parses(LedgerLines(text)[|LedgerLines(text)| - 1]))
  }

  function Separator(text: string): string {
    if text == "" || text[|text| - 1] == LF then "" else [LF]
  }

  /** The last line that is not blank is valid. */
  ghost predicate EndsValid(f: Format, lines: seq<string>) {
    exists k: nat :: LastSolid(lines, k) && f.parses(lines[k])
  }

  /** That, or no text at all, is what can be appended to. */
  lemma AppendableMeans(f: Format, text: string)
    ensures Appendable(f, text) <==> text == "" || EndsValid(f, Split(text, '\n'))
  {
    var ps := Split(text, '\n');
    LastEntry(ps);
    hide Entries;
    hide Split;
    hide Blank;
    var es := Entries(ps);
    assert LedgerLines(text) == es;
    if es != [] {
      var k: nat :| LastSolid(ps, k);
      assert es[|es| - 1] == ps[k];
      if EndsValid(f, ps) {
        var j: nat :| LastSolid(ps, j) && f.parses(ps[j]);
        assert es[|es| - 1] == ps[j];
      }
    }
  }

  ghost predicate LastSolid(ps: seq<string>, k: nat) {
    k < |ps| && !Blank(ps[k]) && forall j | k < j < |ps| :: Blank(ps[j])
  }

  lemma {:induction false} LastEntry(ps: seq<string>)
    ensures Entries(ps) == [] <==> forall i | 0 <= i < |ps| :: Blank(ps[i])
    ensures forall k: nat | LastSolid(ps, k) :: Entries(ps) != [] && Entries(ps)[|Entries(ps)| - 1] == ps[k]
    ensures Entries(ps) != [] ==> exists k: nat :: LastSolid(ps, k)
  {
    hide Blank;
    if ps != [] {
      var last := |ps| - 1;
      LastEntry(ps[..last]);
      if Blank(ps[last]) {
        forall k: nat ensures LastSolid(ps, k) <==> LastSolid(ps[..last], k) {
          if LastSolid(ps[..last], k) { assert forall j | k < j < last :: ps[..last][j] == ps[j]; }
        }
        assert forall i | 0 <= i < last :: ps[..last][i] == ps[i];
      } else {
        assert LastSolid(ps, last) && forall k: nat | LastSolid(ps, k) :: k == last;
      }
    }
  }

  /** A ticket must be given, and must not look like a flag, to override. */
  predicate TicketMissing(e: Entry) {
    e.overridden && (Trim(e.ticket) == "" || Trim(e.ticket)[0] == '-')
  }

  /** Behind white space there is nothing, or a dash. */
  lemma TicketMeans(e: Entry)
    ensures TicketMissing(e) <==>
            e.overridden && exists a, rest ::
              e.ticket == a + rest && (forall c | c in a :: IsSpace(c)) && (rest == "" || rest[0] == '-')
  {
    var t := TrimStart(e.ticket);
    var a := TrimStartOff(e.ticket);
    TrimStartHead(e.ticket);
    TrimEndLast(t);
    assert !IsSpace('-');
    forall b, rest | e.ticket == b + rest && (forall c | c in b :: IsSpace(c)) && (rest == "" || rest[0] == '-')
      ensures t == rest
    {
      TrimStartOf(b, rest);
    }
    hide IsSpace;
    assert e.ticket == a + t;
  }

  datatype Appended = Written | Refused | Cut

  // ---------------------------------------------------------------- a format that trims

  /** A number in strokes, and numbers one behind the other. */
  function Strokes(n: nat): string {
    if n == 0 then "," else "1" + Strokes(n - 1)
  }

  function Code(xs: seq<nat>): string {
    if xs == [] then "" else Strokes(xs[0]) + Code(xs[1..])
  }

  function Flag(b: bool): nat {
    if b then 1 else 0
  }

  function Numbers(e: Entry): seq<nat> {
    var t := Trim(e.ticket);
    [e.operation, Flag(e.completed), Flag(e.overridden), e.counts.already, e.counts.never, e.counts.clean,
     e.counts.suspect, e.counts.unverifiable, if e.resigned.Some? then e.resigned.value + 1 else 0] +
    seq(|t|, i requires 0 <= i < |t| => t[i] as int)
  }

  /** Valid lines end in the only closing brace. */
  predicate ClosesOnce(s: string) {
    s != "" && s[|s| - 1] == '}' && '}' !in s[..|s| - 1]
  }

  function StrokeFormat(): Format {
    Format(ClosesOnce, e => ['{'] + (Code(Numbers(e)) + ['}']))
  }

  lemma {:induction false} StrokesUnique(m: nat, n: nat, r: string, s: string)
    requires Strokes(m) + r == Strokes(n) + s
    ensures m == n && r == s
  {
    var a, b := Strokes(m) + r, Strokes(n) + s;
    assert a[0] == (if m == 0 then ',' else '1') && b[0] == (if n == 0 then ',' else '1');
    if m == 0 {
      assert a[1..] == r && b[1..] == s;
    } else {
      assert a[1..] == Strokes(m - 1) + r && b[1..] == Strokes(n - 1) + s;
      StrokesUnique(m - 1, n - 1, r, s);
    }
  }

  lemma StrokesStart(n: nat, r: string)
    ensures Strokes(n) + r != ""
  {
  }

  lemma {:induction false} CodeUnique(xs: seq<nat>, ys: seq<nat>)
    requires Code(xs) == Code(ys)
    ensures xs == ys
    decreases |xs|
  {
    if xs != [] { StrokesStart(xs[0], Code(xs[1..])); }
    if ys != [] { StrokesStart(ys[0], Code(ys[1..])); }
    if xs != [] && ys != [] {
      StrokesUnique(xs[0], ys[0], Code(xs[1..]), Code(ys[1..]));
      CodeUnique(xs[1..], ys[1..]);
      assert xs == [xs[0]] + xs[1..] && ys == [ys[0]] + ys[1..];
    }
  }

  lemma {:induction false} StrokesPlain(n: nat)
    ensures '}' !in Strokes(n) && LF !in Strokes(n)
  {
    if n > 0 { StrokesPlain(n - 1); }
  }

  lemma {:induction false} CodePlain(xs: seq<nat>)
    ensures '}' !in Code(xs) && LF !in Code(xs)
  {
    if xs != [] {
      StrokesPlain(xs[0]);
      CodePlain(xs[1..]);
    }
  }

  lemma NumbersUnique(e: Entry, g: Entry)
    requires Numbers(e) == Numbers(g)
    ensures SameEntry(e, g)
  {
    hide Trim;
    var x, y, t, u := Numbers(e), Numbers(g), Trim(e.ticket), Trim(g.ticket);
    assert x[0] == y[0] && x[1] == y[1] && x[2] == y[2] && x[3] == y[3] && x[4] == y[4];
    assert x[5] == y[5] && x[6] == y[6] && x[7] == y[7] && x[8] == y[8];
    forall i | 0 <= i < |t| ensures t[i] == u[i] {
      assert x[9 + i] == t[i] as int && y[9 + i] == u[i] as int;
    }
    assert t == u;
  }

  lemma StrokeLine(e: Entry)
    ensures var l := StrokeFormat().render(e);
            && LF !in l && !Blank(l) && ClosesOnce(l) && forall k | 0 <= k < |l| :: !ClosesOnce(l[..k])
  {
    var c := Code(Numbers(e));
    CodePlain(Numbers(e));
    hide Code;
    hide Numbers;
    var l := ['{'] + (c + ['}']);
    assert l[0] == '{' && !IsSpace(l[0]);
    assert l[..|l| - 1] == ['{'] + c;
    forall k | 0 < k < |l| ensures l[..k][k - 1] != '}' {
      assert l[k - 1] == (['{'] + c)[k - 1];
    }
  }

  /** A format that trims the ticket meets what is asked of formats. */
  lemma StrokesAreGood()
    ensures GoodFormat(StrokeFormat())
    ensures forall e :: StrokeFormat().render(e) == StrokeFormat().render(e.(ticket := Trim(e.ticket)))
  {
    var f := StrokeFormat();
    hide Code;
    hide Numbers;
    hide Trim;
    hide SameEntry;
    forall e ensures LF !in f.render(e) && !Blank(f.render(e)) && f.parses(f.render(e)) {
      StrokeLine(e);
    }
    forall e, k | 0 <= k < |f.render(e)| ensures !f.parses(f.render(e)[..k]) {
      StrokeLine(e);
    }
    forall e, g | f.render(e) == f.render(g) ensures SameEntry(e, g) {
      var a, b := f.render(e), f.render(g);
      assert Code(Numbers(e)) == a[1..|a| - 1] && Code(Numbers(g)) == b[1..|b| - 1];
      CodeUnique(Numbers(e), Numbers(g));
      NumbersUnique(e, g);
    }
    forall e ensures Numbers(e) == Numbers(e.(ticket := Trim(e.ticket))) {
      TrimTwice(e);
    }
  }

  lemma TrimTwice(e: Entry)
    ensures Numbers(e) == Numbers(e.(ticket := Trim(e.ticket)))
  {
    TrimIdempotent(e.ticket);
    hide Trim;
  }

  /** A ledger with one more line that is no entry, behind which nothing can be appended. */
  ghost predicate Torn(f: Format, before: string, after: string) {
    && LedgerLines(before) <= LedgerLines(after) && |LedgerLines(after)| == |LedgerLines(before)| + 1
    && !f.parses(LedgerLines(after)[|LedgerLines(before)|]) && !Appendable(f, after)
  }

  /** An append that came to anything: nothing, the entry's line, or a torn line. */
  ghost predicate AppendedAtMost(f: Format, before: string, after: string, e: Entry) {
    || LedgerLines(after) == LedgerLines(before)
    || LedgerLines(after) == LedgerLines(before) + [f.render(e)]
    || Torn(f, before, after)
  }

  lemma AtMostGrows(f: Format, before: string, after: string, e: Entry)
    requires AppendedAtMost(f, before, after, e)
    ensures LedgerLines(before) <= LedgerLines(after)
  {
    hide LedgerLines;
  }

  /** The line stands in the ledger behind the lines there were. */
  ghost predicate NewLine(before: string, after: string, line: string) {
    exists i | |LedgerLines(before)| <= i < |LedgerLines(after)| :: LedgerLines(after)[i] == line
  }

  /** The only entry that can be new is the one appended. */
  lemma OnlyNewEntry(f: Format, before: string, after: string, e: Entry, g: Entry)
    requires GoodFormat(f) && AppendedAtMost(f, before, after, e) && NewLine(before, after, f.render(g))
    ensures SameEntry(g, e)
  {
    hide LedgerLines;
    hide Appendable;
    hide Trim;
  }

  lemma NewLineOf(before: string, between: string, after: string, line: string)
    requires LedgerLines(before) <= LedgerLines(between) <= LedgerLines(after) && NewLine(before, after, line)
    ensures NewLine(before, between, line) || NewLine(between, after, line)
  {
    hide LedgerLines;
    var i :| |LedgerLines(before)| <= i < |LedgerLines(after)| && LedgerLines(after)[i] == line;
    if i < |LedgerLines(between)| { assert LedgerLines(between)[i] == line; }
  }

  // ---------------------------------------------------------------- lines of a grown ledger

  lemma {:induction false} EntriesAppend(xs: seq<string>, ys: seq<string>)
    ensures Entries(xs + ys) == Entries(xs) + Entries(ys)
  {
    if ys == [] {
      assert xs + ys == xs;
    } else {
      var n := |ys| - 1;
      assert (xs + ys)[..|xs| + n] == xs + ys[..n];
      EntriesAppend(xs, ys[..n]);
    }
  }

  lemma EntriesOne(l: string)
    ensures Entries([l]) == if Blank(l) then [] else [l]
    ensures Entries([l, ""]) == if Blank(l) then [] else [l]
  {
    assert [l][..0] == [] && [l, ""][..1] == [l];
  }

  lemma BothPieces(l: string)
    requires LF !in l
    ensures Split(l, LF) == [l] && Split(l + [LF], LF) == [l, ""] && Split("", LF) == [""]
  {
    SplitOne(l, LF);
    SplitAppend(l, "", LF);
    assert l + [LF] + "" == l + [LF];
  }

  lemma AfterLf(a: string, l: string)
    requires LF !in l
    ensures LedgerLines(a + [LF] + l) == Entries(Split(a, LF)) + (if Blank(l) then [] else [l])
    ensures LedgerLines(a + [LF] + (l + [LF])) == Entries(Split(a, LF)) + (if Blank(l) then [] else [l])
  {
    hide Blank;
    hide Split;
    hide Entries;
    BothPieces(l);
    SplitAppend(a, l, LF);
    SplitAppend(a, l + [LF], LF);
    EntriesAppend(Split(a, LF), [l]);
    EntriesAppend(Split(a, LF), [l, ""]);
    EntriesOne(l);
  }

  /** Text added behind a ledger that ends its last line adds just its own line. */
  lemma OpenLine(text: string, l: string)
    requires LF !in l && (text == "" || text[|text| - 1] == LF)
    ensures LedgerLines(text + l) == LedgerLines(text) + if Blank(l) then [] else [l]
    ensures LedgerLines(text + l + [LF]) == LedgerLines(text) + if Blank(l) then [] else [l]
  {
    hide Split;
    hide Entries;
    hide Blank;
    BlankEmpty();
    if text == "" {
      BothPieces(l);
      EntriesOne(l);
      EntriesOne("");
      assert text + l == l && text + l + [LF] == l + [LF];
    } else {
      var a := text[..|text| - 1];
      assert text == a + [LF] + "" && text + l == a + [LF] + l && text + l + [LF] == a + [LF] + (l + [LF]);
      AfterLf(a, "");
      AfterLf(a, l);
    }
  }

  lemma BlankEmpty()
    ensures Blank("")
  {
  }

  /** The text with its last line ended has the same lines. */
  lemma EndLine(text: string)
    ensures LedgerLines(text + Separator(text)) == LedgerLines(text)
    ensures var t := text + Separator(text); t == "" || t[|t| - 1] == LF
  {
    hide Split;
    hide Entries;
    hide Blank;
    BlankEmpty();
    if Separator(text) == [LF] {
      SplitAppend(text, "", LF);
      assert text + [LF] + "" == text + [LF];
      EntriesAppend(Split(text, LF), [""]);
      BothPieces("");
      EntriesOne("");
    } else {
      assert text + "" == text;
    }
  }

  /** An appended entry is one more line behind the lines there were. */
  lemma AppendGrows(f: Format, text: string, e: Entry)
    requires LineFormat(f)
    ensures LedgerLines(text + Separator(text) + f.render(e) + [LF]) == LedgerLines(text) + [f.render(e)]
  {
    hide LedgerLines;
    EndLine(text);
    OpenLine(text + Separator(text), f.render(e));
  }

  /** When the append is cut short the ledger keeps its lines, and either has the whole new line, or no
      trace of it, or takes no further entry. */
  lemma AppendCut(f: Format, text: string, e: Entry, k: nat)
    requires LineFormat(f) && k <= |Separator(text) + f.render(e) + [LF]|
    ensures var cut := text + (Separator(text) + f.render(e) + [LF])[..k];
            AppendedAtMost(f, text, cut, e)
  {
    hide LedgerLines;
    hide Blank;
    var sep, line := Separator(text), f.render(e);
    var all := sep + line + [LF];
    var cut := text + all[..k];
    EndLine(text);
    if k <= |sep| {
      assert all[..k] == sep[..k];
      assert k == 0 ==> cut == text;
      assert k == |sep| ==> cut == text + sep;
    } else if k <= |sep| + |line| {
      var part := line[..k - |sep|];
      assert cut == (text + sep) + part;
      OpenLine(text + sep, part);
      if !Blank(part) && part != line {
        LastLine(f, cut, LedgerLines(text), part);
      }
    } else {
      assert cut == (text + sep) + line + [LF];
      OpenLine(text + sep, line);
    }
  }

  lemma LastLine(f: Format, cut: string, lines: seq<string>, part: string)
    requires LedgerLines(cut) == lines + [part] && !f.parses(part) && cut != ""
    ensures lines <= LedgerLines(cut) && LedgerLines(cut)[|lines|] == part && !Appendable(f, cut)
  {
    hide LedgerLines;
  }

  // ---------------------------------------------------------------- the run

  /** What happens to the store, in order. */
  datatype Event = Began(operation: nat) | Signed(id: nat, ok: bool) | Finished(operation: nat)

  function Sign(mac: Mac, d: Doc, key: string): Doc {
    if d.hash.Some? then d.(hmac := Some(mac(key, d.hash.value))) else d
  }

  ghost predicate AllSigned(mac: Mac, docs: seq<Doc>, key: string) {
    forall i | 0 <= i < |docs| && docs[i].hash.Some? :: SignedBy(mac, docs[i], key)
  }

  /** Every record is as it was or signed with the new key. */
  ghost predicate PartlySigned(mac: Mac, before: seq<Doc>, docs: seq<Doc>, key: string) {
    |docs| == |before| && forall i | 0 <= i < |docs| :: docs[i] == before[i] || docs[i] == Sign(mac, before[i], key)
  }

  ghost predicate FullySigned(mac: Mac, before: seq<Doc>, docs: seq<Doc>, key: string) {
    |docs| == |before| && forall i | 0 <= i < |docs| :: docs[i] == Sign(mac, before[i], key)
  }

  /** From there on only writes of records; ok if none of them failed. */
  ghost predicate OnlySigned(trace: seq<Event>, n: nat, ok: bool) {
    && (forall i | n <= i < |trace| :: trace[i].Signed?)
    && (ok <==> forall i | n <= i < |trace| :: trace[i].Signed? ==> trace[i].ok)
  }

  lemma NextWrite(t: seq<Event>, n: nat, e: Event, more: seq<Event>)
    requires e.Signed? && n <= |t| && more == t + [e]
    ensures forall ok :: OnlySigned(t, n, ok) ==> OnlySigned(more, n, ok && e.ok)
  {
    assert forall i | n <= i < |t| :: more[i] == t[i];
    assert more[|t|] == e;
  }

  class Store {
    var docs: seq<Doc>
    var ledger: string
    ghost var trace: seq<Event>

    /** How the appends to the ledger went. */
    ghost var appends: seq<Appended>

    /** Add one line to the ledger, or refuse. The write can be cut short. */
    method AppendResignLedger(f: Format, e: Entry) returns (r: Appended)
      requires LineFormat(f)
      modifies `ledger, `appends
      ensures appends == old(appends) + [r]
      ensures old(ledger) <= ledger && LedgerLines(old(ledger)) <= LedgerLines(ledger)
      ensures r.Refused? <==> TicketMissing(e) || !Appendable(f, old(ledger))
      ensures r.Refused? ==> ledger == old(ledger)
      ensures r.Written? ==> LedgerLines(ledger) == LedgerLines(old(ledger)) + [f.render(e)]
      ensures r.Cut? ==> AppendedAtMost(f, old(ledger), ledger, e)
    {
      hide *;
      if TicketMissing(e) || !Appendable(f, ledger) {
        appends := appends + [Refused];
        return Refused;
      }
      var added := Separator(ledger) + f.render(e) + [LF];
      if * {
        AppendGrows(f, ledger, e);
        assert ledger + added == ledger + Separator(ledger) + f.render(e) + [LF];
        ledger := ledger + added;
        r := Written;
      } else {
        var k: nat :| k <= |added|;
        AppendCut(f, ledger, e, k);
        AtMostGrows(f, ledger, ledger + added[..k], e);
        ledger := ledger + added[..k];
        r := Cut;
      }
      appends := appends + [r];
    }

    /** Write the buffered HMACs, in no particular order; any of the writes can fail. */
    method Flush(buffer: seq<(nat, string)>, ghost mac: Mac, ghost newKey: string) returns (ok: bool)
      requires forall i | 0 <= i < |buffer| ::
               buffer[i].0 < |docs| && docs[buffer[i].0].hash.Some?
                 && buffer[i].1 == mac(newKey, docs[buffer[i].0].hash.value)
      modifies `docs, `trace
      ensures |docs| == |old(docs)| && old(trace) <= trace && OnlySigned(trace, |old(trace)|, ok)
      ensures forall j | 0 <= j < |docs| ::
              docs[j] == old(docs)[j] || (Pending(buffer, j) && docs[j] == Sign(mac, old(docs)[j], newKey))
      ensures ok ==> forall j | 0 <= j < |docs| && Pending(buffer, j) :: docs[j] == Sign(mac, old(docs)[j], newKey)
    {
      ok := true;
      for k := 0 to |buffer|
        invariant |docs| == |old(docs)| && old(trace) <= trace && OnlySigned(trace, |old(trace)|, ok)
        invariant forall j | 0 <= j < |docs| ::
                  docs[j] == old(docs)[j] || (Pending(buffer, j) && docs[j] == Sign(mac, old(docs)[j], newKey))
        invariant ok ==> forall j | 0 <= j < |docs| && Pending(buffer[..k], j) ::
                  docs[j] == Sign(mac, old(docs)[j], newKey)
      {
        var id := buffer[k].0;
        assert Pending(buffer, id);
        PendingNext(buffer, k);
        ghost var written := trace;
        if * {
          docs := docs[id := docs[id].(hmac := Some(buffer[k].1))];
          trace := trace + [Signed(id, true)];
        } else {
          trace := trace + [Signed(id, false)];
          ok := false;
        }
        NextWrite(written, |old(trace)|, trace[|written|], trace);
      }
      assert buffer[..|buffer|] == buffer;
    }

    /** The second pass: sign what the new key has not signed yet, in batches. */
    method WriteResignatures(mac: Mac, newKey: string) returns (ok: bool, resigned: nat)
      modifies `docs, `trace
      ensures PartlySigned(mac, old(docs), docs, newKey)
      ensures old(trace) <= trace && OnlySigned(trace, |old(trace)|, ok)
      ensures ok ==> FullySigned(mac, old(docs), docs, newKey) && resigned == Unsigned(mac, old(docs), newKey)
    {
      hide *;
      var buffer: seq<(nat, string)> := [];
      ghost var before, mark := docs, 0;
      resigned := 0;
      MidwayStart(mac, before, newKey);
      for i := 0 to |docs|
        invariant |docs| == |before| && Midway(mac, before, docs, newKey, buffer, mark, i)
        invariant resigned == Unsigned(mac, before[..i], newKey)
        invariant old(trace) <= trace && OnlySigned(trace, |old(trace)|, true)
      {
        UnsignedNext(mac, before, i, newKey);
        MidwayNext(mac, before, docs, newKey, buffer, mark, i);
        var d := docs[i];
        if d.hash.Some? {
          var expected := mac(newKey, d.hash.value);
          if d.hmac != Some(expected) {
            resigned := resigned + 1;
            buffer := buffer + [(i, expected)];
            if |buffer| >= BATCH_SIZE {
              ghost var t := trace;
              ok := FlushTo(buffer, mac, before, newKey, mark, i + 1);
              MoreSigned(old(trace), t, trace, ok);
              if !ok { return; }
              buffer, mark := [], i + 1;
            }
          }
        }
      }
      assert before[..|before|] == before;
      ghost var t := trace;
      ok := FlushTo(buffer, mac, before, newKey, mark, |docs|);
      MoreSigned(old(trace), t, trace, ok);
      if ok { MidwayEnd(mac, before, docs, newKey); }
    }

    /** Write the buffer out: every record up to i is then as it should be. */
    method FlushTo(buffer: seq<(nat, string)>, ghost mac: Mac, ghost before: seq<Doc>, ghost newKey: string,
                   ghost mark: nat, ghost i: nat)
      returns (ok: bool)
      requires Midway(mac, before, docs, newKey, buffer, mark, i)
      modifies `docs, `trace
      ensures PartlySigned(mac, before, docs, newKey)
      ensures ok ==> Midway(mac, before, docs, newKey, [], i, i)
      ensures |docs| == |old(docs)| && old(trace) <= trace && OnlySigned(trace, |old(trace)|, ok)
    {
      hide SignedBy;
      hide Pending;
      MidwayPending(mac, before, docs, newKey, buffer, mark, i);
      ok := Flush(buffer, mac, newKey);
    }

    /** Intent first, then the writes, then the result: a run that fails in between leaves only the
        intent. */
    method WithLedger(mac: Mac, newKey: string, f: Format, intent: Entry) returns (r: Outcome)
      requires GoodFormat(f) && !intent.completed
      modifies this
      ensures old(ledger) <= ledger && LedgerLines(old(ledger)) <= LedgerLines(ledger) && old(trace) <= trace
      ensures PartlySigned(mac, old(docs), docs, newKey)
      ensures trace == old(trace) || Intended(f, intent, old(ledger), ledger, old(trace), trace)
      ensures trace == old(trace) ==> docs == old(docs)
      ensures r.NotBegun? || r.Interrupted? || r.Unrecorded? || r.Done?
      ensures TicketMissing(intent) || !Appendable(f, old(ledger)) ==> r.NotBegun? && ledger == old(ledger)
      ensures r.NotBegun? ==> trace == old(trace)
      ensures r.NotBegun? ==> appends == old(appends) + [Refused] || appends == old(appends) + [Cut]
      ensures r.Interrupted? ==> appends == old(appends) + [Written] && OnlySigned(trace, |old(trace)| + 1, false)
      ensures r.Unrecorded? ==>
                appends == old(appends) + [Written, Refused] || appends == old(appends) + [Written, Cut]
      ensures r.Unrecorded? || r.Done? ==> FullySigned(mac, old(docs), docs, newKey)
      ensures r.Done? ==>
                && appends == old(appends) + [Written, Written] && r.count == Unsigned(mac, old(docs), newKey)
                && Completed(f, intent, old(ledger), ledger, r.count)
                && trace != [] && trace[|trace| - 1] == Finished(intent.operation)
      ensures forall g: Entry | g.completed && NewLine(old(ledger), ledger, f.render(g)) ::
                && FullySigned(mac, old(docs), docs, newKey)
                && SameEntry(g, intent.(completed := true, resigned := Some(Unsigned(mac, old(docs), newKey))))
    {
      hide *;
      NothingSigned(mac, docs, newKey);
      GoodIsLine(f);
      ghost var ledger0 := ledger;
      var appended := AppendResignLedger(f, intent);
      AtMostAppended(f, appended, ledger0, ledger, intent);
      NoneCompleted(f, ledger0, ledger, intent);
      if !appended.Written? { return NotBegun; }
      ghost var t0 := trace;
      trace := trace + [Began(intent.operation)];
      ghost var l1 := ledger;
      var ok, resigned := WriteResignatures(mac, newKey);
      IntendedBy(f, intent, ledger0, l1, ledger, t0, trace, ok);
      if !ok { return Interrupted; }
      var result := intent.(completed := true, resigned := Some(resigned));
      appended := AppendResignLedger(f, result);
      AtMostAppended(f, appended, l1, ledger, result);
      OnlyResultCompleted(f, ledger0, l1, ledger, intent, result);
      IntendedBy(f, intent, ledger0, l1, ledger, t0, trace, true);
      if !appended.Written? { return Unrecorded; }
      ghost var t1 := trace;
      trace := trace + [Finished(intent.operation)];
      IntendedFinished(f, intent, ledger0, ledger, t0, t1, true);
      CompletedBy(f, intent, ledger0, l1, ledger, resigned);
      r := Done(resigned);
    }

    /** Count first; refuse to hide evidence unless told to; then sign behind the ledger. */
    method Resign(mac: Mac, newKey: string, currentKey: string, apply: bool, allowSuspect: bool, ticket: string,
                  f: Format, op: nat)
      returns (r: Outcome, ghost counts: Counts)
      requires GoodFormat(f)
      modifies this
      ensures !r.SameKey? ==> Tallies(counts, mac, old(docs), newKey, currentKey)
      ensures old(ledger) <= ledger && LedgerLines(old(ledger)) <= LedgerLines(ledger)
      ensures old(trace) <= trace
      ensures PartlySigned(mac, old(docs), docs, newKey)
      ensures var intent := Entry(op, false, Evident(mac, old(docs), newKey, currentKey) != [], ticket, counts, None);
              && (trace == old(trace) || Intended(f, intent, old(ledger), ledger, old(trace), trace))
              && (r.Done? ==> Completed(f, intent, old(ledger), ledger, r.count))
              && (!r.SameKey? && !r.Rejected? && apply && (TicketMissing(intent) || !Appendable(f, old(ledger))) ==>
                    r.NotBegun? && ledger == old(ledger))
      ensures trace == old(trace) ==> docs == old(docs)
      ensures !allowSuspect ==> forall i | 0 <= i < |docs| && docs[i] != old(docs)[i] ::
                Harmless(mac, old(docs)[i], currentKey)
      ensures r.SameKey? <==> currentKey != "" && currentKey == newKey
      ensures !r.SameKey? ==> (r.DryRun? <==> !apply)
      ensures !r.SameKey? ==> (r.Rejected? <==> apply && !allowSuspect && exists i: nat ::
                                 i < |old(docs)| && IsEvidence(mac, old(docs)[i], newKey, currentKey))
      ensures r.SameKey? || r.Rejected? || r.DryRun? ==>
                ledger == old(ledger) && trace == old(trace) && appends == old(appends)
      ensures r.DryRun? ==> r.count == Unsigned(mac, old(docs), newKey)
      ensures r.NotBegun? ==> trace == old(trace)
      ensures r.NotBegun? ==> appends == old(appends) + [Refused] || appends == old(appends) + [Cut]
      ensures r.Interrupted? ==> appends == old(appends) + [Written] && OnlySigned(trace, |old(trace)| + 1, false)
      ensures r.Unrecorded? ==>
                appends == old(appends) + [Written, Refused] || appends == old(appends) + [Written, Cut]
      ensures r.Done? ==> appends == old(appends) + [Written, Written]
      ensures r.Done? ==>
                && FullySigned(mac, old(docs), docs, newKey) && AllSigned(mac, docs, newKey)
                && r.count == ToSign(counts)
                && trace != [] && trace[|trace| - 1] == Finished(op)
      ensures r.Unrecorded? ==> FullySigned(mac, old(docs), docs, newKey)
      ensures forall g: Entry | g.completed && NewLine(old(ledger), ledger, f.render(g)) ::
                && FullySigned(mac, old(docs), docs, newKey) && AllSigned(mac, docs, newKey)
                && g.operation == op && g.counts == counts
                && g.resigned == Some(ToSign(counts)) && ToSign(counts) == Unsigned(mac, old(docs), newKey)
    {
      hide *;
      NothingSigned(mac, docs, newKey);
      NoNewLine(ledger);
      counts := Counts(0, 0, 0, 0, 0);
      if currentKey != "" && currentKey == newKey { return SameKey, counts; }
      ghost var before := docs;
      var tally, samples := TallyHmacStates(mac, docs, newKey, currentKey);
      counts := tally;
      TallyMeans(counts, mac, docs, newKey, currentKey);
      BlockingIsEvident(counts, mac, docs, newKey, currentKey);
      AnyEvident(mac, docs, newKey, currentKey);
      var blocking := tally.suspect + tally.unverifiable;
      if blocking > 0 && apply && !allowSuspect { return Rejected, counts; }
      if !apply { return DryRun(ToSign(tally)), counts; }
      var intent := Entry(op, false, blocking > 0, ticket, tally, None);
      r := WithLedger(mac, newKey, f, intent);
      if !allowSuspect { HarmlessChanges(mac, before, docs, newKey, currentKey); }
      if FullySigned(mac, before, docs, newKey) { FullyMeansAll(mac, before, docs, newKey); }
      var result := intent.(completed := true, resigned := Some(ToSign(tally)));
      forall g: Entry | SameEntry(g, result)
        ensures g.operation == op && g.counts == counts && g.resigned == Some(ToSign(tally))
      {
        SameEntryMeans(g, result);
      }
    }
  }

  datatype Outcome = SameKey | Rejected | DryRun(count: nat) | NotBegun | Interrupted | Unrecorded
    | Done(count: nat)

  /** The buffer holds just the unsigned records from mark up to i, each with its new HMAC. */
  ghost predicate Prepared(buffer: seq<(nat, string)>, mac: Mac, docs: seq<Doc>, newKey: string, mark: nat, i: nat)
    requires mark <= i <= |docs|
  {
    && (forall k | 0 <= k < |buffer| ::
          mark <= buffer[k].0 < i && docs[buffer[k].0].hash.Some?
            && buffer[k].1 == mac(newKey, docs[buffer[k].0].hash.value))
    && (forall j | mark <= j < i && docs[j].hash.Some? && !SignedBy(mac, docs[j], newKey) :: Pending(buffer, j))
  }

  /** Up to mark the records are signed, behind it they are as before, and the buffer has what is due up to i. */
  ghost predicate Midway(mac: Mac, before: seq<Doc>, docs: seq<Doc>, newKey: string, buffer: seq<(nat, string)>,
                         mark: nat, i: nat)
  {
    && |docs| == |before| && mark <= i <= |docs|
    && (forall j | 0 <= j < mark :: docs[j] == Sign(mac, before[j], newKey))
    && (forall j | mark <= j < |docs| :: docs[j] == before[j])
    && Prepared(buffer, mac, before, newKey, mark, i)
  }

  lemma MidwayStart(mac: Mac, before: seq<Doc>, newKey: string)
    ensures Midway(mac, before, before, newKey, [], 0, 0)
    ensures Unsigned(mac, before[..0], newKey) == 0
    ensures forall t :: OnlySigned(t, |t|, true)
  {
  }

  lemma MidwayNext(mac: Mac, before: seq<Doc>, docs: seq<Doc>, newKey: string, buffer: seq<(nat, string)>, mark: nat,
                   i: nat)
    requires Midway(mac, before, docs, newKey, buffer, mark, i) && i < |docs|
    ensures docs[i] == before[i]
    ensures docs[i].hash.Some? && docs[i].hmac != Some(mac(newKey, docs[i].hash.value)) ==>
              Midway(mac, before, docs, newKey, buffer + [(i, mac(newKey, docs[i].hash.value))], mark, i + 1)
    ensures !(docs[i].hash.Some? && docs[i].hmac != Some(mac(newKey, docs[i].hash.value))) ==>
              Midway(mac, before, docs, newKey, buffer, mark, i + 1)
  {
    hide Sign;
    if docs[i].hash.Some? {
      PreparedNext(buffer, mac, before, newKey, mark, i, mac(newKey, docs[i].hash.value));
    }
  }

  lemma UnsignedNext(mac: Mac, docs: seq<Doc>, i: nat, key: string)
    requires i < |docs|
    ensures Unsigned(mac, docs[..i + 1], key) ==
            Unsigned(mac, docs[..i], key) + if docs[i].hash.Some? && docs[i].hmac != Some(mac(key, docs[i].hash.value))
              then 1 else 0
  {
    assert docs[..i + 1][..i] == docs[..i];
  }

  lemma MidwayPending(mac: Mac, before: seq<Doc>, docs: seq<Doc>, newKey: string, buffer: seq<(nat, string)>, mark: nat,
                      i: nat)
    requires Midway(mac, before, docs, newKey, buffer, mark, i)
    ensures forall k | 0 <= k < |buffer| ::
            buffer[k].0 < |docs| && docs[buffer[k].0].hash.Some?
              && buffer[k].1 == mac(newKey, docs[buffer[k].0].hash.value)
    ensures forall j | 0 <= j < |docs| && Pending(buffer, j) :: mark <= j < i
    ensures forall j | mark <= j < i && !Pending(buffer, j) :: before[j] == Sign(mac, before[j], newKey)
  {
  }

  lemma MidwayEnd(mac: Mac, before: seq<Doc>, docs: seq<Doc>, newKey: string)
    requires Midway(mac, before, docs, newKey, [], |docs|, |docs|)
    ensures FullySigned(mac, before, docs, newKey)
  {
    hide Sign;
  }

  lemma MoreSigned(t0: seq<Event>, t1: seq<Event>, t2: seq<Event>, ok: bool)
    requires t0 <= t1 <= t2 && OnlySigned(t1, |t0|, true) && OnlySigned(t2, |t1|, ok)
    ensures OnlySigned(t2, |t0|, ok)
  {
  }

  lemma PreparedNext(buffer: seq<(nat, string)>, mac: Mac, docs: seq<Doc>, newKey: string, mark: nat, i: nat,
                     hmac: string)
    requires mark <= i < |docs| && Prepared(buffer, mac, docs, newKey, mark, i) && docs[i].hash.Some?
             && hmac == mac(newKey, docs[i].hash.value)
    ensures Prepared(buffer + [(i, hmac)], mac, docs, newKey, mark, i + 1)
  {
    var more := buffer + [(i, hmac)];
    assert more[|buffer|].0 == i;
    forall j | mark <= j < i + 1 && docs[j].hash.Some? && !SignedBy(mac, docs[j], newKey) ensures Pending(more, j) {
      if j < i {
        var k :| 0 <= k < |buffer| && buffer[k].0 == j;
        assert more[k].0 == j;
      }
    }
  }

  /** The first event is the beginning, behind it only writes and at most the end, and the intent line is in the
      ledger right behind the lines there were. */
  ghost predicate Intended(f: Format, intent: Entry, ledger0: string, ledger: string, t0: seq<Event>, t: seq<Event>) {
    && LedgerLines(ledger0) + [f.render(intent)] <= LedgerLines(ledger)
    && |t| > |t0| && t0 <= t && t[|t0|] == Began(intent.operation)
    && forall i | |t0| < i < |t| :: t[i].Signed? || (i == |t| - 1 && t[i] == Finished(intent.operation))
  }

  /** Two lines were added: the intent, and the same as a result with the number of records signed. */
  ghost predicate Completed(f: Format, intent: Entry, ledger0: string, ledger: string, count: nat) {
    LedgerLines(ledger) == LedgerLines(ledger0) +
      [f.render(intent), f.render(intent.(completed := true, resigned := Some(count)))]
  }

  lemma IntendedBy(f: Format, e: Entry, ledger0: string, l1: string, ledger: string, t0: seq<Event>, t: seq<Event>,
                   ok: bool)
    requires LedgerLines(l1) == LedgerLines(ledger0) + [f.render(e)] && LedgerLines(l1) <= LedgerLines(ledger)
    requires t0 + [Began(e.operation)] <= t && OnlySigned(t, |t0| + 1, ok)
    ensures Intended(f, e, ledger0, ledger, t0, t)
  {
    hide LedgerLines;
  }

  lemma IntendedFinished(f: Format, e: Entry, ledger0: string, ledger: string, t0: seq<Event>, t: seq<Event>, ok: bool)
    requires Intended(f, e, ledger0, ledger, t0, t) && OnlySigned(t, |t0| + 1, ok)
    ensures Intended(f, e, ledger0, ledger, t0, t + [Finished(e.operation)])
  {
    hide LedgerLines;
  }

  lemma CompletedBy(f: Format, e: Entry, ledger0: string, l1: string, ledger: string, count: nat)
    requires LedgerLines(l1) == LedgerLines(ledger0) + [f.render(e)]
             && LedgerLines(ledger) == LedgerLines(l1) + [f.render(e.(completed := true, resigned := Some(count)))]
    ensures Completed(f, e, ledger0, ledger, count)
  {
    hide LedgerLines;
    var result := e.(completed := true, resigned := Some(count));
    assert LedgerLines(ledger) == LedgerLines(ledger0) + [f.render(e), f.render(result)];
  }

  lemma NoNewLine(ledger: string)
    ensures forall line :: !NewLine(ledger, ledger, line)
  {
    hide LedgerLines;
  }

  lemma AtMostAppended(f: Format, r: Appended, before: string, after: string, e: Entry)
    requires r.Refused? ==> after == before
    requires r.Written? ==> LedgerLines(after) == LedgerLines(before) + [f.render(e)]
    requires r.Cut? ==> AppendedAtMost(f, before, after, e)
    ensures AppendedAtMost(f, before, after, e) && LedgerLines(before) <= LedgerLines(after)
  {
    hide LedgerLines;
    AtMostGrows(f, before, after, e);
  }

  lemma NoneCompleted(f: Format, before: string, after: string, intent: Entry)
    requires GoodFormat(f) && AppendedAtMost(f, before, after, intent) && !intent.completed
    ensures forall g: Entry :: NewLine(before, after, f.render(g)) ==> !g.completed
  {
    hide *;
    forall g: Entry | NewLine(before, after, f.render(g)) ensures !g.completed {
      OnlyNewEntry(f, before, after, intent, g);
      SameEntryMeans(g, intent);
    }
  }

  /** Of the entries that are new after both appends only the result is a completed one. */
  lemma OnlyResultCompleted(f: Format, ledger0: string, l1: string, ledger: string, intent: Entry, result: Entry)
    requires GoodFormat(f) && !intent.completed
    requires AppendedAtMost(f, ledger0, l1, intent) && AppendedAtMost(f, l1, ledger, result)
    requires LedgerLines(ledger0) <= LedgerLines(l1) <= LedgerLines(ledger)
    ensures forall g: Entry :: g.completed && NewLine(ledger0, ledger, f.render(g)) ==> SameEntry(g, result)
  {
    hide *;
    forall g: Entry | g.completed && NewLine(ledger0, ledger, f.render(g)) ensures SameEntry(g, result) {
      NewLineOf(ledger0, l1, ledger, f.render(g));
      if NewLine(ledger0, l1, f.render(g)) {
        OnlyNewEntry(f, ledger0, l1, intent, g);
        SameEntryMeans(g, intent);
        assert false;
      }
      OnlyNewEntry(f, l1, ledger, result, g);
    }
  }

  lemma NothingSigned(mac: Mac, docs: seq<Doc>, key: string)
    ensures PartlySigned(mac, docs, docs, key)
  {
  }

  lemma FullyMeansAll(mac: Mac, before: seq<Doc>, docs: seq<Doc>, key: string)
    requires FullySigned(mac, before, docs, key)
    ensures AllSigned(mac, docs, key)
  {
  }

  /** Records are evidence exactly when some are counted as such. */
  lemma BlockingIsEvident(counts: Counts, mac: Mac, docs: seq<Doc>, newKey: string, currentKey: string)
    requires Tallies(counts, mac, docs, newKey, currentKey)
    ensures counts.suspect + counts.unverifiable == |Evident(mac, docs, newKey, currentKey)|
  {
    EvidentCounted(mac, docs, newKey, currentKey);
    assert CountOf(counts, Suspect) == counts.suspect && CountOf(counts, Unverifiable) == counts.unverifiable;
  }

  lemma EvidentState(mac: Mac, d: Doc, newKey: string, currentKey: string)
    ensures IsEvidence(mac, d, newKey, currentKey) <==>
              d.hash.Some? && (InState(mac, d, newKey, currentKey, Suspect) ||
                               InState(mac, d, newKey, currentKey, Unverifiable))
    ensures d.hash.Some? && InState(mac, d, newKey, currentKey, Suspect) ==>
              !InState(mac, d, newKey, currentKey, Unverifiable)
  {
  }

  /** Of records that are no evidence, those that change when signed can be signed without an override. */
  lemma HarmlessChanges(mac: Mac, before: seq<Doc>, docs: seq<Doc>, newKey: string, currentKey: string)
    requires Evident(mac, before, newKey, currentKey) == [] && PartlySigned(mac, before, docs, newKey)
    ensures forall i | 0 <= i < |docs| && docs[i] != before[i] :: Harmless(mac, before[i], currentKey)
  {
    hide Evident;
    EvidentMeans(mac, before, newKey, currentKey);
    forall i | 0 <= i < |docs| && docs[i] != before[i] ensures Harmless(mac, before[i], currentKey) {
      assert i !in Evident(mac, before, newKey, currentKey);
    }
  }

  lemma AnyEvident(mac: Mac, docs: seq<Doc>, newKey: string, currentKey: string)
    ensures Evident(mac, docs, newKey, currentKey) != [] <==>
            exists i: nat :: i < |docs| && IsEvidence(mac, docs[i], newKey, currentKey)
  {
    hide Evident;
    hide IsEvidence;
    EvidentMeans(mac, docs, newKey, currentKey);
    var e := Evident(mac, docs, newKey, currentKey);
    if e != [] { assert e[0] in e; }
  }

  lemma {:induction false} EvidentCounted(mac: Mac, docs: seq<Doc>, newKey: string, currentKey: string)
    ensures |Evident(mac, docs, newKey, currentKey)| ==
            CountIn(mac, docs, newKey, currentKey, Suspect) + CountIn(mac, docs, newKey, currentKey, Unverifiable)
  {
    if docs != [] {
      EvidentCounted(mac, docs[..|docs| - 1], newKey, currentKey);
      EvidentState(mac, docs[|docs| - 1], newKey, currentKey);
    }
  }

  /** A run that was interrupted can be run again: what one full run would have given comes out. */
  lemma ResignResumes(mac: Mac, before: seq<Doc>, partial: seq<Doc>, after: seq<Doc>, key: string)
    requires PartlySigned(mac, before, partial, key) && FullySigned(mac, partial, after, key)
    ensures FullySigned(mac, before, after, key)
  {
    forall i | 0 <= i < |after| ensures after[i] == Sign(mac, before[i], key) {
      assert partial[i] == before[i] || partial[i] == Sign(mac, before[i], key);
    }
  }

  ghost predicate Pending(buffer: seq<(nat, string)>, id: nat) {
    exists i | 0 <= i < |buffer| :: buffer[i].0 == id
  }

  lemma PendingNext(buffer: seq<(nat, string)>, k: nat)
    requires k < |buffer|
    ensures forall id :: Pending(buffer[..k + 1], id) <==> Pending(buffer[..k], id) || id == buffer[k].0
  {
    forall id ensures Pending(buffer[..k + 1], id) <==> Pending(buffer[..k], id) || id == buffer[k].0 {
      if Pending(buffer[..k], id) {
        var i :| 0 <= i < k && buffer[..k][i].0 == id;
        assert buffer[..k + 1][i].0 == id;
      }
      assert buffer[..k + 1][k] == buffer[k];
      if Pending(buffer[..k + 1], id) {
        var i :| 0 <= i < k + 1 && buffer[..k + 1][i].0 == id;
        assert i < k ==> buffer[..k][i].0 == id;
      }
    }
  }
}
