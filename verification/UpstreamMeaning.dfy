/** What the readings of an nginx file mean: the expressions for its lines, written out, and which line serves. */
module UpstreamMeaning {
  import opened TextLines
  import opened Texts
  import opened Upstream
  import opened Wrappers

  ghost predicate Spaces(s: string) {
    forall i | 0 <= i < |s| :: IsSpace(s[i])
  }

  ghost predicate AddressText(s: string) {
    s != "" && forall i | 0 <= i < |s| :: !IsSpace(s[i]) && s[i] != ';'
  }

  /** No line terminator. */
  ghost predicate TailText(s: string) {
    forall i | 0 <= i < |s| :: s[i] as int !in {10, 13, 0x2028, 0x2029}
  }

  // ---------------------------------------------------------------- a server line

  /** A server line is white space, perhaps a hash and white space, the word, white space, an address, perhaps white
      space, a semicolon, and the rest of the line. */
  ghost predicate ServerLine(line: string, s: Server, w1: string, w2: string, w3: string) {
    && line == s.indent + ((if s.commented then "#" + w1 else "") +
                           ("server" + (w2 + (s.address + (w3 + (";" + s.tail))))))
    && Spaces(s.indent) && Spaces(w1) && Spaces(w2) && Spaces(w3) && w2 != ""
    && AddressText(s.address) && TailText(s.tail)
  }

  lemma MatchServerMeans(line: string, s: Server)
    ensures MatchServer(line) == Some(s) <==> exists w1, w2, w3 :: ServerLine(line, s, w1, w2, w3)
  {
    if MatchServer(line) == Some(s) { MatchedLine(line, s); }
    forall w1, w2, w3 | ServerLine(line, s, w1, w2, w3) ensures MatchServer(line) == Some(s) {
      LineMatches(line, s, w1, w2, w3);
    }
  }

  /** The white space in front, and what is left. */
  lemma Leading(s: string) returns (w: string, rest: string)
    ensures s == w + rest && Spaces(w) && (rest == "" || !IsSpace(rest[0]))
    ensures rest == Skip(s) && |w| == Run(s, IsSpace) && w == s[..|w|]
  {
    hide IsSpace;
    w, rest := s[..Run(s, IsSpace)], Skip(s);
  }

  lemma LineMatches(line: string, s: Server, w1: string, w2: string, w3: string)
    requires ServerLine(line, s, w1, w2, w3)
    ensures MatchServer(line) == Some(s)
  {
    var d := "server" + (w2 + (s.address + (w3 + (";" + s.tail))));
    assert d[0] == 's' && !IsSpace('#') && !IsSpace('s');
    assert Spaces(s.indent) && Spaces(w1);
    DirectiveMatches(s, w2, w3);
    LineIs(line, s, w1, d);
    hide *;
    if s.commented {
      CommentBody(s.indent, w1, d);
      assert ("#" + w1 + d)[0] == '#';
      LineOfBody(line, s, "#" + w1 + d);
    } else {
      PlainBody(s.indent, d);
      LineOfBody(line, s, d);
    }
  }

  lemma LineIs(line: string, s: Server, w1: string, d: string)
    requires line == s.indent + ((if s.commented then "#" + w1 else "") + d)
    ensures line == s.indent + if s.commented then "#" + w1 + d else d
  {
    assert "" + d == d;
  }

  lemma LineOfBody(line: string, s: Server, body: string)
    requires line == s.indent + body && Spaces(s.indent) && body != "" && !IsSpace(body[0])
    requires MatchBody(s.indent, body) == Some(s)
    ensures MatchServer(line) == Some(s)
  {
    hide IsSpace;
    hide MatchBody;
    RunOver(s.indent, body, IsSpace);
  }

  lemma CommentBody(indent: string, w1: string, d: string)
    requires Spaces(w1) && d != "" && !IsSpace(d[0])
    ensures MatchBody(indent, "#" + w1 + d) == MatchDirective(indent, true, d)
  {
    hide IsSpace;
    hide MatchDirective;
    var body := "#" + w1 + d;
    assert body[1..] == w1 + d && body[..1] == "#";
    SkipOver(w1, d);
    hide Skip;
  }

  lemma PlainBody(indent: string, d: string)
    requires d != "" && d[0] != '#'
    ensures MatchBody(indent, d) == MatchDirective(indent, false, d)
  {
    hide MatchDirective;
    hide Skip;
    assert d[..1][0] == d[0];
  }

  lemma DirectiveMatches(s: Server, w2: string, w3: string)
    requires Spaces(w2) && Spaces(w3) && w2 != "" && AddressText(s.address) && TailText(s.tail)
    ensures MatchDirective(s.indent, s.commented, "server" + (w2 + (s.address + (w3 + (";" + s.tail))))) == Some(s)
  {
    var a := s.address + (w3 + (";" + s.tail));
    AddressMatches(s, w3);
    hide IsSpace;
    hide MatchAddress;
    assert a[0] == s.address[0];
    SkipOver(w2, a);
    assert ("server" + (w2 + a))[6..] == w2 + a;
  }

  lemma AddressMatches(s: Server, w3: string)
    requires Spaces(w3) && AddressText(s.address) && TailText(s.tail)
    ensures MatchAddress(s.indent, s.commented, s.address + (w3 + (";" + s.tail))) == Some(s)
  {
    var after := ";" + s.tail;
    assert !IsSpace(';');
    assert forall c: char | IsSpace(c) :: !IsAddress(c);
    hide IsSpace;
    assert w3 + after != "" && (w3 + after)[0] == if w3 == "" then ';' else w3[0];
    RunOver(s.address, w3 + after, IsAddress);
    SkipOver(w3, after);
    RunOver(s.tail, "", IsDot);
    assert s.tail + "" == s.tail && after[1..] == s.tail;
  }

  lemma MatchedLine(line: string, s: Server)
    requires MatchServer(line) == Some(s)
    ensures exists w1, w2, w3 :: ServerLine(line, s, w1, w2, w3)
  {
    var indent, body := Leading(line);
    BodyIs(line);
    hide *;
    if StartsWith(body, "#") {
      Prefixed(body, "#");
      var w1, d := Leading(body[1..]);
      var w2, w3 := MatchedDirective(indent, true, d, s);
      LineOf(line, s, body, w1, d);
      LineParts(line, s, w1, w2, w3);
    } else {
      var w2, w3 := MatchedDirective(indent, false, body, s);
      NoSpaces();
      LineOf(line, s, body, "", body);
      LineParts(line, s, "", w2, w3);
    }
  }

  lemma BodyIs(line: string)
    ensures var body := Skip(line);
            MatchServer(line) == if StartsWith(body, "#")
              then MatchDirective(line[..Run(line, IsSpace)], true, Skip(body[1..]))
              else MatchDirective(line[..Run(line, IsSpace)], false, body)
    ensures StartsWith(Skip(line), "#") ==> Skip(line) != ""
  {
    hide IsSpace;
    hide MatchDirective;
    hide Run;
  }

  lemma LineOf(line: string, s: Server, body: string, w1: string, d: string)
    requires line == s.indent + body && body == if s.commented then "#" + (w1 + d) else d
    ensures line == s.indent + ((if s.commented then "#" + w1 else "") + d)
  {
    assert "" + d == d;
    assert "#" + (w1 + d) == "#" + w1 + d;
  }

  lemma LineParts(line: string, s: Server, w1: string, w2: string, w3: string)
    requires line == s.indent + ((if s.commented then "#" + w1 else "") +
                                 ("server" + (w2 + (s.address + (w3 + (";" + s.tail))))))
    requires Spaces(s.indent) && Spaces(w1) && Spaces(w2) && Spaces(w3) && w2 != ""
    requires AddressText(s.address) && TailText(s.tail)
    ensures ServerLine(line, s, w1, w2, w3)
  {
  }

  lemma NoSpaces()
    ensures Spaces("")
  {
  }

  lemma MatchedDirective(indent: string, hash: bool, d: string, s: Server) returns (w2: string, w3: string)
    requires MatchDirective(indent, hash, d) == Some(s)
    ensures s.indent == indent && s.commented == hash
    ensures d == "server" + (w2 + (s.address + (w3 + (";" + s.tail)))) && Spaces(w2) && Spaces(w3) && w2 != ""
    ensures AddressText(s.address) && TailText(s.tail)
  {
    hide IsSpace;
    hide MatchAddress;
    assert d == "server" + d[6..];
    var a;
    w2, a := Leading(d[6..]);
    w3 := MatchedAddress(indent, hash, a, s);
  }

  lemma MatchedAddress(indent: string, hash: bool, a: string, s: Server) returns (w3: string)
    requires MatchAddress(indent, hash, a) == Some(s)
    ensures s.indent == indent && s.commented == hash
    ensures a == s.address + (w3 + (";" + s.tail)) && Spaces(w3) && AddressText(s.address) && TailText(s.tail)
  {
    AddressParts(indent, hash, a, s);
    RunIsAddress(a);
    RunIsTail(s.tail);
    hide *;
    var rest := a[Run(a, IsAddress)..];
    var after;
    w3, after := Leading(rest);
    Prefixed(after, ";");
    CutAt(a, Run(a, IsAddress));
  }

  lemma CutAt(a: string, n: nat)
    requires n <= |a|
    ensures a == a[..n] + a[n..]
  {
  }

  lemma AddressParts(indent: string, hash: bool, a: string, s: Server)
    requires MatchAddress(indent, hash, a) == Some(s)
    ensures var n := Run(a, IsAddress);
            && n > 0 && StartsWith(Skip(a[n..]), ";") && Skip(a[n..]) != ""
            && s == Server(indent, hash, a[..n], Skip(a[n..])[1..]) && Run(s.tail, IsDot) == |s.tail|
  {
    hide IsSpace;
    hide Run;
  }

  lemma RunIsAddress(a: string)
    requires Run(a, IsAddress) > 0
    ensures AddressText(a[..Run(a, IsAddress)])
  {
    hide IsSpace;
    hide Run;
    forall i | 0 <= i < Run(a, IsAddress) ensures !IsSpace(a[i]) && a[i] != ';' { assert IsAddress(a[i]); }
  }

  lemma RunIsTail(t: string)
    requires Run(t, IsDot) == |t|
    ensures TailText(t)
  {
    hide Run;
    forall i | 0 <= i < |t| ensures t[i] as int !in {10, 13, 0x2028, 0x2029} { assert IsDot(t[i]); }
  }

  // ---------------------------------------------------------------- the lines of a block

  /** White space, `upstream`, white space, `fsms_app`, perhaps white space, and an opening brace. */
  ghost predicate StartLine(line: string, a: string, b: string, c: string, rest: string) {
    && line == a + ("upstream" + (b + ("fsms_app" + (c + ("{" + rest)))))
    && Spaces(a) && Spaces(b) && Spaces(c) && b != ""
  }

  lemma UpstreamStartMeans(line: string)
    ensures IsUpstreamStart(line) <==> exists a, b, c, rest :: StartLine(line, a, b, c, rest)
  {
    if IsUpstreamStart(line) { StartsLine(line); }
    forall a, b, c, rest | StartLine(line, a, b, c, rest) ensures IsUpstreamStart(line) {
      LineStarts(line, a, b, c, rest);
    }
  }

  /** The part from the name on. */
  predicate NameAndBrace(y: string) {
    StartsWith(y, "fsms_app") && StartsWith(Skip(y[8..]), "{")
  }

  lemma StartIs(line: string)
    ensures IsUpstreamStart(line) <==>
            var x := Skip(line);
            StartsWith(x, "upstream") && Run(x[8..], IsSpace) > 0 && NameAndBrace(Skip(x[8..]))
  {
    hide IsSpace;
    hide Run;
    hide StartsWith;
    var x := Skip(line);
    if StartsWith(x, "upstream") { Prefixed(x, "upstream"); }
    var y := Skip(x[if |x| < 8 then |x| else 8..]);
    if StartsWith(y, "fsms_app") { Prefixed(y, "fsms_app"); }
  }

  lemma Prefixed(x: string, p: string)
    requires StartsWith(x, p)
    ensures |p| <= |x| && x == p + x[|p|..]
  {
  }

  lemma NameMeans(y: string) returns (c: string, rest: string)
    requires NameAndBrace(y)
    ensures y == "fsms_app" + (c + ("{" + rest)) && Spaces(c)
  {
    Prefixed(y, "fsms_app");
    var z;
    c, z := Leading(y[8..]);
    Prefixed(z, "{");
    rest := z[1..];
  }

  lemma StartsLine(line: string)
    requires IsUpstreamStart(line)
    ensures exists a, b, c, rest :: StartLine(line, a, b, c, rest)
  {
    StartIs(line);
    hide IsSpace;
    hide IsUpstreamStart;
    hide NameAndBrace;
    var a, x := Leading(line);
    Prefixed(x, "upstream");
    var b, y := Leading(x[8..]);
    var c, rest := NameMeans(y);
    hide StartsWith;
    assert StartLine(line, a, b, c, rest);
  }

  lemma NameIs(c: string, rest: string)
    requires Spaces(c)
    ensures NameAndBrace("fsms_app" + (c + ("{" + rest)))
  {
    assert !IsSpace('{');
    hide IsSpace;
    var z := "{" + rest;
    var y := "fsms_app" + (c + z);
    SkipOver(c, z);
    assert y[8..] == c + z && y[..8] == "fsms_app" && z[..1] == "{";
  }

  lemma LineStarts(line: string, a: string, b: string, c: string, rest: string)
    requires StartLine(line, a, b, c, rest)
    ensures IsUpstreamStart(line)
  {
    assert !IsSpace('u') && !IsSpace('f');
    NameIs(c, rest);
    StartIs(line);
    hide IsSpace;
    hide IsUpstreamStart;
    hide NameAndBrace;
    var y := "fsms_app" + (c + ("{" + rest));
    var x := "upstream" + (b + y);
    assert y[0] == 'f' && x[0] == 'u';
    SkipOver(a, x);
    assert x[8..] == b + y && x[..8] == "upstream";
    SkipOver(b, y);
  }

  /** White space and a closing brace. */
  lemma BlockEndMeans(line: string)
    ensures IsBlockEnd(line) <==> exists a, rest :: line == a + ("}" + rest) && Spaces(a)
  {
    assert !IsSpace('}');
    hide IsSpace;
    if IsBlockEnd(line) {
      var a, x := Leading(line);
      assert x == "}" + x[1..];
    }
    forall a, rest | line == a + ("}" + rest) && Spaces(a) ensures IsBlockEnd(line) {
      SkipOver(a, "}" + rest);
      assert ("}" + rest)[..1] == "}";
    }
  }

  // ---------------------------------------------------------------- ports

  ghost predicate Digits(s: string) {
    s != "" && forall i | 0 <= i < |s| :: s[i] in "0123456789"
  }

  lemma DigitMeans(c: char)
    ensures IsDigit(c) <==> c in "0123456789"
  {
    if '0' <= c <= '9' { assert "0123456789"[c as int - 48] == c; }
  }

  /** The value of a decimal numeral. */
  ghost function Numeral(s: string): nat {
    if s == "" then 0 else 10 * Numeral(s[..|s| - 1]) + Place(s[|s| - 1])
  }

  ghost function Place(c: char): nat {
    match c
    case '1' => 1
    case '2' => 2
    case '3' => 3
    case '4' => 4
    case '5' => 5
    case '6' => 6
    case '7' => 7
    case '8' => 8
    case '9' => 9
    case _ => 0
  }

  lemma {:induction false} NumeralIsValue(s: string)
    requires forall i | 0 <= i < |s| :: IsDigit(s[i])
    ensures DigitsValue(s) == Numeral(s)
  {
    if s != "" {
      NumeralIsValue(s[..|s| - 1]);
      assert IsDigit(s[|s| - 1]);
    }
  }

  ghost predicate PortText(address: string, host: string, digits: string) {
    address == host + (":" + digits) && Digits(digits)
  }

  /** The port of an address is the numeral behind its last colon, when there is nothing else behind it. */
  lemma PortMeans(address: string, port: nat)
    ensures PortOf(address) == Some(port) <==>
            exists host, digits :: PortText(address, host, digits) && Numeral(digits) == port
  {
    if PortOf(address) == Some(port) {
      var host, digits := PortIs(address, port);
    }
    forall host, digits | PortText(address, host, digits) && Numeral(digits) == port
      ensures PortOf(address) == Some(port)
    {
      IsPort(address, host, digits);
    }
  }

  lemma PortIs(address: string, port: nat) returns (host: string, digits: string)
    requires PortOf(address) == Some(port)
    ensures PortText(address, host, digits) && Numeral(digits) == port
  {
    var n := TrailingDigits(address);
    var m := |address| - n - 1;
    host, digits := address[..m], address[m + 1..];
    forall i | 0 <= i < n ensures digits[i] in "0123456789" { DigitMeans(digits[i]); }
    NumeralIsValue(digits);
    hide TrailingDigits;
    hide Numeral;
    hide DigitsValue;
    hide IsDigit;
    assert address == host + (":" + digits);
  }

  lemma IsPort(address: string, host: string, digits: string)
    requires PortText(address, host, digits)
    ensures PortOf(address) == Some(Numeral(digits))
  {
    forall i | 0 <= i < |digits| ensures IsDigit(digits[i]) { DigitMeans(digits[i]); }
    TrailingOver(host + ":", digits);
    NumeralIsValue(digits);
    hide TrailingDigits;
    hide Numeral;
    hide DigitsValue;
    hide IsDigit;
    assert address == host + ":" + digits && address[|address| - |digits|..] == digits;
  }

  lemma {:induction false} TrailingOver(a: string, digits: string)
    requires a != "" && !IsDigit(a[|a| - 1]) && forall i | 0 <= i < |digits| :: IsDigit(digits[i])
    ensures TrailingDigits(a + digits) == |digits|
  {
    var s := a + digits;
    if digits == "" {
      assert s == a;
    } else {
      assert s[..|s| - 1] == a + digits[..|digits| - 1];
      TrailingOver(a, digits[..|digits| - 1]);
    }
  }

  // ---------------------------------------------------------------- which line serves

  /** The first opening line and the first closing line behind it. */
  ghost predicate IsBlock(ls: seq<string>, s: nat, e: nat) {
    && s < e < |ls| && IsUpstreamStart(ls[s]) && (forall k | 0 <= k < s :: !IsUpstreamStart(ls[k]))
    && IsBlockEnd(ls[e]) && forall k | s < k < e :: !IsBlockEnd(ls[k])
  }

  /** The one line between the two that is a server and not commented out. */
  ghost predicate Serves(ls: seq<string>, s: nat, e: nat, i: nat) {
    s < i < e < |ls| && IsActive(ls[i]) && forall k | s < k < e && k != i :: !IsActive(ls[k])
  }

  /** The port of a server line, if it has one. */
  ghost function PortAt(line: string): Option<nat>
    requires IsActive(line)
  {
    PortOf(MatchServer(line).value.address)
  }

  lemma BlockMeans(ls: seq<string>, s: nat, e: nat)
    ensures FindBlock(ls) == Ok(Block(s, e)) <==> IsBlock(ls, s, e)
    ensures FindBlock(ls) == Err(NoBlock) <==> forall k | 0 <= k < |ls| :: !IsUpstreamStart(ls[k])
    ensures FindBlock(ls) == Err(Unclosed) <==>
            (exists k | 0 <= k < |ls| :: IsUpstreamStart(ls[k])) && forall i, j :: !IsBlock(ls, i, j)
    ensures FindBlock(ls).Err? ==> FindBlock(ls).error in {NoBlock, Unclosed}
  {
    hide IsUpstreamStart;
    hide IsBlockEnd;
    hide FirstFrom;
    var first := FirstFrom(ls, 0, IsUpstreamStart);
    if first.Some? {
      var last := FirstFrom(ls, first.value + 1, IsBlockEnd);
      if last.Some? {
        assert IsBlock(ls, first.value, last.value);
        forall i, j | IsBlock(ls, i, j) ensures i == first.value && j == last.value {
        }
      } else {
        forall i, j ensures !IsBlock(ls, i, j) {
        }
      }
    }
  }

  /** Why there is nothing to read. */
  lemma NoReading(text: string)
    ensures var ls := Lines(text);
            && (ParseActive(text) == Err(NoBlock) <==> forall k | 0 <= k < |ls| :: !IsUpstreamStart(ls[k]))
            && (ParseActive(text) == Err(Unclosed) <==>
                  (exists k | 0 <= k < |ls| :: IsUpstreamStart(ls[k])) && forall s, e :: !IsBlock(ls, s, e))
  {
    var ls := Lines(text);
    BlockMeans(ls, 0, 0);
    hide *;
    ReadsBlock(text);
  }

  lemma ReadsBlock(text: string)
    ensures match FindBlock(Lines(text))
            case Err(e) => ParseActive(text) == Err(e)
            case Ok(b) =>
              && ParseActive(text) == ActiveIn(Lines(text), b)
              && (ParseActive(text).Err? ==> ParseActive(text).error in {NotOneActive, UnknownPort})
  {
    hide Lines;
    hide FindBlock;
    hide Count;
    hide FirstFrom;
    ActiveMeans();
    hide IsActive;
  }

  /** Blue serves on port 3000 and green on 3001. In a block the one line that serves decides, if there is just one. */
  lemma ReadingMeans(text: string, s: nat, e: nat, i: nat)
    requires IsBlock(Lines(text), s, e)
    ensures ParseActive(text) == Err(NotOneActive) <==> forall k :: !Serves(Lines(text), s, e, k)
    ensures Serves(Lines(text), s, e, i) ==>
              i < |Lines(text)| && IsActive(Lines(text)[i]) &&
              ParseActive(text) == ColorAt(Lines(text)[i])
  {
    var ls := Lines(text);
    BlockMeans(ls, s, e);
    ReadsBlock(text);
    assert s < e < |ls|;
    hide *;
    InBlock(ls, Block(s, e));
    if Serves(ls, s, e, i) { LineServes(ls, Block(s, e), i); }
  }

  lemma ReadingCases(ls: seq<string>, b: Block)
    requires b.start < b.end < |ls|
    ensures var first := FirstFrom(ls, b.start + 1, IsActive);
            if Count(ls, b.start + 1, b.end, IsActive) != 1 || first.None? then ActiveIn(ls, b) == Err(NotOneActive)
            else IsActive(ls[first.value]) && ActiveIn(ls, b) == ColorAt(ls[first.value])
  {
    hide Count;
    hide FirstFrom;
    hide PortOf;
    hide MatchServer;
  }

  /** Blue on its port, green on its, and no other is known. */
  ghost function ColorAt(line: string): Result<Color, Error>
    requires IsActive(line)
  {
    if PortAt(line) == Some(3000) then Ok(Blue) else if PortAt(line) == Some(3001) then Ok(Green) else Err(UnknownPort)
  }

  /** What serves is the first active line. */
  lemma FirstServes(ls: seq<string>, s: nat, e: nat, i: nat)
    requires s < e < |ls| && Serves(ls, s, e, i)
    ensures i < |ls| && IsActive(ls[i]) && FirstFrom(ls, s + 1, IsActive) == Some(i)
  {
    hide IsActive;
    hide FirstFrom;
    assert FirstFrom(ls, s + 1, IsActive).Some?;
  }

  lemma InBlock(ls: seq<string>, b: Block)
    requires b.start < b.end < |ls|
    ensures ActiveIn(ls, b) == Err(NotOneActive) <==> forall i :: !Serves(ls, b.start, b.end, i)
  {
    CountServes(ls, b.start, b.end);
    ReadingCases(ls, b);
    hide *;
    if i: nat :| Serves(ls, b.start, b.end, i) {
      LineServes(ls, b, i);
      NotNone(ls[i]);
    }
  }

  lemma NotNone(line: string)
    requires IsActive(line)
    ensures ColorAt(line) != Err(NotOneActive)
  {
    hide PortAt;
    hide IsActive;
  }

  lemma LineServes(ls: seq<string>, b: Block, i: nat)
    requires b.start < b.end < |ls| && Serves(ls, b.start, b.end, i)
    ensures i < |ls| && IsActive(ls[i]) && ActiveIn(ls, b) == ColorAt(ls[i])
  {
    CountServes(ls, b.start, b.end);
    ReadingCases(ls, b);
    FirstServes(ls, b.start, b.end, i);
    hide *;
  }

  lemma ActiveMeans()
    ensures forall line | IsActive(line) :: MatchServer(line).Some?
  {
  }

  lemma CountServes(ls: seq<string>, s: nat, e: nat)
    requires s < e < |ls|
    ensures Count(ls, s + 1, e, IsActive) == 1 <==> exists i :: Serves(ls, s, e, i)
  {
    hide IsActive;
    if Count(ls, s + 1, e, IsActive) == 1 {
      var i := OnlyOne(ls, s + 1, e, IsActive);
      assert Serves(ls, s, e, i);
    }
    forall i: nat | Serves(ls, s, e, i) ensures Count(ls, s + 1, e, IsActive) == 1 {
      JustOne(ls, s + 1, e, IsActive, i);
    }
  }

  lemma {:induction false} OnlyOne(ls: seq<string>, i: nat, j: nat, p: string -> bool) returns (k: nat)
    requires i <= j <= |ls| && Count(ls, i, j, p) == 1
    ensures i <= k < j && p(ls[k]) && forall m | i <= m < j && m != k :: !p(ls[m])
  {
    if p(ls[j - 1]) {
      k := j - 1;
    } else {
      k := OnlyOne(ls, i, j - 1, p);
    }
  }

  lemma {:induction false} JustOne(ls: seq<string>, i: nat, j: nat, p: string -> bool, k: nat)
    requires i <= k < j <= |ls| && p(ls[k]) && forall m | i <= m < j && m != k :: !p(ls[m])
    ensures Count(ls, i, j, p) == 1
  {
    if k == j - 1 {
      assert Count(ls, i, j - 1, p) == 0;
    } else {
      JustOne(ls, i, j - 1, p, k);
    }
  }
}
