/** The nginx upstream block: reading which colour serves, and rewriting it to another colour. */
module Upstream {
  import opened TextLines
  import opened Texts
  import opened Wrappers

  datatype Color = Blue | Green

  datatype Error = NoBlock | Unclosed | NoTargetPort | Untouched | NotOneActive | UnknownPort

  /** A server directive: what stands before it, whether it is commented out, what follows. */
  datatype Server = Server(indent: string, commented: bool, address: string, tail: string)

  datatype Block = Block(start: nat, end: nat)

  function PortOfColor(c: Color): nat {
    if c.Blue? then 3000 else 3001
  }

  function ColorOfPort(p: Option<nat>): Option<Color> {
    if p == Some(3000) then Some(Blue) else if p == Some(3001) then Some(Green) else None
  }

  // ---------------------------------------------------------------- characters

  predicate IsAddress(c: char) {
    !IsSpace(c) && c != ';'
  }

  predicate IsDigit(c: char) {
    '0' <= c <= '9'
  }

  /** What a dot matches: anything but a line terminator. */
  predicate IsDot(c: char) {
    c != '\n' && c != '\r' && c as int != 0x2028 && c as int != 0x2029
  }

  /** The number of leading characters of s that pass. */
  function Run(s: string, p: char -> bool): (n: nat)
    ensures n <= |s|
    ensures forall i | 0 <= i < n :: p(s[i])
    ensures n < |s| ==> !p(s[n])
  {
    if s == "" || !p(s[0]) then 0 else 1 + Run(s[1..], p)
  }

  function Skip(s: string): string {
    s[Run(s, IsSpace)..]
  }

  // ---------------------------------------------------------------- matching one line

  /** `upstream fsms_app {` at the start of the line. */
  predicate IsUpstreamStart(line: string) {
    var a := Skip(line);
    StartsWith(a, "upstream") &&
    var b := a[8..];
    Run(b, IsSpace) > 0 && StartsWith(Skip(b), "fsms_app") && StartsWith(Skip(Skip(b)[8..]), "{")
  }

  predicate IsBlockEnd(line: string) {
    StartsWith(Skip(line), "}")
  }

  /** Whether and how a line is a single server directive, commented out or not. */
  function MatchServer(line: string): Option<Server> {
    var i := Run(line, IsSpace);
    MatchBody(line[..i], line[i..])
  }

  function MatchBody(indent: string, s: string): Option<Server> {
    var hash := StartsWith(s, "#");
    MatchDirective(indent, hash, if hash then Skip(s[1..]) else s)
  }

  function MatchDirective(indent: string, hash: bool, s: string): Option<Server> {
    if !StartsWith(s, "server") || Run(s[6..], IsSpace) == 0 then None
    else MatchAddress(indent, hash, Skip(s[6..]))
  }

  function MatchAddress(indent: string, hash: bool, s: string): Option<Server> {
    var n := Run(s, IsAddress);
    if n == 0 then None
    else
      var after := Skip(s[n..]);
      if !StartsWith(after, ";") || Run(after[1..], IsDot) < |after| - 1 then None
      else Some(Server(indent, hash, s[..n], after[1..]))
  }

  function DigitsValue(s: string): nat
    requires forall i | 0 <= i < |s| :: IsDigit(s[i])
  {
    if s == "" then 0
    else
      var last := s[|s| - 1];
      assert IsDigit(last);
      DigitsValue(s[..|s| - 1]) * 10 + (last as int - '0' as int)
  }

  /** The number of trailing digits of s. */
  function TrailingDigits(s: string): (n: nat)
    ensures n <= |s| && forall i | |s| - n <= i < |s| :: IsDigit(s[i])
  {
    if s == "" || !IsDigit(s[|s| - 1]) then 0 else 1 + TrailingDigits(s[..|s| - 1])
  }

  /** The port of an address: the digits at its end, behind a colon. */
  function PortOf(address: string): Option<nat> {
    var n := TrailingDigits(address);
    if n == 0 || n == |address| || address[|address| - n - 1] != ':' then None
    else Some(DigitsValue(address[|address| - n..]))
  }

  predicate HasPort(line: string, port: nat) {
    MatchServer(line).Some? && PortOf(MatchServer(line).value.address) == Some(port)
  }

  predicate IsActive(line: string) {
    MatchServer(line).Some? && !MatchServer(line).value.commented
  }

  // ---------------------------------------------------------------- the block

  /** The first index from i on whose line passes. */
  function FirstFrom(ls: seq<string>, i: nat, p: string -> bool): (r: Option<nat>)
    requires i <= |ls|
    ensures r.Some? ==> i <= r.value < |ls| && p(ls[r.value]) && forall k | i <= k < r.value :: !p(ls[k])
    ensures r.None? ==> forall k | i <= k < |ls| :: !p(ls[k])
    decreases |ls| - i
  {
    if i == |ls| then None else if p(ls[i]) then Some(i) else FirstFrom(ls, i + 1, p)
  }

  /** From the first `upstream fsms_app {` line to the first line behind it that closes a block. */
  function FindBlock(ls: seq<string>): (r: Result<Block, Error>)
    ensures r.Ok? ==> r.value.start < r.value.end < |ls|
  {
    var s := FirstFrom(ls, 0, IsUpstreamStart);
    if s.None? then Err(NoBlock)
    else
      var e := FirstFrom(ls, s.value + 1, IsBlockEnd);
      if e.None? then Err(Unclosed) else Ok(Block(s.value, e.value))
  }

  /** Lines i up to j that pass. */
  function Count(ls: seq<string>, i: nat, j: nat, p: string -> bool): (n: nat)
    requires i <= j <= |ls|
    ensures n == 0 <==> forall k | i <= k < j :: !p(ls[k])
  {
    if i == j then 0 else Count(ls, i, j - 1, p) + if p(ls[j - 1]) then 1 else 0
  }

  /** The test for a server line on the port. */
  function OnPort(port: nat): string -> bool {
    l => HasPort(l, port)
  }

  /** The colour that serves: there must be exactly one active server line, on a known port. */
  function ActiveIn(ls: seq<string>, b: Block): Result<Color, Error>
    requires b.start < b.end < |ls|
  {
    if Count(ls, b.start + 1, b.end, IsActive) != 1 then Err(NotOneActive)
    else
      var i := FirstFrom(ls, b.start + 1, IsActive);
      if i.None? then Err(NotOneActive) else ActiveColor(ls[i.value])
  }

  function ActiveColor(line: string): Result<Color, Error>
    requires MatchServer(line).Some?
  {
    match ColorOfPort(PortOf(MatchServer(line).value.address))
    case None => Err(UnknownPort)
    case Some(c) => Ok(c)
  }

  function ActiveOf(ls: seq<string>): Result<Color, Error> {
    match FindBlock(ls)
    case Err(e) => Err(e)
    case Ok(b) => ActiveIn(ls, b)
  }

  function ParseActive(text: string): Result<Color, Error> {
    ActiveOf(Lines(text))
  }

  // ---------------------------------------------------------------- rewriting

  function ServerText(s: Server): string {
    s.indent + (if s.commented then "# " else "") + "server " + s.address + ";" + s.tail
  }

  /** A server line of the block for the target port: active on that port, commented out on others. */
  function Rewritten(line: string, port: nat): string {
    match MatchServer(line)
    case None => line
    case Some(s) =>
      if PortOf(s.address) == Some(port) then ServerText(s.(commented := false))
      else if !s.commented then ServerText(s.(commented := true))
      else line
  }

  /** The lines with those from i up to j rewritten. */
  function RewrittenLines(ls: seq<string>, i: nat, j: nat, port: nat): (r: seq<string>)
    requires i <= j <= |ls|
    ensures |r| == |ls| && forall k | 0 <= k < |ls| :: r[k] == if i <= k < j then Rewritten(ls[k], port) else ls[k]
  {
    seq(|ls|, k requires 0 <= k < |ls| => if i <= k < j then Rewritten(ls[k], port) else ls[k])
  }

  /** The lines the rewriting works on: split at line ends, and one more trailing CR removed. */
  function Stripped(text: string): (r: seq<string>)
    ensures r != []
  {
    Chops(Lines(text))
  }

  /** The text of the rewritten lines, given the block and that the target port is in it. */
  function Output(text: string, b: Block, port: nat): string
    requires b.start < b.end <= |Stripped(text)|
  {
    Join(RewrittenLines(Stripped(text), b.start + 1, b.end, port), DetectEol(text))
  }

  /** Point the block at the target colour. */
  function Render(text: string, target: Color): Result<string, Error> {
    var ls := Stripped(text);
    match FindBlock(ls)
    case Err(e) => Err(e)
    case Ok(b) =>
      if Count(ls, b.start + 1, b.end, OnPort(PortOfColor(target))) == 0 then Err(NoTargetPort)
      else
        var out := Output(text, b, PortOfColor(target));
        match ParseActive(out)
        case Err(e) => Err(e)
        case Ok(_) => Ok(out)
  }

  // ---------------------------------------------------------------- runs of characters

  lemma {:induction false} RunOver(a: string, b: string, p: char -> bool)
    requires forall i | 0 <= i < |a| :: p(a[i])
    requires b == "" || !p(b[0])
    ensures Run(a + b, p) == |a| && (a + b)[|a|..] == b && (a + b)[..|a|] == a
  {
    if a == "" {
      assert a + b == b;
    } else {
      assert (a + b)[0] == a[0] && (a + b)[1..] == a[1..] + b;
      RunOver(a[1..], b, p);
    }
  }

  lemma SkipOver(a: string, b: string)
    requires forall i | 0 <= i < |a| :: IsSpace(a[i])
    requires b == "" || !IsSpace(b[0])
    ensures Skip(a + b) == b && Run(a + b, IsSpace) == |a|
  {
    RunOver(a, b, IsSpace);
  }

  /** The parts of a server line as the expression captures them. */
  ghost predicate Captured(s: Server) {
    && (forall i | 0 <= i < |s.indent| :: IsSpace(s.indent[i]))
    && s.address != "" && (forall i | 0 <= i < |s.address| :: IsAddress(s.address[i]))
    && (forall i | 0 <= i < |s.tail| :: IsDot(s.tail[i]))
  }

  lemma AddressCaptured(indent: string, hash: bool, s: string)
    requires MatchAddress(indent, hash, s).Some? && forall i | 0 <= i < |indent| :: IsSpace(indent[i])
    ensures Captured(MatchAddress(indent, hash, s).value)
  {
    hide IsSpace;
    var n := Run(s, IsAddress);
    var after := Skip(s[n..]);
    forall i | 0 <= i < |after| - 1 ensures IsDot(after[1..][i]) {
      assert Run(after[1..], IsDot) == |after| - 1;
    }
  }

  lemma MatchCaptured(line: string)
    requires MatchServer(line).Some?
    ensures Captured(MatchServer(line).value)
  {
    hide MatchAddress;
    hide IsSpace;
    var i := Run(line, IsSpace);
    var rest := line[i..];
    var hash := StartsWith(rest, "#");
    var s := if hash then Skip(rest[1..]) else rest;
    AddressCaptured(line[..i], hash, Skip(s[6..]));
  }

  lemma MatchAddressText(indent: string, hash: bool, s: Server)
    requires Captured(s)
    ensures MatchAddress(indent, hash, s.address + ";" + s.tail) == Some(Server(indent, hash, s.address, s.tail))
  {
    var after := ";" + s.tail;
    assert s.address + ";" + s.tail == s.address + after;
    RunOver(s.address, after, IsAddress);
    SkipOver("", after);
    assert "" + after == after && after[1..] == s.tail;
    RunOver(s.tail, "", IsDot);
    assert s.tail + "" == s.tail;
  }

  lemma MatchDirectiveText(indent: string, hash: bool, s: Server)
    requires Captured(s)
    ensures MatchDirective(indent, hash, "server " + s.address + ";" + s.tail) ==
            Some(Server(indent, hash, s.address, s.tail))
  {
    var rest := s.address + ";" + s.tail;
    var t := "server " + s.address + ";" + s.tail;
    assert t == "server" + (" " + rest);
    assert t[6..] == " " + rest;
    SkipOver(" ", rest);
    MatchAddressText(indent, hash, s);
  }

  /** A server line written from captured parts is captured as the same parts. */
  lemma MatchServerText(s: Server)
    requires Captured(s)
    ensures MatchServer(ServerText(s)) == Some(s)
  {
    hide MatchBody;
    hide IsSpace;
    var body := "server " + s.address + ";" + s.tail;
    var rest := if s.commented then "# " + body else body;
    NotSpaces();
    assert rest[0] == if s.commented then '#' else 's';
    RunOver(s.indent, rest, IsSpace);
    ServerTextParts(s);
    MatchBodyText(s);
  }

  lemma MatchBodyText(s: Server)
    requires Captured(s)
    ensures var body := "server " + s.address + ";" + s.tail;
            MatchBody(s.indent, if s.commented then "# " + body else body) == Some(s)
  {
    hide MatchDirective;
    hide IsSpace;
    hide Captured;
    var body := "server " + s.address + ";" + s.tail;
    MatchDirectiveText(s.indent, s.commented, s);
    NotSpaces();
    assert body[0] == 's';
    if s.commented {
      var t := "# " + body;
      assert t[0] == '#' && t[1..] == " " + body;
      SkipOver(" ", body);
    }
  }

  lemma ServerTextParts(s: Server)
    ensures ServerText(s) == s.indent + (if s.commented then "# " + ("server " + s.address + ";" + s.tail)
                                         else "server " + s.address + ";" + s.tail)
  {
  }

  lemma NotSpaces()
    ensures !IsSpace('#') && !IsSpace('s') && !IsSpace('}') && !IsSpace('u') && IsSpace(' ')
  {
  }

  // ---------------------------------------------------------------- what rewriting one line does

  /** Rewriting keeps a server line's indent, address and tail, and makes it active exactly when it
      is on the target port; other lines it leaves alone. */
  lemma RewrittenServer(line: string, port: nat)
    ensures MatchServer(Rewritten(line, port)) ==
            match MatchServer(line)
            case None => None
            case Some(s) => Some(s.(commented := PortOf(s.address) != Some(port)))
    ensures MatchServer(line).None? ==> Rewritten(line, port) == line
  {
    hide MatchServer;
    hide PortOf;
    hide ServerText;
    hide Captured;
    if MatchServer(line).Some? {
      var s := MatchServer(line).value;
      MatchCaptured(line);
      CapturedEitherWay(s);
      MatchServerText(s.(commented := false));
      MatchServerText(s.(commented := true));
    }
  }

  lemma CapturedEitherWay(s: Server)
    requires Captured(s)
    ensures Captured(s.(commented := true)) && Captured(s.(commented := false))
  {
    hide IsSpace;
  }

  lemma RewrittenPort(line: string, port: nat, other: nat)
    ensures HasPort(Rewritten(line, port), other) <==> HasPort(line, other)
    ensures IsActive(Rewritten(line, port)) <==> HasPort(line, port)
  {
    hide MatchServer;
    hide PortOf;
    hide Rewritten;
    RewrittenServer(line, port);
  }

  lemma RewrittenTwice(line: string, port: nat)
    ensures Rewritten(Rewritten(line, port), port) == Rewritten(line, port)
  {
    hide MatchServer;
    hide PortOf;
    hide ServerText;
    RewrittenServer(line, port);
  }

  lemma SkipEnd(s: string)
    requires Skip(s) != ""
    ensures s != "" && Skip(s)[|Skip(s)| - 1] == s[|s| - 1]
  {
    hide IsSpace;
  }

  lemma AddressEnd(indent: string, hash: bool, s: string)
    requires MatchAddress(indent, hash, s).Some?
    ensures s != "" && !EndsCr(s)
  {
    hide IsSpace;
    var n := Run(s, IsAddress);
    var after := Skip(s[n..]);
    SkipEnd(s[n..]);
    if |after| > 1 {
      assert IsDot(after[1..][|after| - 2]);
    }
  }

  /** A server line does not end in a CR. */
  lemma ServerEnd(line: string)
    requires MatchServer(line).Some?
    ensures !EndsCr(line)
  {
    hide IsSpace;
    hide MatchAddress;
    hide Skip;
    var i := Run(line, IsSpace);
    var rest := line[i..];
    var hash := StartsWith(rest, "#");
    var s := if hash then Skip(rest[1..]) else rest;
    AddressEnd(line[..i], hash, Skip(s[6..]));
    SkipEnd(s[6..]);
    if hash { SkipEnd(rest[1..]); }
  }

  lemma ServerHead(line: string)
    requires MatchServer(line).Some?
    ensures Skip(line) != "" && (Skip(line)[0] == '#' || Skip(line)[0] == 's')
  {
    hide IsSpace;
    hide MatchAddress;
    hide StartsWith;
    PrefixHead(Skip(line), if StartsWith(Skip(line), "#") then "#" else "server");
  }

  lemma StartHead(line: string)
    requires IsUpstreamStart(line)
    ensures Skip(line) != "" && Skip(line)[0] == 'u'
  {
    hide Skip;
    PrefixHead(Skip(line), "upstream");
  }

  lemma EndHead(line: string)
    requires IsBlockEnd(line)
    ensures Skip(line) != "" && Skip(line)[0] == '}'
  {
    hide Skip;
    PrefixHead(Skip(line), "}");
  }

  /** A server line neither opens the upstream block nor closes a block. */
  lemma ServerNoBound(line: string)
    requires MatchServer(line).Some?
    ensures !IsUpstreamStart(line) && !IsBlockEnd(line)
  {
    hide *;
    ServerHead(line);
    if IsUpstreamStart(line) { StartHead(line); assert false; }
    if IsBlockEnd(line) { EndHead(line); assert false; }
  }

  lemma RewrittenBounds(line: string, port: nat)
    ensures IsUpstreamStart(Rewritten(line, port)) <==> IsUpstreamStart(line)
    ensures IsBlockEnd(Rewritten(line, port)) <==> IsBlockEnd(line)
    ensures EndsCr(Rewritten(line, port)) <==> EndsCr(line)
  {
    hide *;
    RewrittenServer(line, port);
    if MatchServer(line).Some? {
      ServerNoBound(line);
      ServerNoBound(Rewritten(line, port));
      ServerEnd(line);
      ServerEnd(Rewritten(line, port));
    }
  }

  lemma RewrittenNoLf(line: string, port: nat)
    requires LF !in line
    ensures LF !in Rewritten(line, port)
  {
    hide MatchServer;
    hide IsSpace;
    if MatchServer(line).Some? {
      var s := MatchServer(line).value;
      MatchCaptured(line);
      IndentNoLf(line);
      assert LF !in s.address by {
        assert forall i | 0 <= i < |s.address| :: IsAddress(s.address[i]);
        LfIsSpace();
      }
    }
  }

  lemma LfIsSpace()
    ensures IsSpace(LF)
  {
  }

  lemma IndentNoLf(line: string)
    requires LF !in line && MatchServer(line).Some?
    ensures LF !in MatchServer(line).value.indent
  {
    hide IsSpace;
  }

  // ---------------------------------------------------------------- a trailing CR does not move the block

  lemma SkipChop(s: string)
    ensures Skip(s) != "" ==> Skip(Chop(s)) == Chop(Skip(s))
    ensures Skip(s) == "" ==> Skip(Chop(s)) == ""
  {
    CrIsSpace();
    hide IsSpace;
    if EndsCr(s) {
      var t := s[..|s| - 1];
      var n := Run(s, IsSpace);
      if n == |s| {
        assert forall i | 0 <= i < |t| :: IsSpace(t[i]);
        assert Run(t, IsSpace) == |t|;
      } else {
        RunOver(s[..n], s[n..|s| - 1], IsSpace);
        assert s[..n] + s[n..|s| - 1] == t;
        assert Skip(s)[..|Skip(s)| - 1] == s[n..|s| - 1];
        SkipEnd(s);
      }
    } else if Skip(s) != "" {
      SkipEnd(s);
    }
  }

  lemma CrIsSpace()
    ensures IsSpace(CR)
  {
  }

  lemma StartsChop(s: string, p: string)
    requires p != "" && !EndsCr(p)
    ensures StartsWith(Chop(s), p) <==> StartsWith(s, p)
    ensures StartsWith(s, p) ==> Chop(s)[|p|..] == Chop(s[|p|..])
  {
    if StartsWith(s, p) && EndsCr(s) {
      assert s[..|p|][|p| - 1] == s[|p| - 1];
      assert |s| > |p|;
      assert Chop(s)[..|p|] == s[..|p|];
    }
    if StartsWith(Chop(s), p) && EndsCr(s) {
      assert s[..|p|] == Chop(s)[..|p|];
    }
  }

  lemma BlockEndChop(line: string)
    ensures IsBlockEnd(Chop(line)) <==> IsBlockEnd(line)
  {
    hide Skip;
    hide StartsWith;
    hide Chop;
    SkipChop(line);
    StartsChop(Skip(line), "}");
    EmptyStarts("}");
  }

  lemma EmptyStarts(p: string)
    requires p != ""
    ensures !StartsWith("", p)
  {
  }

  /** Behind white space, and still there without a trailing CR: the text p. */
  lemma SkippedChop(s: string, p: string)
    requires p != "" && !EndsCr(p)
    ensures StartsWith(Skip(Chop(s)), p) <==> StartsWith(Skip(s), p)
    ensures StartsWith(Skip(s), p) ==> Skip(Chop(s))[|p|..] == Chop(Skip(s)[|p|..])
  {
    hide Skip;
    hide StartsWith;
    hide Chop;
    SkipChop(s);
    StartsChop(Skip(s), p);
    EmptyStarts(p);
    StartsLength(Skip(s), p);
  }

  lemma StartsLength(s: string, p: string)
    ensures StartsWith(s, p) ==> |p| <= |s|
  {
  }

  lemma RunChop(s: string)
    requires Skip(s) != ""
    ensures Run(Chop(s), IsSpace) == Run(s, IsSpace)
  {
    hide IsSpace;
    SkipChop(s);
    SkipEnd(s);
    SkipLength(s);
    SkipLength(Chop(s));
  }

  lemma SkipLength(s: string)
    ensures |Skip(s)| == |s| - Run(s, IsSpace)
  {
  }

  lemma StartChop(line: string)
    ensures IsUpstreamStart(Chop(line)) <==> IsUpstreamStart(line)
  {
    hide Skip;
    hide StartsWith;
    hide Chop;
    hide Run;
    SkippedChop(line, "upstream");
    if StartsWith(Skip(line), "upstream") {
      StartsLength(Skip(line), "upstream");
      var b := Skip(line)[8..];
      SkippedChop(b, "fsms_app");
      if StartsWith(Skip(b), "fsms_app") {
        StartsLength(Skip(b), "fsms_app");
        RunChop(b);
        SkippedChop(Skip(b)[8..], "{");
      }
    }
  }

  // ---------------------------------------------------------------- lines that agree

  lemma {:induction false} FirstAgree(ls: seq<string>, ms: seq<string>, i: nat, p: string -> bool)
    requires |ls| == |ms| && i <= |ls| && forall k | i <= k < |ls| :: p(ls[k]) == p(ms[k])
    ensures FirstFrom(ls, i, p) == FirstFrom(ms, i, p)
    decreases |ls| - i
  {
    if i < |ls| && !p(ls[i]) {
      FirstAgree(ls, ms, i + 1, p);
    }
  }

  lemma {:induction false} CountAgree(ls: seq<string>, ms: seq<string>, i: nat, j: nat, p: string -> bool,
                                      q: string -> bool)
    requires |ls| == |ms| && i <= j <= |ls| && forall k | i <= k < j :: p(ls[k]) == q(ms[k])
    ensures Count(ls, i, j, p) == Count(ms, i, j, q)
  {
    if i < j {
      CountAgree(ls, ms, i, j - 1, p, q);
    }
  }

  /** A count of one leaves room for one line. */
  lemma {:induction false} CountOne(ls: seq<string>, i: nat, j: nat, p: string -> bool, k: nat, m: nat)
    requires i <= k < j <= |ls| && i <= m < j && p(ls[k]) && p(ls[m]) && Count(ls, i, j, p) == 1
    ensures k == m
  {
    if k < j - 1 && m < j - 1 {
      CountOne(ls, i, j - 1, p, k, m);
    }
  }

  ghost predicate SameBounds(ls: seq<string>, ms: seq<string>) {
    |ls| == |ms| &&
    forall k | 0 <= k < |ls| :: IsUpstreamStart(ls[k]) == IsUpstreamStart(ms[k])
      && IsBlockEnd(ls[k]) == IsBlockEnd(ms[k])
  }

  lemma BlockAgree(ls: seq<string>, ms: seq<string>)
    requires SameBounds(ls, ms)
    ensures FindBlock(ls) == FindBlock(ms)
  {
    hide IsUpstreamStart;
    hide IsBlockEnd;
    FirstAgree(ls, ms, 0, IsUpstreamStart);
    var s := FirstFrom(ls, 0, IsUpstreamStart);
    if s.Some? {
      FirstAgree(ls, ms, s.value + 1, IsBlockEnd);
    }
  }

  lemma RewrittenSameBounds(ls: seq<string>, i: nat, j: nat, port: nat)
    requires i <= j <= |ls|
    ensures SameBounds(ls, RewrittenLines(ls, i, j, port))
  {
    hide IsUpstreamStart;
    hide IsBlockEnd;
    hide Rewritten;
    forall k | 0 <= k < |ls|
      ensures IsUpstreamStart(ls[k]) == IsUpstreamStart(RewrittenLines(ls, i, j, port)[k])
      ensures IsBlockEnd(ls[k]) == IsBlockEnd(RewrittenLines(ls, i, j, port)[k])
    {
      RewrittenBounds(ls[k], port);
    }
  }

  lemma ChoppedSameBounds(ls: seq<string>)
    ensures SameBounds(ls, ChopEnds(ls))
  {
    hide IsUpstreamStart;
    hide IsBlockEnd;
    hide Chop;
    forall k | 0 <= k < |ls|
      ensures IsUpstreamStart(ls[k]) == IsUpstreamStart(ChopEnds(ls)[k])
      ensures IsBlockEnd(ls[k]) == IsBlockEnd(ChopEnds(ls)[k])
    {
      BlockEndChop(ls[k]);
      StartChop(ls[k]);
    }
  }

  lemma RewrittenLinesNoLf(ls: seq<string>, i: nat, j: nat, port: nat)
    requires i <= j <= |ls| && NoLf(ls)
    ensures NoLf(RewrittenLines(ls, i, j, port))
  {
    hide Rewritten;
    forall k | 0 <= k < |ls| ensures LF !in RewrittenLines(ls, i, j, port)[k] {
      RewrittenNoLf(ls[k], port);
    }
  }

  // ---------------------------------------------------------------- what the output parses to

  /** The lines of the output: the rewritten lines, the last CR of a line lost with LF ends. */
  lemma OutputLines(text: string, b: Block, port: nat)
    requires b.start < b.end <= |Stripped(text)|
    ensures var ls := RewrittenLines(Stripped(text), b.start + 1, b.end, port);
            Lines(Output(text, b, port)) == if DetectEol(text).Dos? then ls else ChopEnds(ls)
  {
    hide Rewritten;
    hide DetectEol;
    hide Lines;
    LinesNoLf(text);
    RewrittenLinesNoLf(Stripped(text), b.start + 1, b.end, port);
    LinesOfJoin(RewrittenLines(Stripped(text), b.start + 1, b.end, port), DetectEol(text));
  }

  /** The block is where it was. */
  lemma OutputBlock(text: string, b: Block, port: nat)
    requires FindBlock(Stripped(text)) == Ok(b)
    ensures FindBlock(Lines(Output(text, b, port))) == Ok(b)
  {
    hide Stripped;
    hide FindBlock;
    hide Rewritten;
    hide Lines;
    hide SameBounds;
    hide Output;
    BlockInside(Stripped(text), b);
    var ls := Stripped(text);
    var ms := RewrittenLines(ls, b.start + 1, b.end, port);
    OutputLines(text, b, port);
    RewrittenSameBounds(ls, b.start + 1, b.end, port);
    BlockAgree(ls, ms);
    ChoppedSameBounds(ms);
    BlockAgree(ms, ChopEnds(ms));
  }

  lemma BlockInside(ls: seq<string>, b: Block)
    requires FindBlock(ls) == Ok(b)
    ensures b.start < b.end < |ls|
  {
    hide IsUpstreamStart;
    hide IsBlockEnd;
  }

  /** A server line on the target port is, in the output, an active line on that port. */
  lemma TargetActive(text: string, b: Block, port: nat, k: nat)
    requires FindBlock(Stripped(text)) == Ok(b) && b.start < k < b.end < |Stripped(text)|
             && HasPort(Stripped(text)[k], port)
    ensures var ms := Lines(Output(text, b, port));
            k < |ms| && IsActive(ms[k]) && HasPort(ms[k], port)
  {
    hide Stripped;
    hide FindBlock;
    hide Rewritten;
    hide MatchServer;
    hide Lines;
    hide Output;
    hide PortOf;
    var ls := RewrittenLines(Stripped(text), b.start + 1, b.end, port);
    OutputLines(text, b, port);
    RewrittenPort(Stripped(text)[k], port, port);
    ServerEnd(ls[k]);
  }

  lemma OneActive(ls: seq<string>, b: Block, k: nat)
    requires b.start < k < b.end < |ls| && IsActive(ls[k])
    ensures MatchServer(ls[k]).Some?
    ensures ActiveIn(ls, b) == if Count(ls, b.start + 1, b.end, IsActive) == 1 then ActiveColor(ls[k])
            else Err(NotOneActive)
  {
    hide MatchServer;
    hide PortOf;
    hide ActiveColor;
    var i := FirstFrom(ls, b.start + 1, IsActive);
    if Count(ls, b.start + 1, b.end, IsActive) == 1 {
      assert i.Some? && i.value <= k;
      CountOne(ls, b.start + 1, b.end, IsActive, i.value, k);
    }
  }

  lemma TargetColor(line: string, target: Color)
    requires HasPort(line, PortOfColor(target))
    ensures MatchServer(line).Some? && ActiveColor(line) == Ok(target)
  {
    hide MatchServer;
    hide PortOf;
  }

  /** What Render checks before it writes. */
  lemma RenderParts(text: string, target: Color) returns (b: Block, k: nat)
    requires Render(text, target).Ok?
    ensures FindBlock(Stripped(text)) == Ok(b) && b.start < k < b.end < |Stripped(text)|
    ensures HasPort(Stripped(text)[k], PortOfColor(target))
    ensures Render(text, target).value == Output(text, b, PortOfColor(target))
    ensures ParseActive(Render(text, target).value).Ok?
  {
    hide *;
    RenderUnfolds(text, target);
    b := FindBlock(Stripped(text)).value;
    BlockInside(Stripped(text), b);
    k := SomeTarget(Stripped(text), b.start + 1, b.end, PortOfColor(target));
  }

  /** Whatever the text: when rendering succeeds, exactly the target colour serves in the result, and
      the block has kept its place. */
  lemma RenderSwitches(text: string, target: Color)
    requires Render(text, target).Ok?
    ensures ParseActive(Render(text, target).value) == Ok(target)
    ensures FindBlock(Lines(Render(text, target).value)) == FindBlock(Stripped(text))
  {
    hide *;
    var b, k := RenderParts(text, target);
    var port := PortOfColor(target);
    var ms := Lines(Output(text, b, port));
    TargetActive(text, b, port, k);
    OutputBlock(text, b, port);
    OutputLength(text, b, port);
    OneActive(ms, b, k);
    TargetColor(ms[k], target);
    ParseIsActive(Output(text, b, port), b);
  }

  lemma ParseIsActive(text: string, b: Block)
    requires FindBlock(Lines(text)) == Ok(b)
    ensures b.start < b.end < |Lines(text)| && ParseActive(text) == ActiveIn(Lines(text), b)
  {
    hide ActiveIn;
    hide Lines;
    BlockInside(Lines(text), b);
  }

  lemma OutputLength(text: string, b: Block, port: nat)
    requires b.start < b.end <= |Stripped(text)|
    ensures |Lines(Output(text, b, port))| == |Stripped(text)|
  {
    hide Rewritten;
    hide Lines;
    hide Stripped;
    hide Output;
    hide DetectEol;
    OutputLines(text, b, port);
  }

  // ---------------------------------------------------------------- lines that do not end in a CR

  /** No line ends in a CR once its line end and one more CR are off: at most two CRs before each LF
      and at most one at the end of the text. */
  ghost predicate Tidy(text: string) {
    forall k | 0 <= k < |Stripped(text)| :: !EndsCr(Stripped(text)[k])
  }

  lemma TidyLines(text: string, b: Block, port: nat)
    requires Tidy(text) && b.start < b.end <= |Stripped(text)|
    ensures var ls := RewrittenLines(Stripped(text), b.start + 1, b.end, port);
            && Lines(Output(text, b, port)) == ls && Stripped(Output(text, b, port)) == ls
            && forall k | 0 <= k < |ls| :: !EndsCr(ls[k])
  {
    hide Rewritten;
    hide Lines;
    hide Output;
    hide DetectEol;
    var ls := RewrittenLines(Stripped(text), b.start + 1, b.end, port);
    forall k | 0 <= k < |ls| ensures !EndsCr(ls[k]) {
      assert !EndsCr(Stripped(text)[k]);
      RewrittenBounds(Stripped(text)[k], port);
    }
    OutputLines(text, b, port);
    NothingChopped(ls);
  }

  lemma NothingChopped(ls: seq<string>)
    requires forall k | 0 <= k < |ls| :: !EndsCr(ls[k])
    ensures ChopEnds(ls) == ls && Chops(ls) == ls
  {
  }

  /** With LF ends a line that ends in a CR loses it, and may then be read as an active server line. */
  function Surfaces(e: Eol): string -> bool {
    l => e.Unix? && EndsCr(l) && IsActive(Chop(l))
  }

  /** A line as it is read from the output. */
  function ReadBack(e: Eol, line: string): string {
    if e.Dos? then line else Chop(line)
  }

  lemma SurfacedActive(line: string, port: nat, e: Eol)
    ensures IsActive(ReadBack(e, Rewritten(line, port))) <==> HasPort(line, port) || Surfaces(e)(line)
    ensures !(HasPort(line, port) && Surfaces(e)(line))
  {
    hide *;
    RewrittenPort(line, port, port);
    RewrittenServer(line, port);
    RewrittenBounds(line, port);
    SurfacesIs(line, e);
    ReadBackIs(e, Rewritten(line, port));
    PortIsServer(line, port);
    if MatchServer(line).Some? { ServerEnd(line); }
    NotServerNotActive(line);
  }

  lemma SurfacesIs(line: string, e: Eol)
    ensures Surfaces(e)(line) <==> e.Unix? && EndsCr(line) && IsActive(Chop(line))
  {
  }

  lemma ReadBackIs(e: Eol, line: string)
    ensures ReadBack(e, line) == if e.Unix? && EndsCr(line) then Chop(line) else line
  {
  }

  lemma PortIsServer(line: string, port: nat)
    ensures HasPort(line, port) ==> MatchServer(line).Some?
  {
  }

  lemma NotServerNotActive(line: string)
    ensures IsActive(line) ==> MatchServer(line).Some?
  {
  }

  /** The active lines of the output: those that were on the target port, and those that surface. */
  lemma {:induction false} ActivesOf(ls: seq<string>, ms: seq<string>, i: nat, j: nat, port: nat, e: Eol)
    requires i <= j <= |ls| == |ms| && forall k | i <= k < j :: ms[k] == ReadBack(e, Rewritten(ls[k], port))
    ensures Count(ms, i, j, IsActive) == Count(ls, i, j, OnPort(port)) + Count(ls, i, j, Surfaces(e))
  {
    hide ReadBack;
    hide Rewritten;
    hide IsActive;
    hide Surfaces;
    hide HasPort;
    if i < j {
      ActivesOf(ls, ms, i, j - 1, port, e);
      SurfacedActive(ls[j - 1], port, e);
      OnPortIs(ls[j - 1], port);
    }
  }

  /** Line k of the output's block, from the line it was. */
  lemma OutputLine(text: string, b: Block, port: nat, k: nat)
    requires b.start < k < b.end < |Stripped(text)|
    ensures |Lines(Output(text, b, port))| == |Stripped(text)|
    ensures Lines(Output(text, b, port))[k] == ReadBack(DetectEol(text), Rewritten(Stripped(text)[k], port))
  {
    hide Rewritten;
    hide Lines;
    hide Stripped;
    hide Output;
    hide DetectEol;
    hide Chop;
    OutputLines(text, b, port);
  }

  /** Rendering succeeds exactly when the block is there and holds one server line on the target port,
      commented out or not, and none that surfaces; otherwise it says why. */
  lemma RenderSucceeds(text: string, target: Color)
    ensures Render(text, target) ==
            match FindBlock(Stripped(text))
            case Err(e) => Err(e)
            case Ok(b) =>
              var n := Count(Stripped(text), b.start + 1, b.end, OnPort(PortOfColor(target)));
              var m := Count(Stripped(text), b.start + 1, b.end, Surfaces(DetectEol(text)));
              if n == 0 then Err(NoTargetPort)
              else if n + m > 1 then Err(NotOneActive)
              else Ok(Output(text, b, PortOfColor(target)))
  {
    hide *;
    var ls := Stripped(text);
    RenderUnfolds(text, target);
    if FindBlock(ls).Ok? {
      var b := FindBlock(ls).value;
      BlockInside(ls, b);
      var port := PortOfColor(target);
      var ms := Lines(Output(text, b, port));
      OutputLength(text, b, port);
      if Count(ls, b.start + 1, b.end, OnPort(port)) != 0 {
        forall k | b.start + 1 <= k < b.end ensures ms[k] == ReadBack(DetectEol(text), Rewritten(ls[k], port)) {
          OutputLine(text, b, port, k);
        }
        ActivesOf(ls, ms, b.start + 1, b.end, port, DetectEol(text));
        var k := SomeTarget(ls, b.start + 1, b.end, port);
        OutputBlock(text, b, port);
        TargetActive(text, b, port, k);
        OneActive(ms, b, k);
        TargetColor(ms[k], target);
        ParseIsActive(Output(text, b, port), b);
      }
    }
  }

  /** On tidy text nothing surfaces. */
  lemma TidyNothingSurfaces(text: string, b: Block, e: Eol)
    requires Tidy(text) && b.start < b.end <= |Stripped(text)|
    ensures Count(Stripped(text), b.start + 1, b.end, Surfaces(e)) == 0
  {
    hide IsActive;
    hide Stripped;
  }

  /** So on tidy text the number of lines on the target port decides. */
  lemma RenderSucceedsTidy(text: string, target: Color)
    requires Tidy(text)
    ensures Render(text, target) ==
            match FindBlock(Stripped(text))
            case Err(e) => Err(e)
            case Ok(b) =>
              var n := Count(Stripped(text), b.start + 1, b.end, OnPort(PortOfColor(target)));
              if n == 0 then Err(NoTargetPort) else if n > 1 then Err(NotOneActive)
                else Ok(Output(text, b, PortOfColor(target)))
  {
    hide *;
    RenderSucceeds(text, target);
    if FindBlock(Stripped(text)).Ok? {
      var b := FindBlock(Stripped(text)).value;
      BlockInside(Stripped(text), b);
      TidyNothingSurfaces(text, b, DetectEol(text));
    }
  }

  lemma RenderUnfolds(text: string, target: Color)
    ensures match FindBlock(Stripped(text))
            case Err(e) => Render(text, target) == Err(e)
            case Ok(b) =>
              var n := Count(Stripped(text), b.start + 1, b.end, OnPort(PortOfColor(target)));
              var out := Output(text, b, PortOfColor(target));
              && (n == 0 ==> Render(text, target) == Err(NoTargetPort))
              && (n != 0 ==> Render(text, target) == if ParseActive(out).Ok? then Ok(out)
                  else Err(ParseActive(out).error))
  {
    hide FindBlock;
    hide Stripped;
    hide ParseActive;
    hide Output;
    hide OnPort;
  }

  lemma SomeTarget(ls: seq<string>, i: nat, j: nat, port: nat) returns (k: nat)
    requires i <= j <= |ls| && Count(ls, i, j, OnPort(port)) != 0
    ensures i <= k < j && HasPort(ls[k], port)
  {
    hide HasPort;
    k :| i <= k < j && OnPort(port)(ls[k]);
  }

  // ---------------------------------------------------------------- rendering again

  lemma RewrittenLinesTwice(ls: seq<string>, i: nat, j: nat, port: nat)
    requires i <= j <= |ls|
    ensures RewrittenLines(RewrittenLines(ls, i, j, port), i, j, port) == RewrittenLines(ls, i, j, port)
  {
    hide Rewritten;
    forall k | i <= k < j ensures Rewritten(Rewritten(ls[k], port), port) == Rewritten(ls[k], port) {
      RewrittenTwice(ls[k], port);
    }
  }

  lemma PortsKept(ls: seq<string>, i: nat, j: nat, port: nat, other: nat)
    requires i <= j <= |ls|
    ensures Count(RewrittenLines(ls, i, j, port), i, j, OnPort(other)) == Count(ls, i, j, OnPort(other))
  {
    hide HasPort;
    hide Rewritten;
    var ms := RewrittenLines(ls, i, j, port);
    forall k | i <= k < j ensures OnPort(other)(ls[k]) == OnPort(other)(ms[k]) {
      RewrittenPort(ls[k], port, other);
    }
    CountAgree(ls, ms, i, j, OnPort(other), OnPort(other));
  }

  /** On tidy text the second rendering, for whatever colour, works on the rewritten lines with the
      same line end. */
  lemma SecondRender(text: string, b: Block, port: nat)
    requires Tidy(text) && FindBlock(Stripped(text)) == Ok(b) && b.start < b.end < |Stripped(text)|
    ensures var out, ms := Output(text, b, port), RewrittenLines(Stripped(text), b.start + 1, b.end, port);
            && Tidy(out) && Stripped(out) == ms && FindBlock(ms) == Ok(b) && DetectEol(out) == DetectEol(text)
  {
    hide *;
    var ls := Stripped(text);
    var out, ms := Output(text, b, port), RewrittenLines(ls, b.start + 1, b.end, port);
    TidyLines(text, b, port);
    OutputBlock(text, b, port);
    StripIsTidy(out);
    OutputJoins(text, b, port);
    RewrittenLinesNoLf(ls, b.start + 1, b.end, port);
    EolOfJoin(ms, DetectEol(text));
  }

  lemma StripIsTidy(text: string)
    requires forall k | 0 <= k < |Stripped(text)| :: !EndsCr(Stripped(text)[k])
    ensures Tidy(text)
  {
    hide Stripped;
  }

  lemma OutputJoins(text: string, b: Block, port: nat)
    requires b.start < b.end < |Stripped(text)|
    ensures NoLf(Stripped(text))
    ensures Output(text, b, port) == Join(RewrittenLines(Stripped(text), b.start + 1, b.end, port), DetectEol(text))
  {
    hide RewrittenLines;
    hide Lines;
    LinesNoLf(text);
  }

  lemma TidyAgain(text: string, target: Color)
    requires Tidy(text) && Render(text, target).Ok?
    ensures Render(Render(text, target).value, target) == Render(text, target)
  {
    hide *;
    var ls, port := Stripped(text), PortOfColor(target);
    RenderSucceedsTidy(text, target);
    var b := FindBlock(ls).value;
    BlockInside(ls, b);
    var out := Output(text, b, port);
    SecondRender(text, b, port);
    PortsKept(ls, b.start + 1, b.end, port, port);
    RenderSucceedsTidy(out, target);
    RewrittenLinesTwice(ls, b.start + 1, b.end, port);
    OutputJoins(text, b, port);
    OutputJoins(out, b, port);
  }

  /** Padding a line list with a known line end can be undone. */
  lemma PadUnique(ls: seq<string>, ms: seq<string>, e: Eol)
    requires Pad(ls, e) == Pad(ms, e)
    ensures ls == ms
  {
    forall i | 0 <= i < |ls| ensures ls[i] == ms[i] {
      assert Pad(ls, e)[i] == Pad(ms, e)[i];
      if e.Dos? && i < |ls| - 1 {
        assert ls[i] == Pad(ls, e)[i][..|ls[i]|] && |ls[i]| == |ms[i]|;
      }
    }
  }

  lemma StripMoreCr(text: string)
    ensures |Stripped(text)| == |Split(text, LF)|
    ensures forall i | 0 <= i < |Split(text, LF)| :: EndsCr(Stripped(text)[i]) ==> EndsCr(Split(text, LF)[i])
  {
  }

  /** The output is seen to have the line end it was written with, even if lines end in a CR. */
  lemma EolKept(text: string, b: Block, port: nat)
    requires b.start < b.end < |Stripped(text)|
    ensures DetectEol(Output(text, b, port)) == DetectEol(text)
    ensures Split(Output(text, b, port), LF) == Pad(RewrittenLines(Stripped(text), b.start + 1, b.end, port),
                                                    DetectEol(text))
  {
    hide Rewritten;
    hide Lines;
    hide Stripped;
    hide DetectEol;
    hide Output;
    hide Split;
    var ls, e := Stripped(text), DetectEol(text);
    var ms := RewrittenLines(ls, b.start + 1, b.end, port);
    OutputJoins(text, b, port);
    RewrittenLinesNoLf(ls, b.start + 1, b.end, port);
    PiecesOfJoin(ms, e);
    EolByPieces(text);
    EolByPieces(Output(text, b, port));
    if e.Dos? {
      AllEnded(Pad(ms, e), true);
    } else {
      StripMoreCr(text);
      forall i | 0 <= i < |ms| - 1 ensures EndsCr(Pad(ms, e)[i]) ==> EndsCr(Split(text, LF)[i]) {
        RewrittenBounds(ls[i], port);
      }
      CrEndedMonotone(Pad(ms, e), Split(text, LF));
    }
  }

  /** A line that ends in a CR is shorter after it has been read again. */
  lemma StrippedShorter(out: string, ms: seq<string>, e: Eol, i: nat)
    requires Lines(out) == (if e.Dos? then ms else ChopEnds(ms)) && i < |ms| && EndsCr(ms[i])
    ensures |Stripped(out)| == |ms| && |Stripped(out)[i]| < |ms[i]|
  {
    hide Lines;
  }

  lemma UntidyAgain(text: string, target: Color, i: nat)
    requires Render(text, target).Ok? && i < |Stripped(text)| && EndsCr(Stripped(text)[i])
    ensures Render(Render(text, target).value, target) != Render(text, target)
  {
    hide *;
    var b, k := RenderParts(text, target);
    var ls, port := Stripped(text), PortOfColor(target);
    var out := Output(text, b, port);
    if Render(out, target) == Ok(out) {
      var c, n := RenderParts(out, target);
      var ms := RewrittenLines(ls, b.start + 1, b.end, port);
      var ns := RewrittenLines(Stripped(out), c.start + 1, c.end, port);
      EolKept(text, b, port);
      EolKept(out, c, port);
      PadUnique(ms, ns, DetectEol(text));
      OutputLines(text, b, port);
      RewrittenBounds(ls[i], port);
      StrippedShorter(out, ms, DetectEol(text), i);
      CrLineKept(Stripped(out)[i], port);
      assert false;
    }
  }

  lemma CrLineKept(line: string, port: nat)
    ensures EndsCr(Rewritten(line, port)) ==> Rewritten(line, port) == line
  {
    hide *;
    RewrittenServer(line, port);
    RewrittenBounds(line, port);
    if MatchServer(line).Some? {
      ServerEnd(line);
    }
  }

  /** Rendering again for the same colour changes nothing exactly when the text is tidy. */
  lemma RenderAgain(text: string, target: Color)
    requires Render(text, target).Ok?
    ensures Render(Render(text, target).value, target) == Render(text, target) <==> Tidy(text)
  {
    hide *;
    if Tidy(text) {
      TidyAgain(text, target);
    } else {
      var i := UntidyLine(text);
      UntidyAgain(text, target, i);
    }
  }

  lemma UntidyLine(text: string) returns (i: nat)
    requires !Tidy(text)
    ensures i < |Stripped(text)| && EndsCr(Stripped(text)[i])
  {
    hide Stripped;
    i :| 0 <= i < |Stripped(text)| && EndsCr(Stripped(text)[i]);
  }

  // ---------------------------------------------------------------- there and back

  /** A line as it is when it is rewritten a second time. */
  function Reread(e: Eol, line: string): string {
    Chop(ReadBack(e, line))
  }

  function OnPortAgain(e: Eol, port: nat): string -> bool {
    l => HasPort(Reread(e, l), port)
  }

  function SurfacesAgain(e: Eol): string -> bool {
    l => Surfaces(e)(Reread(e, l))
  }

  lemma ServerReread(line: string, e: Eol)
    requires MatchServer(line).Some?
    ensures Reread(e, line) == line
  {
    hide MatchServer;
    ServerEnd(line);
  }

  lemma LineReread(line: string, to: nat, back: nat, e: Eol)
    ensures OnPort(back)(Reread(e, Rewritten(line, to))) == OnPortAgain(e, back)(line)
    ensures Surfaces(e)(Reread(e, Rewritten(line, to))) == SurfacesAgain(e)(line)
  {
    hide HasPort;
    hide MatchServer;
    hide Reread;
    hide Rewritten;
    hide IsActive;
    RewrittenServer(line, to);
    if MatchServer(line).Some? {
      ServerReread(line, e);
      ServerReread(Rewritten(line, to), e);
      ServerEnd(line);
      ServerEnd(Rewritten(line, to));
      RewrittenPort(line, to, back);
    }
  }

  lemma ChopsSameBounds(ls: seq<string>)
    ensures SameBounds(ls, Chops(ls))
  {
    hide IsUpstreamStart;
    hide IsBlockEnd;
    hide Chop;
    forall k | 0 <= k < |ls|
      ensures IsUpstreamStart(ls[k]) == IsUpstreamStart(Chops(ls)[k]) && IsBlockEnd(ls[k]) == IsBlockEnd(Chops(ls)[k])
    {
      BlockEndChop(ls[k]);
      StartChop(ls[k]);
    }
  }

  /** What a second rendering works on. */
  lemma SecondLines(text: string, b: Block, port: nat)
    requires FindBlock(Stripped(text)) == Ok(b)
    ensures var out, ls, e := Output(text, b, port), Stripped(text), DetectEol(text);
            && FindBlock(Stripped(out)) == Ok(b) && DetectEol(out) == e && |Stripped(out)| == |ls|
            && b.start < b.end < |ls|
            && forall k | b.start < k < b.end :: Stripped(out)[k] == Reread(e, Rewritten(ls[k], port))
  {
    hide *;
    var out, ls, e := Output(text, b, port), Stripped(text), DetectEol(text);
    BlockInside(ls, b);
    EolKept(text, b, port);
    OutputBlock(text, b, port);
    StrippedIs(out);
    ChopsSameBounds(Lines(out));
    BlockAgree(Lines(out), Chops(Lines(out)));
    OutputLength(text, b, port);
    forall k | b.start < k < b.end ensures Stripped(out)[k] == Reread(e, Rewritten(ls[k], port)) {
      OutputLine(text, b, port, k);
      RereadIs(e, Rewritten(ls[k], port));
    }
  }

  lemma StrippedIs(text: string)
    ensures Stripped(text) == Chops(Lines(text))
  {
  }

  lemma RereadIs(e: Eol, line: string)
    ensures Reread(e, line) == Chop(ReadBack(e, line))
  {
  }

  /** After switching to one colour, switching to another succeeds exactly when the block, as it is then
      read, holds one server line on that other's port and none that surfaces. */
  lemma SwitchBack(text: string, to: Color, back: Color)
    requires Render(text, to).Ok?
    ensures FindBlock(Stripped(text)).Ok?
    ensures var b, e := FindBlock(Stripped(text)).value, DetectEol(text);
            Render(Render(text, to).value, back).Ok? <==>
            && Count(Stripped(text), b.start + 1, b.end, OnPortAgain(e, PortOfColor(back))) == 1
            && Count(Stripped(text), b.start + 1, b.end, SurfacesAgain(e)) == 0
  {
    hide *;
    RenderSucceeds(text, to);
    var b, e := FindBlock(Stripped(text)).value, DetectEol(text);
    var ls, out := Stripped(text), Output(text, b, PortOfColor(to));
    SecondLines(text, b, PortOfColor(to));
    forall k | b.start + 1 <= k < b.end
      ensures OnPortAgain(e, PortOfColor(back))(ls[k]) == OnPort(PortOfColor(back))(Stripped(out)[k])
      ensures SurfacesAgain(e)(ls[k]) == Surfaces(e)(Stripped(out)[k])
    {
      LineReread(ls[k], PortOfColor(to), PortOfColor(back), e);
    }
    CountAgree(ls, Stripped(out), b.start + 1, b.end, OnPortAgain(e, PortOfColor(back)), OnPort(PortOfColor(back)));
    CountAgree(ls, Stripped(out), b.start + 1, b.end, SurfacesAgain(e), Surfaces(e));
    RenderSucceeds(out, back);
  }

  /** On tidy text, exactly when the block holds one server line on that other's port. A block with a second,
      commented-out line on the old port can be switched away from, but not back. */
  lemma SwitchBackTidy(text: string, to: Color, back: Color)
    requires Tidy(text) && Render(text, to).Ok?
    ensures FindBlock(Stripped(text)).Ok?
    ensures var b := FindBlock(Stripped(text)).value;
            Render(Render(text, to).value, back).Ok? <==>
            Count(Stripped(text), b.start + 1, b.end, OnPort(PortOfColor(back))) == 1
  {
    hide *;
    RenderSucceedsTidy(text, to);
    var b := FindBlock(Stripped(text)).value;
    BlockInside(Stripped(text), b);
    SecondRender(text, b, PortOfColor(to));
    PortsKept(Stripped(text), b.start + 1, b.end, PortOfColor(to), PortOfColor(back));
    RenderSucceedsTidy(Render(text, to).value, back);
  }

  /** Every server line reads the same: indent, address, tail and whether it is commented out. Every
      other line is the same. */
  ghost predicate SameMeaning(ls: seq<string>, ms: seq<string>) {
    |ls| == |ms| && forall k | 0 <= k < |ls| ::
      MatchServer(ls[k]) == MatchServer(ms[k]) && (MatchServer(ls[k]).None? ==> ls[k] == ms[k])
  }

  lemma LineBack(line: string, to: nat, back: nat)
    requires IsActive(line) <==> HasPort(line, back)
    ensures MatchServer(Rewritten(Rewritten(line, to), back)) == MatchServer(line)
    ensures MatchServer(line).None? ==> Rewritten(Rewritten(line, to), back) == line
  {
    hide MatchServer;
    hide Rewritten;
    hide PortOf;
    RewrittenServer(line, to);
    RewrittenServer(Rewritten(line, to), back);
  }

  lemma ActiveLine(ls: seq<string>, b: Block, color: Color) returns (i: nat)
    requires b.start < b.end < |ls| && ActiveIn(ls, b) == Ok(color)
    ensures Count(ls, b.start + 1, b.end, IsActive) == 1
    ensures b.start < i < b.end && IsActive(ls[i]) && HasPort(ls[i], PortOfColor(color))
  {
    hide MatchServer;
    hide PortOf;
    i := FirstFrom(ls, b.start + 1, IsActive).value;
  }

  lemma OnlyTarget(ls: seq<string>, b: Block, color: Color, k: nat)
    requires b.start < k < b.end < |ls| && ActiveIn(ls, b) == Ok(color)
    requires Count(ls, b.start + 1, b.end, OnPort(PortOfColor(color))) == 1
    ensures IsActive(ls[k]) <==> HasPort(ls[k], PortOfColor(color))
  {
    hide *;
    var i := ActiveLine(ls, b, color);
    if IsActive(ls[k]) {
      CountOne(ls, b.start + 1, b.end, IsActive, i, k);
    }
    OnPortIs(ls[k], PortOfColor(color));
    OnPortIs(ls[i], PortOfColor(color));
    if HasPort(ls[k], PortOfColor(color)) {
      CountOne(ls, b.start + 1, b.end, OnPort(PortOfColor(color)), i, k);
    }
  }

  /** On tidy text, switching away and back gives a text whose every line means what it did. */
  lemma BackAgain(text: string, from: Color, to: Color)
    requires Tidy(text) && ActiveOf(Stripped(text)) == Ok(from)
    requires Render(text, to).Ok? && Render(Render(text, to).value, from).Ok?
    ensures SameMeaning(Stripped(text), Lines(Render(Render(text, to).value, from).value))
  {
    hide *;
    var ls, p, q := Stripped(text), PortOfColor(to), PortOfColor(from);
    RenderSucceedsTidy(text, to);
    var b := FindBlock(ls).value;
    BlockInside(ls, b);
    ActiveIsIn(ls, b);
    SecondRender(text, b, p);
    SwitchBackTidy(text, to, from);
    var out := Output(text, b, p);
    RenderSucceedsTidy(out, from);
    TidyLines(out, b, q);
    var ms := RewrittenLines(RewrittenLines(ls, b.start + 1, b.end, p), b.start + 1, b.end, q);
    forall k | 0 <= k < |ls|
      ensures MatchServer(ls[k]) == MatchServer(ms[k]) && (MatchServer(ls[k]).None? ==> ls[k] == ms[k])
    {
      if b.start < k < b.end {
        OnlyTarget(ls, b, from, k);
        LineBack(ls[k], p, q);
      }
    }
    MeaningOf(ls, ms);
  }

  lemma MeaningOf(ls: seq<string>, ms: seq<string>)
    requires |ls| == |ms| && forall k | 0 <= k < |ls| ::
               MatchServer(ls[k]) == MatchServer(ms[k]) && (MatchServer(ls[k]).None? ==> ls[k] == ms[k])
    ensures SameMeaning(ls, ms)
  {
    hide MatchServer;
  }

  lemma ActiveIsIn(ls: seq<string>, b: Block)
    requires FindBlock(ls) == Ok(b)
    ensures b.start < b.end < |ls| && ActiveOf(ls) == ActiveIn(ls, b)
  {
    hide ActiveIn;
    BlockInside(ls, b);
  }

  /** What one rendering keeps, whatever the text: every server line's indent, address and tail, and every
      other line, but for a CR at its end that is lost with LF ends. */
  lemma RenderKeeps(text: string, target: Color, k: nat)
    requires Render(text, target).Ok? && k < |Stripped(text)|
    ensures |Lines(Render(text, target).value)| == |Stripped(text)| && FindBlock(Stripped(text)).Ok?
    ensures var b, line := FindBlock(Stripped(text)).value, Lines(Render(text, target).value)[k];
            match MatchServer(Stripped(text)[k])
            case None => line == if k < |Stripped(text)| - 1 then ReadBack(DetectEol(text), Stripped(text)[k])
              else Stripped(text)[k]
            case Some(s) =>
              if b.start < k < b.end
              then MatchServer(line) == Some(s.(commented := PortOf(s.address) != Some(PortOfColor(target))))
              else line == Stripped(text)[k]
  {
    hide *;
    var b, i := RenderParts(text, target);
    var ls, port := Stripped(text), PortOfColor(target);
    OutputLength(text, b, port);
    OutputLineAnywhere(text, b, port, k);
    RewrittenServer(ls[k], port);
    ReadBackIs(DetectEol(text), ls[k]);
    if MatchServer(ls[k]).Some? {
      ServerEnd(ls[k]);
      ServerEnd(Rewritten(ls[k], port));
      ReadBackIs(DetectEol(text), Rewritten(ls[k], port));
    }
  }

  lemma OutputLineAnywhere(text: string, b: Block, port: nat, k: nat)
    requires b.start < b.end < |Stripped(text)| && k < |Stripped(text)|
    ensures |Lines(Output(text, b, port))| == |Stripped(text)|
    ensures var line := if b.start < k < b.end then Rewritten(Stripped(text)[k], port) else Stripped(text)[k];
            Lines(Output(text, b, port))[k] == if k < |Stripped(text)| - 1 then ReadBack(DetectEol(text), line)
              else line
  {
    hide Rewritten;
    hide Lines;
    hide Stripped;
    hide Output;
    hide DetectEol;
    hide Chop;
    OutputLines(text, b, port);
  }

  /** No line ends in a CR once its line end is off: at most one CR before each LF, none at the end. */
  ghost predicate Clean(text: string) {
    forall k | 0 <= k < |Lines(text)| :: !EndsCr(Lines(text)[k])
  }

  lemma CleanIsTidy(text: string)
    requires Clean(text)
    ensures Tidy(text) && Stripped(text) == Lines(text)
  {
    hide Lines;
    NothingChopped(Lines(text));
  }

  /** A line after a rendering is a server line of the block, or no longer than before. */
  lemma NoLonger(text: string, target: Color, k: nat)
    requires Render(text, target).Ok? && k < |Stripped(text)|
    ensures |Lines(Render(text, target).value)| == |Stripped(text)| && FindBlock(Stripped(text)).Ok?
    ensures var b, line := FindBlock(Stripped(text)).value, Lines(Render(text, target).value)[k];
            || (b.start < k < b.end && MatchServer(line).Some? && MatchServer(Stripped(text)[k]).Some?)
            || |line| <= |Stripped(text)[k]|
  {
    hide *;
    RenderKeeps(text, target, k);
    ReadBackIs(DetectEol(text), Stripped(text)[k]);
    ChopLength(Stripped(text)[k]);
  }

  lemma ChopLength(line: string)
    ensures |Chop(line)| == |line| - if EndsCr(line) then 1 else 0
    ensures !EndsCr(line) ==> Chop(line) == line
  {
  }

  lemma DirtyLine(text: string) returns (k: nat)
    requires !Clean(text)
    ensures k < |Lines(text)| == |Stripped(text)| && EndsCr(Lines(text)[k]) && |Stripped(text)[k]| < |Lines(text)[k]|
  {
    hide Lines;
    k :| 0 <= k < |Lines(text)| && EndsCr(Lines(text)[k]);
  }

  lemma SameMeaningAt(ls: seq<string>, ms: seq<string>, k: nat)
    requires SameMeaning(ls, ms) && k < |ls|
    ensures |ls| == |ms| && MatchServer(ls[k]) == MatchServer(ms[k]) && (MatchServer(ls[k]).None? ==> ls[k] == ms[k])
  {
    hide MatchServer;
  }

  lemma ParseIsStripped(text: string)
    requires Clean(text)
    ensures ParseActive(text) == ActiveOf(Stripped(text))
  {
    hide ActiveOf;
    hide Lines;
    CleanIsTidy(text);
  }

  /** Switching away from the colour that serves and back gives a text whose every line means what it did, if
      and only if the text has at most one CR before each LF and none at its end. */
  lemma ThereAndBack(text: string, from: Color, to: Color)
    requires ParseActive(text) == Ok(from)
    requires Render(text, to).Ok? && Render(Render(text, to).value, from).Ok?
    ensures SameMeaning(Lines(text), Lines(Render(Render(text, to).value, from).value)) <==> Clean(text)
  {
    hide *;
    var out := Render(text, to).value;
    var end := Render(out, from).value;
    if Clean(text) {
      CleanIsTidy(text);
      ParseIsStripped(text);
      BackAgain(text, from, to);
    } else if SameMeaning(Lines(text), Lines(end)) {
      var k := DirtyLine(text);
      var b, i := RenderParts(text, to);
      SecondLines(text, b, PortOfColor(to));
      NoLonger(text, to, k);
      StrippedIs(out);
      ChopLength(Lines(out)[k]);
      NoLonger(out, from, k);
      RenderKeeps(out, from, k);
      SameMeaningAt(Lines(text), Lines(end), k);
      if MatchServer(Lines(text)[k]).Some? { ServerEnd(Lines(text)[k]); assert false; }
      if MatchServer(Lines(out)[k]).Some? { ServerEnd(Lines(out)[k]); }
      assert false;
    }
  }

  // ---------------------------------------------------------------- two files that fail

  function OpeningLine(): string { "upstream fsms_app {" }

  function ServerA(): Server { Server("", false, AddressA(), "") }

  function ServerB(): Server { Server("", true, AddressB(), "") }

  function ServerC(): Server { Server("", true, AddressC(), "") }

  function AddressA(): string { "a:3000" }

  function AddressB(): string { "b:3001" }

  function AddressC(): string { "c:3000" }

  lemma Opening()
    ensures IsUpstreamStart(OpeningLine()) && LF !in OpeningLine() && !EndsCr(OpeningLine())
  {
    StartLine();
    hide IsUpstreamStart;
    OpeningParts();
  }

  lemma OpeningParts()
    ensures OpeningLine() == "upstream" + (" " + ("fsms_app" + (" " + "{")))
    ensures LF !in OpeningLine() && !EndsCr(OpeningLine())
  {
  }

  lemma StartLine()
    ensures IsUpstreamStart("upstream" + (" " + ("fsms_app" + (" " + "{"))))
  {
    NotSpaces();
    var name := "fsms_app" + (" " + "{");
    var s := "upstream" + (" " + name);
    assert s[0] == 'u' && name[0] == 'f' && !IsSpace('f') && !IsSpace('{');
    hide IsSpace;
    SkipOver("", s);
    assert "" + s == s && s[..8] == "upstream" && s[8..] == " " + name;
    SkipOver(" ", name);
    assert name[..8] == "fsms_app" && name[8..] == " " + "{";
    SkipOver(" ", "{");
    hide Skip;
  }

  lemma Closing()
    ensures IsBlockEnd("}") && LF !in "}" && !EndsCr("}")
  {
    NotSpaces();
    SkipOver("", "}");
    assert "" + "}" == "}";
  }

  lemma {:induction false} AllTrailing(a: string, d: string)
    requires (a == "" || !IsDigit(a[|a| - 1])) && forall i | 0 <= i < |d| :: IsDigit(d[i])
    ensures TrailingDigits(a + d) == |d|
  {
    if d == "" {
      assert a + d == a;
    } else {
      AllTrailing(a, d[..|d| - 1]);
      assert (a + d)[..|a + d| - 1] == a + d[..|d| - 1];
    }
  }

  lemma PortParts(address: string)
    requires 0 < TrailingDigits(address) < |address| && address[|address| - TrailingDigits(address) - 1] == ':'
    ensures PortOf(address) == Some(DigitsValue(address[|address| - TrailingDigits(address)..]))
  {
    hide TrailingDigits;
    hide DigitsValue;
  }

  lemma PortAt(address: string, n: nat)
    requires 0 < n < |address| && address[n - 1] == ':' && forall i | n <= i < |address| :: IsDigit(address[i])
    ensures PortOf(address) == Some(DigitsValue(address[n..]))
  {
    var host, digits := address[..n], address[n..];
    assert !IsDigit(host[n - 1]);
    assert forall i | 0 <= i < |digits| :: IsDigit(digits[i]);
    hide *;
    AllTrailing(host, digits);
    assert host + digits == address;
    PortParts(address);
  }

  lemma DigitsNext(d: string, last: char)
    requires IsDigit(last) && forall i | 0 <= i < |d| :: IsDigit(d[i])
    ensures DigitsValue(d + [last]) == DigitsValue(d) * 10 + (last as int - '0' as int)
  {
    assert (d + [last])[..|d|] == d;
  }

  lemma KnownPort(last: char)
    requires last == '0' || last == '1'
    ensures DigitsValue("300" + [last]) == if last == '0' then 3000 else 3001
  {
    DigitsNext("", '3');
    DigitsNext("3", '0');
    DigitsNext("30", '0');
    DigitsNext("300", last);
    assert "" + ['3'] == "3" && "3" + ['0'] == "30" && "30" + ['0'] == "300";
  }

  lemma AddressPort(address: string, last: char)
    requires (last == '0' || last == '1') && |address| == 6 && address[1] == ':' && address[2..] == "300" + [last]
    ensures PortOf(address) == Some(if last == '0' then 3000 else 3001)
  {
    assert forall i | 2 <= i < 6 :: address[i] == address[2..][i - 2];
    assert forall i | 2 <= i < 6 :: IsDigit(address[i]);
    hide *;
    PortAt(address, 2);
    KnownPort(last);
  }

  lemma Ports()
    ensures PortOf(AddressA()) == PortOf(AddressC()) == Some(3000) && PortOf(AddressB()) == Some(3001)
  {
    assert AddressA()[2..] == "300" + ['0'] && AddressC()[2..] == "300" + ['0'] && AddressB()[2..] == "300" + ['1'];
    hide PortOf;
    AddressPort(AddressA(), '0');
    AddressPort(AddressB(), '1');
    AddressPort(AddressC(), '0');
  }

  lemma Addresses(a: string)
    requires a == AddressA() || a == AddressB() || a == AddressC()
    ensures a != "" && LF !in a && forall i | 0 <= i < |a| :: IsAddress(a[i])
  {
  }

  /** A server line is matched as what it was written from. */
  lemma ServerLine(s: Server)
    requires s.indent == "" && s.tail == "" && s.address != "" && LF !in s.address
    requires forall i | 0 <= i < |s.address| :: IsAddress(s.address[i])
    ensures MatchServer(ServerText(s)) == Some(s) && LF !in ServerText(s) && !EndsCr(ServerText(s))
  {
    NoLfInText(s);
    PlainCaptured(s);
    hide *;
    MatchServerText(s);
    ServerEnd(ServerText(s));
  }

  lemma PlainCaptured(s: Server)
    requires s.indent == "" && s.tail == "" && s.address != ""
    requires forall i | 0 <= i < |s.address| :: IsAddress(s.address[i])
    ensures Captured(s)
  {
    hide IsAddress;
  }

  lemma NoLfInText(s: Server)
    requires s.indent == "" && s.tail == "" && LF !in s.address
    ensures LF !in ServerText(s)
  {
    assert LF !in "# " && LF !in "server " && LF !in ";";
  }

  lemma ServerLines()
    ensures forall s | s in {ServerA(), ServerB(), ServerC()} ::
              MatchServer(ServerText(s)) == Some(s) && LF !in ServerText(s) && !EndsCr(ServerText(s))
  {
    Addresses(AddressA());
    Addresses(AddressB());
    Addresses(AddressC());
    hide AddressA;
    hide AddressB;
    hide AddressC;
    hide IsAddress;
    hide MatchServer;
    hide ServerText;
    forall s | s in {ServerA(), ServerB(), ServerC()}
      ensures MatchServer(ServerText(s)) == Some(s) && LF !in ServerText(s) && !EndsCr(ServerText(s))
    {
      ServerLine(s);
    }
  }

  /** The lines of a text that was written with bare LFs, and whose lines but the last end in no CR. */
  lemma WrittenText(ls: seq<string>)
    requires |ls| > 1 && NoLf(ls) && forall i | 0 <= i < |ls| - 1 :: !EndsCr(ls[i])
    ensures var text := Join(ls, Unix);
            DetectEol(text) == Unix && Lines(text) == ls && Stripped(text) == Chops(ls)
  {
    hide Lines;
    hide DetectEol;
    LinesOfJoin(ls, Unix);
    EolOfJoin(ls, Unix);
    assert ChopEnds(ls) == ls;
  }

  /** The first line that closes a block is line e. */
  lemma BlockAt(ls: seq<string>, e: nat)
    requires 0 < e < |ls| && IsUpstreamStart(ls[0]) && IsBlockEnd(ls[e])
    requires forall k | 0 < k < e :: MatchServer(ls[k]).Some?
    ensures FindBlock(ls) == Ok(Block(0, e))
  {
    forall k | 0 < k < e ensures !IsBlockEnd(ls[k]) { ServerNoBound(ls[k]); }
    hide IsUpstreamStart;
    hide IsBlockEnd;
    hide MatchServer;
    assert FirstFrom(ls, 0, IsUpstreamStart) == Some(0);
    var r := FirstFrom(ls, 1, IsBlockEnd);
    assert r == Some(e);
  }

  /** A server line and a line that ends in two CRs behind the block. */
  function StrayCr(): (ls: seq<string>)
    ensures |ls| == 4
  {
    [OpeningLine(), ServerText(ServerA()), "}", "x\r\r"]
  }

  lemma StrayCrLines()
    ensures var text, ms := Join(StrayCr(), Unix), Stripped(Join(StrayCr(), Unix));
            && !Tidy(text) && |ms| == 4 && ms[1] == ServerText(ServerA()) && FindBlock(ms) == Ok(Block(0, 2))
  {
    Opening();
    Closing();
    ServerLines();
    hide *;
    FourLines(OpeningLine(), ServerText(ServerA()));
    StrayCrIs();
  }

  lemma StrayCrIs()
    ensures StrayCr() == [OpeningLine(), ServerText(ServerA()), "}", "x\r\r"]
  {
  }

  lemma FourLines(first: string, second: string)
    requires IsUpstreamStart(first) && MatchServer(second).Some? && LF !in first && LF !in second
    requires !EndsCr(first) && !EndsCr(second)
    ensures var text := Join([first, second, "}", "x\r\r"], Unix);
            && !Tidy(text) && |Stripped(text)| == 4 && Stripped(text)[1] == second
            && FindBlock(Stripped(text)) == Ok(Block(0, 2))
  {
    var ls := [first, second, "}", "x\r\r"];
    Closing();
    hide IsUpstreamStart;
    hide MatchServer;
    hide IsBlockEnd;
    hide FindBlock;
    hide Stripped;
    hide DetectEol;
    hide Join;
    hide Lines;
    WrittenText(ls);
    var ms := Chops(ls);
    assert ms[0] == first && ms[1] == second && ms[2] == "}" && ms[3] == "x\r";
    BlockAt(ms, 2);
    assert EndsCr(ms[3]);
  }

  lemma OneServer(line: string, port: nat, e: Eol, ls: seq<string>)
    requires MatchServer(line).Some? && HasPort(line, port) && !EndsCr(line) && |ls| > 2 && ls[1] == line
    ensures Count(ls, 1, 2, OnPort(port)) == 1 && Count(ls, 1, 2, Surfaces(e)) == 0
  {
    hide MatchServer;
    hide HasPort;
    hide IsActive;
    OnPortIs(line, port);
    CountStep(ls, 1, 1, OnPort(port));
    CountStep(ls, 1, 1, Surfaces(e));
  }

  lemma ServerPort(s: Server, port: nat)
    requires MatchServer(ServerText(s)) == Some(s)
    ensures HasPort(ServerText(s), port) <==> PortOf(s.address) == Some(port)
  {
    hide MatchServer;
    hide PortOf;
  }

  lemma TheServers()
    ensures ServerA().address == AddressA() && ServerB().address == AddressB() && ServerC().address == AddressC()
    ensures PortOfColor(Blue) == 3000 && PortOfColor(Green) == 3001
  {
    hide AddressA;
    hide AddressB;
    hide AddressC;
  }

  /** Rendering again for the same colour changes that text again. */
  lemma StrayCrMoves()
    ensures var text := Join(StrayCr(), Unix);
            Render(text, Blue).Ok? && Render(Render(text, Blue).value, Blue) != Render(text, Blue)
  {
    hide *;
    var text := Join(StrayCr(), Unix);
    StrayCrLines();
    ServerLines();
    TheServers();
    Ports();
    ServerPort(ServerA(), 3000);
    OneServer(ServerText(ServerA()), 3000, DetectEol(text), Stripped(text));
    RenderSucceeds(text, Blue);
    RenderAgain(text, Blue);
  }

  /** One server active, one for the other colour, and a second, commented-out one for the first. */
  function SpareServer(): (ls: seq<string>)
    ensures |ls| == 5
  {
    [OpeningLine(), ServerText(ServerA()), ServerText(ServerC()), ServerText(ServerB()), "}"]
  }

  lemma FiveLines(first: string, a: string, b: string, c: string)
    requires IsUpstreamStart(first) && LF !in first && !EndsCr(first)
    requires forall l | l in {a, b, c} :: MatchServer(l).Some? && LF !in l && !EndsCr(l)
    ensures var ls := [first, a, b, c, "}"]; var text := Join(ls, Unix);
            Tidy(text) && Stripped(text) == ls && FindBlock(Stripped(text)) == Ok(Block(0, 4))
  {
    var ls := [first, a, b, c, "}"];
    Closing();
    hide IsUpstreamStart;
    hide MatchServer;
    hide IsBlockEnd;
    hide FindBlock;
    hide Stripped;
    hide DetectEol;
    hide Join;
    hide Lines;
    WrittenText(ls);
    assert Chops(ls) == ls;
    BlockAt(ls, 4);
  }

  lemma SpareIs()
    ensures SpareServer() == [OpeningLine(), ServerText(ServerA()), ServerText(ServerC()), ServerText(ServerB()), "}"]
  {
  }

  lemma SpareLines()
    ensures var text := Join(SpareServer(), Unix);
            Tidy(text) && Stripped(text) == SpareServer() && FindBlock(Stripped(text)) == Ok(Block(0, 4))
  {
    Opening();
    ServerLines();
    hide *;
    SpareIs();
    FiveLines(OpeningLine(), ServerText(ServerA()), ServerText(ServerC()), ServerText(ServerB()));
  }

  lemma CountThree(ls: seq<string>, p: string -> bool)
    requires |ls| == 5
    ensures Count(ls, 1, 4, p) == (if p(ls[1]) then 1 else 0) + (if p(ls[2]) then 1 else 0) + if p(ls[3]) then 1 else 0
  {
    CountStep(ls, 1, 1, p);
    CountStep(ls, 1, 2, p);
    CountStep(ls, 1, 3, p);
    hide Count;
  }

  /** Blue serves in it. */
  lemma SpareServes()
    ensures ParseActive(Join(SpareServer(), Unix)) == Ok(Blue)
  {
    hide *;
    var ls, text, b := SpareServer(), Join(SpareServer(), Unix), Block(0, 4);
    SpareIs();
    Opening();
    Closing();
    ServerLines();
    TheServers();
    Ports();
    SpareParts();
    WrittenText(ls);
    BlockAt(ls, 4);
    ParseIsActive(text, b);
    ActiveIs(ls[1]);
    ActiveIs(ls[2]);
    ActiveIs(ls[3]);
    CountThree(ls, IsActive);
    OneActive(ls, b, 1);
    ServerPort(ServerA(), 3000);
    TargetColor(ls[1], Blue);
  }

  lemma ActiveIs(line: string)
    ensures IsActive(line) <==> MatchServer(line).Some? && !MatchServer(line).value.commented
  {
  }

  lemma SpareParts()
    ensures !ServerA().commented && ServerB().commented && ServerC().commented
    ensures NoLf(SpareServer()) && forall i | 0 <= i < 4 :: !EndsCr(SpareServer()[i])
  {
    Opening();
    Closing();
    ServerLines();
    hide OpeningLine;
    hide ServerText;
    hide AddressA;
    hide AddressB;
    hide AddressC;
    hide MatchServer;
    hide IsUpstreamStart;
    hide IsBlockEnd;
  }

  lemma SpareCounts()
    ensures Count(SpareServer(), 1, 4, OnPort(3000)) == 2 && Count(SpareServer(), 1, 4, OnPort(3001)) == 1
  {
    hide *;
    SpareIs();
    ServerLines();
    TheServers();
    Ports();
    forall s, port | s in {ServerA(), ServerB(), ServerC()} && port in {3000, 3001}
      ensures OnPort(port)(ServerText(s)) <==> PortOf(s.address) == Some(port)
    {
      ServerPort(s, port);
      OnPortIs(ServerText(s), port);
    }
    CountThree(SpareServer(), OnPort(3000));
    CountThree(SpareServer(), OnPort(3001));
  }

  /** That block is switched to green, and the way back to blue is refused. */
  lemma NoWayBack()
    ensures var text := Join(SpareServer(), Unix);
            Render(text, Green).Ok? && Render(Render(text, Green).value, Blue) == Err(NotOneActive)
  {
    hide *;
    var text := Join(SpareServer(), Unix);
    SpareLines();
    SpareCounts();
    TheServers();
    BlockInside(Stripped(text), Block(0, 4));
    RenderSucceedsTidy(text, Green);
    SecondRender(text, Block(0, 4), 3001);
    PortsKept(Stripped(text), 1, 4, 3001, 3000);
    RenderSucceedsTidy(Output(text, Block(0, 4), 3001), Blue);
  }

  /** A server for each colour, and behind the block a line that ends in a CR. */
  function LastCr(): (ls: seq<string>)
    ensures |ls| == 5
  {
    [OpeningLine(), ServerText(ServerA()), ServerText(ServerB()), "}", "x\r"]
  }

  lemma LastCrLines(first: string, a: string, b: string)
    requires IsUpstreamStart(first) && LF !in first && !EndsCr(first)
    requires forall l | l in {a, b} :: MatchServer(l).Some? && LF !in l && !EndsCr(l)
    ensures var text := Join([first, a, b, "}", "x\r"], Unix);
            && Lines(text) == [first, a, b, "}", "x\r"] && Stripped(text) == [first, a, b, "}", "x"]
            && Tidy(text) && !Clean(text)
            && FindBlock(Lines(text)) == Ok(Block(0, 3)) && FindBlock(Stripped(text)) == Ok(Block(0, 3))
  {
    var ls, ms := [first, a, b, "}", "x\r"], [first, a, b, "}", "x"];
    Closing();
    hide IsUpstreamStart;
    hide MatchServer;
    hide IsBlockEnd;
    hide FindBlock;
    hide Stripped;
    hide DetectEol;
    hide Join;
    hide Lines;
    WrittenText(ls);
    assert Chop("x\r") == "x";
    assert Chops(ls) == ms;
    BlockAt(ls, 3);
    BlockAt(ms, 3);
    assert EndsCr(ls[4]);
  }

  lemma LastCrIs()
    ensures LastCr() == [OpeningLine(), ServerText(ServerA()), ServerText(ServerB()), "}", "x\r"]
    ensures !ServerA().commented && ServerB().commented
  {
    hide OpeningLine;
    hide ServerText;
  }

  lemma CountTwo(ls: seq<string>, p: string -> bool)
    requires |ls| == 5
    ensures Count(ls, 1, 3, p) == (if p(ls[1]) then 1 else 0) + if p(ls[2]) then 1 else 0
  {
    CountStep(ls, 1, 1, p);
    CountStep(ls, 1, 2, p);
    hide Count;
  }

  lemma LastCrCounts(ms: seq<string>)
    requires |ms| == 5 && ms[1] == ServerText(ServerA()) && ms[2] == ServerText(ServerB())
    ensures Count(ms, 1, 3, OnPort(3000)) == 1 && Count(ms, 1, 3, OnPort(3001)) == 1 && Count(ms, 1, 3, IsActive) == 1
    ensures IsActive(ms[1]) && HasPort(ms[1], 3000)
  {
    hide *;
    LastCrIs();
    ServerLines();
    TheServers();
    Ports();
    forall s, port | s in {ServerA(), ServerB()} && port in {3000, 3001}
      ensures OnPort(port)(ServerText(s)) <==> PortOf(s.address) == Some(port)
    {
      ServerPort(s, port);
      OnPortIs(ServerText(s), port);
    }
    ServerPort(ServerA(), 3000);
    ActiveIs(ms[1]);
    ActiveIs(ms[2]);
    CountTwo(ms, OnPort(3000));
    CountTwo(ms, OnPort(3001));
    CountTwo(ms, IsActive);
  }

  /** Switched to green and back to blue that file is not what it was: the line has lost its CR. */
  lemma LastCrLost()
    ensures var text := Join(LastCr(), Unix);
            && ParseActive(text) == Ok(Blue) && Render(text, Green).Ok?
            && Render(Render(text, Green).value, Blue).Ok?
            && !SameMeaning(Lines(text), Lines(Render(Render(text, Green).value, Blue).value))
  {
    hide *;
    var text, b := Join(LastCr(), Unix), Block(0, 3);
    Opening();
    ServerLines();
    LastCrIs();
    TheServers();
    LastCrLines(OpeningLine(), ServerText(ServerA()), ServerText(ServerB()));
    LastCrCounts(Lines(text));
    LastCrCounts(Stripped(text));
    ParseIsActive(text, b);
    OneActive(Lines(text), b, 1);
    TargetColor(Lines(text)[1], Blue);
    RenderSucceedsTidy(text, Green);
    SwitchBackTidy(text, Green, Blue);
    ThereAndBack(text, Blue, Green);
  }

  // ---------------------------------------------------------------- the programs

  /** The lines between the block's ends, read one by one for active ones. */
  method ParseActiveUpstream(conf: string) returns (r: Result<Color, Error>)
    ensures r == ParseActive(conf)
  {
    hide *;
    var ls := Lines(conf);
    var found := FindBlock(ls);
    ParseNoBlock(conf);
    if found.Err? {
      return Err(found.error);
    }
    var b := found.value;
    ParseIsActive(conf, b);
    var active: seq<nat> := [];
    for i := b.start + 1 to b.end
      invariant |active| == Count(ls, b.start + 1, i, IsActive)
      invariant forall j | 0 <= j < |active| :: b.start < active[j] < i && IsActive(ls[active[j]])
    {
      CountStep(ls, b.start + 1, i, IsActive);
      if IsActive(ls[i]) {
        active := active + [i];
      }
    }
    if |active| != 1 {
      NotOne(ls, b);
      return Err(NotOneActive);
    }
    assert IsActive(ls[active[0]]);
    OneActive(ls, b, active[0]);
    r := ActiveColor(ls[active[0]]);
  }

  lemma ParseNoBlock(text: string)
    ensures FindBlock(Lines(text)).Err? ==> ParseActive(text) == Err(FindBlock(Lines(text)).error)
  {
    hide ActiveIn;
    hide Lines;
    hide FindBlock;
  }

  lemma NotOne(ls: seq<string>, b: Block)
    requires b.start < b.end < |ls| && Count(ls, b.start + 1, b.end, IsActive) != 1
    ensures ActiveIn(ls, b) == Err(NotOneActive)
  {
    hide IsActive;
  }

  lemma CountStep(ls: seq<string>, i: nat, j: nat, p: string -> bool)
    requires i <= j < |ls|
    ensures Count(ls, i, j + 1, p) == Count(ls, i, j, p) + if p(ls[j]) then 1 else 0
    ensures Count(ls, i, i, p) == 0
  {
  }

  /** Each server line is changed in place; one on the target port always counts as touched. */
  method RewriteInPlace(lines: array<string>, from: nat, to: nat, port: nat, ghost k: nat) returns (touched: bool)
    requires from <= k < to <= lines.Length && HasPort(lines[k], port)
    modifies lines
    ensures lines[..] == RewrittenLines(old(lines[..]), from, to, port)
    ensures touched
  {
    hide *;
    ghost var ls := lines[..];
    touched := false;
    RewrittenNone(ls, from, port);
    for i := from to to
      invariant lines[..] == RewrittenLines(ls, from, i, port)
      invariant i > k ==> touched
    {
      RewrittenNext(ls, from, i, port);
      RewrittenHead(ls, from, i, port);
      assert lines[..][i] == lines[i];
      LineCases(ls[i], port);
      var m := MatchServer(lines[i]);
      if m.Some? {
        if PortOf(m.value.address) == Some(port) {
          lines[i] := ServerText(m.value.(commented := false));
          touched := true;
        } else if !m.value.commented {
          lines[i] := ServerText(m.value.(commented := true));
          touched := true;
        }
      }
    }
  }

  lemma RewrittenNone(ls: seq<string>, i: nat, port: nat)
    requires i <= |ls|
    ensures RewrittenLines(ls, i, i, port) == ls
  {
  }

  /** The block's lines are rewritten, and the result is read back before it is returned. */
  method RenderUpstream(conf: string, target: Color) returns (r: Result<string, Error>)
    ensures r == Render(conf, target)
  {
    hide *;
    var port := PortOfColor(target);
    var ls := Stripped(conf);
    RenderUnfolds(conf, target);
    var found := FindBlock(ls);
    if found.Err? {
      return Err(found.error);
    }
    var b := found.value;
    BlockInside(ls, b);
    var ports := 0;
    for i := b.start + 1 to b.end
      invariant ports == Count(ls, b.start + 1, i, OnPort(port))
    {
      CountStep(ls, b.start + 1, i, OnPort(port));
      OnPortIs(ls[i], port);
      if HasPort(ls[i], port) {
        ports := ports + 1;
      }
    }
    if ports == 0 {
      CountNone(ls, b, port);
      return Err(NoTargetPort);
    }
    var lines := new string[|ls|](i requires 0 <= i < |ls| => ls[i]);
    assert lines[..] == ls;
    ghost var k := SomeTarget(ls, b.start + 1, b.end, port);
    var touched := RewriteInPlace(lines, b.start + 1, b.end, port, k);
    if !touched {
      assert false;
    }
    var result := Join(lines[..], DetectEol(conf));
    OutputJoins(conf, b, port);
    var check := ParseActiveUpstream(result);
    r := if check.Ok? then Ok(result) else Err(check.error);
  }

  lemma OnPortIs(line: string, port: nat)
    ensures OnPort(port)(line) == HasPort(line, port)
  {
    hide HasPort;
  }

  lemma CountNone(ls: seq<string>, b: Block, port: nat)
    requires b.start < b.end < |ls|
    ensures Count(ls, b.start + 1, b.start + 1, OnPort(port)) == 0
  {
  }

  lemma RewrittenHead(ls: seq<string>, i: nat, j: nat, port: nat)
    requires i <= j < |ls|
    ensures RewrittenLines(ls, i, j, port)[j] == ls[j]
  {
  }

  lemma RewrittenNext(ls: seq<string>, i: nat, j: nat, port: nat)
    requires i <= j < |ls|
    ensures RewrittenLines(ls, i, j + 1, port) == RewrittenLines(ls, i, j, port)[j := Rewritten(ls[j], port)]
  {
    hide Rewritten;
  }

  lemma LineCases(line: string, port: nat)
    ensures Rewritten(line, port) ==
            match MatchServer(line)
            case None => line
            case Some(s) =>
              if PortOf(s.address) == Some(port) then ServerText(s.(commented := false))
              else if !s.commented then ServerText(s.(commented := true))
              else line
    ensures HasPort(line, port) <==> MatchServer(line).Some? && PortOf(MatchServer(line).value.address) == Some(port)
  {
    hide MatchServer;
    hide PortOf;
    hide ServerText;
  }
}
