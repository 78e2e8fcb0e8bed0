/** The comment-blanking scanner of the audit-count scan. */
module StripComments {
  /** Where the scanner is. Line is inside a line comment, up to its LF. */
  datatype Mode = Code | Quoted(quote: char) | Block | Line

  const LF := '\n'
  const BACKSLASH := '\\'

  predicate IsQuote(c: char) {
    c == '\'' || c == '"' || c == '`'
  }

  /** The text stands at a comment opener. */
  predicate Opens(t: string, second: char) {
    |t| > 1 && t[0] == '/' && t[1] == second
  }

  predicate Closes(t: string) {
    |t| > 1 && t[0] == '*' && t[1] == '/'
  }

  function Blank(c: char): char {
    if c == LF then LF else ' '
  }

  /** The mode behind a character of code that opens no comment. */
  function AfterCode(c: char): Mode {
    if IsQuote(c) then Quoted(c) else Code
  }

  /** The mode behind an unescaped character of a string: an unclosed string ends with its line. */
  function AfterQuoted(q: char, c: char): Mode {
    if c == q || c == LF then Code else Quoted(q)
  }

  /** The output for t from a mode. */
  function Strip(mode: Mode, t: string): string
    decreases |t|
  {
    if t == "" then ""
    else match mode
      case Code =>
        if Opens(t, '/') then "  " + Strip(Line, t[2..])
        else if Opens(t, '*') then "  " + Strip(Block, t[2..])
        else [t[0]] + Strip(AfterCode(t[0]), t[1..])
      case Line => [Blank(t[0])] + Strip(if t[0] == LF then Code else Line, t[1..])
      case Block => if Closes(t) then "  " + Strip(Code, t[2..]) else [Blank(t[0])] + Strip(Block, t[1..])
      case Quoted(q) =>
        if t[0] != BACKSLASH then [t[0]] + Strip(AfterQuoted(q, t[0]), t[1..])
        else if |t| == 1 then [BACKSLASH, ' ']
        else [t[0], t[1]] + Strip(mode, t[2..])
  }

  /** The text ends in a backslash inside a string left open. */
  predicate Dangles(mode: Mode, t: string)
    decreases |t|
  {
    t != "" && match mode
      case Code =>
        if Opens(t, '/') then Dangles(Line, t[2..])
        else if Opens(t, '*') then Dangles(Block, t[2..])
        else Dangles(AfterCode(t[0]), t[1..])
      case Line => Dangles(if t[0] == LF then Code else Line, t[1..])
      case Block => if Closes(t) then Dangles(Code, t[2..]) else Dangles(Block, t[1..])
      case Quoted(q) =>
        if t[0] != BACKSLASH then Dangles(AfterQuoted(q, t[0]), t[1..])
        else |t| == 1 || Dangles(mode, t[2..])
  }

  /** No comment opens anywhere outside strings. */
  predicate CommentFree(mode: Mode, t: string)
    decreases |t|
  {
    t == "" || match mode
      case Code => !Opens(t, '/') && !Opens(t, '*') && CommentFree(AfterCode(t[0]), t[1..])
      case Line => false
      case Block => false
      case Quoted(q) =>
        if t[0] != BACKSLASH then CommentFree(AfterQuoted(q, t[0]), t[1..])
        else |t| == 1 || CommentFree(mode, t[2..])
  }

  // ---------------------------------------------------------------- the program

  lemma Assoc(out: string, a: string, rest: string)
    ensures out + (a + rest) == (out + a) + rest
  {
  }

  /** One character, or an escape, of a string: it is copied. */
  method ConsumeQuoted(text: string, i: nat, q: char, out: string) returns (o: string, j: nat, mode: Mode)
    requires i < |text|
    ensures i < j <= |text| + 1 && (mode.Code? || mode.Quoted?)
    ensures out + Strip(Quoted(q), text[i..]) == o + if j <= |text| then Strip(mode, text[j..]) else ""
  {
    var ch := text[i];
    ghost var t := text[i..];
    if ch == BACKSLASH {
      o := out + [ch] + [if i + 1 < |text| then text[i + 1] else ' '];
      j, mode := i + 2, Quoted(q);
      if j <= |text| {
        assert t[2..] == text[j..];
        assert o == out + [t[0], t[1]];
        Assoc(out, [t[0], t[1]], Strip(mode, text[j..]));
      } else {
        assert o == out + [BACKSLASH, ' '];
      }
      return;
    }
    assert t[1..] == text[i + 1..];
    o, j, mode := out + [ch], i + 1, AfterQuoted(q, ch);
    Assoc(out, [ch], Strip(mode, text[j..]));
  }

  /** One character of a block comment, or its end. */
  method ConsumeBlockComment(text: string, i: nat, out: string) returns (o: string, j: nat, mode: Mode)
    requires i < |text|
    ensures i < j <= |text| && (mode.Code? || mode.Block?)
    ensures out + Strip(Block, text[i..]) == o + Strip(mode, text[j..])
  {
    ghost var t := text[i..];
    if text[i] == '*' && i + 1 < |text| && text[i + 1] == '/' {
      assert Closes(t) && t[2..] == text[i + 2..];
      Assoc(out, "  ", Strip(Code, text[i + 2..]));
      return out + "  ", i + 2, Code;
    }
    assert !Closes(t) && t[1..] == text[i + 1..];
    Assoc(out, [Blank(text[i])], Strip(Block, text[i + 1..]));
    return out + [Blank(text[i])], i + 1, Block;
  }

  /** A line comment up to and with its LF. */
  method ConsumeLineComment(text: string, i: nat, out: string) returns (o: string, j: nat)
    requires i <= |text|
    ensures i <= j <= |text| && out + Strip(Line, text[i..]) == o + Strip(Code, text[j..])
  {
    o, j := out, i;
    while j < |text| && text[j] != LF
      invariant i <= j <= |text|
      invariant out + Strip(Line, text[i..]) == o + Strip(Line, text[j..])
    {
      assert text[j..][1..] == text[j + 1..];
      Assoc(o, [' '], Strip(Line, text[j + 1..]));
      o := o + [' '];
      j := j + 1;
    }
    if j < |text| {
      assert text[j..][1..] == text[j + 1..];
      Assoc(o, [LF], Strip(Code, text[j + 1..]));
      o := o + [LF];
      j := j + 1;
    }
  }

  lemma CodeCases(t: string)
    requires t != ""
    ensures Strip(Code, t) ==
            if Opens(t, '/') then "  " + Strip(Line, t[2..])
            else if Opens(t, '*') then "  " + Strip(Block, t[2..])
            else [t[0]] + Strip(AfterCode(t[0]), t[1..])
    ensures AfterCode(t[0]).Code? || AfterCode(t[0]).Quoted?
  {
  }

  lemma StripEmpty(mode: Mode)
    ensures Strip(mode, "") == ""
  {
  }

  method StripText(text: string) returns (out: string)
    ensures out == Strip(Code, text)
  {
    hide Strip;
    hide AfterCode;
    out := "";
    var mode := Code;
    var i := 0;
    assert text[0..] == text && "" + Strip(Code, text) == Strip(Code, text);
    while i < |text|
      invariant 0 <= i <= |text| + 1
      invariant Strip(Code, text) == out + if i <= |text| then Strip(mode, text[i..]) else ""
      invariant mode != Line
      decreases |text| + 1 - i
    {
      var ch := text[i];
      ghost var t := text[i..];
      if mode.Block? {
        out, i, mode := ConsumeBlockComment(text, i, out);
      } else if mode.Quoted? {
        out, i, mode := ConsumeQuoted(text, i, mode.quote, out);
      } else {
        CodeCases(t);
        if ch == '/' && i + 1 < |text| && text[i + 1] == '/' {
          assert Opens(t, '/') && t[2..] == text[i + 2..];
          Assoc(out, "  ", Strip(Line, t[2..]));
          out, i := ConsumeLineComment(text, i + 2, out + "  ");
        } else if ch == '/' && i + 1 < |text| && text[i + 1] == '*' {
          assert Opens(t, '*') && t[2..] == text[i + 2..];
          Assoc(out, "  ", Strip(Block, t[2..]));
          out, i, mode := out + "  ", i + 2, Block;
        } else {
          assert !Opens(t, '/') && !Opens(t, '*') && t[1..] == text[i + 1..];
          Assoc(out, [ch], Strip(AfterCode(ch), t[1..]));
          out, i, mode := out + [ch], i + 1, AfterCode(ch);
        }
      }
    }
    StripEmpty(mode);
    assert i == |text| ==> text[i..] == "";
    assert out + "" == out;
  }

  // ---------------------------------------------------------------- comments and strings as written

  /** As many blanks, with the line feeds where they are. */
  function Blanks(s: string): (r: string)
    ensures |r| == |s| && forall i | 0 <= i < |s| :: r[i] == if s[i] == '\n' then '\n' else ' '
  {
    seq(|s|, i requires 0 <= i < |s| => if s[i] == '\n' then '\n' else ' ')
  }

  lemma BlanksFirst(s: string)
    requires s != ""
    ensures Blanks(s) == [if s[0] == '\n' then '\n' else ' '] + Blanks(s[1..])
  {
  }

  /** A line comment is blanked up to its line feed or to the end, and code goes on behind it. */
  lemma LineCommentBlanked(body: string, rest: string)
    requires '\n' !in body
    ensures Strip(Code, "//" + body) == "  " + Blanks(body)
    ensures Strip(Code, "//" + body + "\n" + rest) == "  " + Blanks(body) + "\n" + Strip(Code, rest)
  {
    LineBody(body, "\n" + rest);
    LineBody(body, "");
    hide Blanks;
    var t := "//" + body + "\n" + rest;
    assert t[2..] == body + ("\n" + rest) && ("//" + body)[2..] == body == body + "";
    assert Blanks(body) + "" == Blanks(body) && ("\n" + rest)[1..] == rest;
    assert Strip(Line, "\n" + rest) == "\n" + Strip(Code, rest);
    assert "  " + (Blanks(body) + ("\n" + Strip(Code, rest))) == "  " + Blanks(body) + "\n" + Strip(Code, rest);
  }

  lemma {:induction false} LineBody(body: string, rest: string)
    requires '\n' !in body
    ensures Strip(Line, body + rest) == Blanks(body) + Strip(Line, rest)
  {
    if body == "" {
      assert body + rest == rest;
    } else {
      assert (body + rest)[1..] == body[1..] + rest;
      LineBody(body[1..], rest);
      BlanksFirst(body);
    }
  }

  /** No star of the body stands before a slash, the comment's own end included. */
  ghost predicate Unclosed(body: string) {
    forall i | 0 <= i < |body| - 1 :: !(body[i] == '*' && body[i + 1] == '/')
  }

  /** A block comment is blanked but for its line feeds, and code goes on behind its end. */
  lemma BlockCommentBlanked(body: string, rest: string)
    requires Unclosed(body)
    ensures Strip(Code, "/*" + body) == "  " + Blanks(body)
    ensures Strip(Code, "/*" + body + "*/" + rest) == "  " + Blanks(body) + "  " + Strip(Code, rest)
  {
    BlockBody(body, "*/" + rest);
    BlockBody(body, "");
    hide Blanks;
    var t := "/*" + body + "*/" + rest;
    assert t[2..] == body + ("*/" + rest) && ("/*" + body)[2..] == body == body + "";
    assert Blanks(body) + "" == Blanks(body) && ("*/" + rest)[2..] == rest;
    assert Strip(Block, "*/" + rest) == "  " + Strip(Code, rest);
    assert "  " + (Blanks(body) + ("  " + Strip(Code, rest))) == "  " + Blanks(body) + "  " + Strip(Code, rest);
  }

  lemma {:induction false} BlockBody(body: string, rest: string)
    requires Unclosed(body) && (rest == "" || rest[0] == '*')
    ensures Strip(Block, body + rest) == Blanks(body) + Strip(Block, rest)
  {
    if body == "" {
      assert body + rest == rest;
    } else {
      assert (body + rest)[1..] == body[1..] + rest;
      BlockBody(body[1..], rest);
      BlanksFirst(body);
      assert !Closes(body + rest);
    }
  }

  /** One character of a string, or an escaped one. */
  ghost predicate Unit(q: char, u: string) {
    (|u| == 1 && u[0] != q && u[0] != '\\' && u[0] != '\n') || (|u| == 2 && u[0] == '\\')
  }

  function Concat(us: seq<string>): string {
    if us == [] then "" else us[0] + Concat(us[1..])
  }

  /** A string in any of the three quotes is kept, up to its quote or the end of its line, whatever it holds. */
  lemma StringKept(q: char, us: seq<string>, end: char, rest: string)
    requires q in {'\'', '"', '`'} && (forall i | 0 <= i < |us| :: Unit(q, us[i])) && (end == q || end == '\n')
    ensures Strip(Code, [q] + Concat(us) + [end] + rest) == [q] + Concat(us) + [end] + Strip(Code, rest)
  {
    UnitsKept(q, us, [end] + rest);
    StringOpens(q, Concat(us) + ([end] + rest));
    StringEnds(q, end, rest);
    hide Strip;
    hide Concat;
    assert [q] + Concat(us) + [end] + rest == [q] + (Concat(us) + ([end] + rest));
    assert [q] + (Concat(us) + ([end] + Strip(Code, rest))) == [q] + Concat(us) + [end] + Strip(Code, rest);
  }

  lemma StringOpens(q: char, more: string)
    requires q in {'\'', '"', '`'}
    ensures Strip(Code, [q] + more) == [q] + Strip(Quoted(q), more)
  {
    assert ([q] + more)[1..] == more;
  }

  lemma StringEnds(q: char, end: char, rest: string)
    requires q in {'\'', '"', '`'} && (end == q || end == '\n')
    ensures Strip(Quoted(q), [end] + rest) == [end] + Strip(Code, rest)
  {
    assert ([end] + rest)[1..] == rest;
  }

  lemma {:induction false} UnitsKept(q: char, us: seq<string>, rest: string)
    requires forall i | 0 <= i < |us| :: Unit(q, us[i])
    ensures Strip(Quoted(q), Concat(us) + rest) == Concat(us) + Strip(Quoted(q), rest)
  {
    if us == [] {
      assert Concat(us) + rest == rest;
    } else {
      var u, more := us[0], Concat(us[1..]) + rest;
      assert Unit(q, u) && Concat(us) + rest == u + more && (u + more)[|u|..] == more;
      assert |u| == 1 ==> u == [u[0]];
      assert |u| == 2 ==> u == [u[0], u[1]];
      UnitsKept(q, us[1..], rest);
      assert Strip(Quoted(q), u + more) == u + Strip(Quoted(q), more);
      assert u + (Concat(us[1..]) + Strip(Quoted(q), rest)) == Concat(us) + Strip(Quoted(q), rest);
    }
  }

  /** Any other character of code is kept. */
  lemma CodeKept(c: char, rest: string)
    requires c !in {'\'', '"', '`'} && !(c == '/' && rest != "" && (rest[0] == '/' || rest[0] == '*'))
    ensures Strip(Code, [c] + rest) == [c] + Strip(Code, rest)
  {
    assert ([c] + rest)[1..] == rest;
  }

  // ---------------------------------------------------------------- what it keeps

  /** o copies or blanks t character by character and has its LFs exactly where t has them. */
  ghost predicate Aligned(t: string, o: string) {
    |t| <= |o| <= |t| + 1
    && (forall i | 0 <= i < |t| :: (o[i] == t[i] || o[i] == ' ') && (o[i] == LF <==> t[i] == LF))
    && (|o| > |t| ==> o[|t|] == ' ')
  }

  lemma AlignedNext(a: string, b: string, t: string, o: string)
    requires |a| == |b| && Aligned(a, b) && Aligned(t, o)
    ensures Aligned(a + t, b + o)
  {
  }

  /** Line by line and column by column, the output stands where the text stood. It is one blank longer
      exactly when the text ends in a backslash inside an open string. */
  lemma {:induction false} StripAligned(mode: Mode, t: string)
    ensures Aligned(t, Strip(mode, t))
    ensures |Strip(mode, t)| == |t| + if Dangles(mode, t) then 1 else 0
    decreases |t|
  {
    if t != "" {
      match mode
      case Code =>
        if Opens(t, '/') || Opens(t, '*') {
          Two(t, "  ", if Opens(t, '/') then Line else Block);
        } else {
          One(t, t[0], AfterCode(t[0]));
        }
      case Line => One(t, Blank(t[0]), if t[0] == LF then Code else Line);
      case Block =>
        if Closes(t) {
          Two(t, "  ", Code);
        } else {
          One(t, Blank(t[0]), Block);
        }
      case Quoted(q) =>
        if t[0] != BACKSLASH {
          One(t, t[0], AfterQuoted(q, t[0]));
        } else if |t| > 1 {
          Two(t, [t[0], t[1]], mode);
        }
    }
  }

  lemma {:induction false} DanglesOnBackslash(mode: Mode, t: string)
    requires Dangles(mode, t)
    ensures t[|t| - 1] == BACKSLASH
    decreases |t|
  {
    match mode
    case Code =>
      if Opens(t, '/') || Opens(t, '*') {
        DanglesOnBackslash(if Opens(t, '/') then Line else Block, t[2..]);
      } else {
        DanglesOnBackslash(AfterCode(t[0]), t[1..]);
      }
    case Line => DanglesOnBackslash(if t[0] == LF then Code else Line, t[1..]);
    case Block =>
      if Closes(t) { DanglesOnBackslash(Code, t[2..]); } else { DanglesOnBackslash(Block, t[1..]); }
    case Quoted(q) =>
      if t[0] != BACKSLASH { DanglesOnBackslash(AfterQuoted(q, t[0]), t[1..]); }
      else if |t| > 1 { DanglesOnBackslash(mode, t[2..]); }
  }

  lemma {:induction false} One(t: string, c: char, m: Mode)
    requires t != "" && (c == t[0] || c == ' ') && (c == LF <==> t[0] == LF)
    ensures Aligned(t, [c] + Strip(m, t[1..]))
    ensures |Strip(m, t[1..])| == |t| - 1 + if Dangles(m, t[1..]) then 1 else 0
    decreases |t|, 0
  {
    hide Strip;
    hide Dangles;
    hide Aligned;
    StripAligned(m, t[1..]);
    assert Aligned([t[0]], [c]) by { AlignedPair([t[0]], [c]); }
    AlignedNext([t[0]], [c], t[1..], Strip(m, t[1..]));
    assert t == [t[0]] + t[1..];
  }

  lemma {:induction false} Two(t: string, o: string, m: Mode)
    requires |t| > 1 && |o| == 2 && forall i | 0 <= i < 2 ::
             (o[i] == t[i] || o[i] == ' ') && (o[i] == LF <==> t[i] == LF)
    ensures Aligned(t, o + Strip(m, t[2..]))
    ensures |Strip(m, t[2..])| == |t| - 2 + if Dangles(m, t[2..]) then 1 else 0
    decreases |t|, 0
  {
    hide Strip;
    hide Dangles;
    hide Aligned;
    StripAligned(m, t[2..]);
    assert Aligned(t[..2], o) by { AlignedPair(t[..2], o); }
    AlignedNext(t[..2], o, t[2..], Strip(m, t[2..]));
    assert t == t[..2] + t[2..];
  }

  lemma AlignedPair(a: string, b: string)
    requires |a| == |b| && forall i | 0 <= i < |a| :: (b[i] == a[i] || b[i] == ' ') && (b[i] == LF <==> a[i] == LF)
    ensures Aligned(a, b)
  {
  }

  // ---------------------------------------------------------------- a second pass

  /** The mode in which the output is read where the text was read in the given mode. */
  function Seen(mode: Mode): Mode {
    if mode.Quoted? then mode else Code
  }

  /** Output of code starts with the code's first character or with a blank. */
  lemma StripHead(t: string)
    requires t != ""
    ensures Strip(Code, t) != "" && (Strip(Code, t)[0] == t[0] || Strip(Code, t)[0] == ' ')
  {
  }

  /** What a blank, or a character of code that opens nothing, does in a second pass. */
  lemma SeenCode(c: char, rest: string)
    requires !Opens([c] + rest, '/') && !Opens([c] + rest, '*')
    ensures Strip(Code, [c] + rest) == [c] + Strip(AfterCode(c), rest)
    ensures CommentFree(Code, [c] + rest) <==> CommentFree(AfterCode(c), rest)
  {
    assert ([c] + rest)[1..] == rest;
  }

  lemma BlankSeen(c: char, rest: string)
    requires c == ' ' || c == LF
    ensures Strip(Code, [c] + rest) == [c] + Strip(Code, rest)
    ensures CommentFree(Code, [c] + rest) <==> CommentFree(Code, rest)
  {
    SeenCode(c, rest);
  }

  lemma TwoBlanksSeen(rest: string)
    ensures Strip(Code, "  " + rest) == "  " + Strip(Code, rest)
    ensures CommentFree(Code, "  " + rest) <==> CommentFree(Code, rest)
  {
    BlankSeen(' ', [' '] + rest);
    BlankSeen(' ', rest);
    assert "  " + rest == [' '] + ([' '] + rest);
    assert "  " + Strip(Code, rest) == [' '] + ([' '] + Strip(Code, rest));
  }

  lemma QuotedSeen(q: char, c: char, rest: string)
    requires c != BACKSLASH
    ensures Strip(Quoted(q), [c] + rest) == [c] + Strip(AfterQuoted(q, c), rest)
    ensures CommentFree(Quoted(q), [c] + rest) <==> CommentFree(AfterQuoted(q, c), rest)
  {
    assert ([c] + rest)[1..] == rest;
  }

  lemma EscapeSeen(q: char, a: char, b: char, rest: string)
    requires a == BACKSLASH
    ensures Strip(Quoted(q), [a, b] + rest) == [a, b] + Strip(Quoted(q), rest)
    ensures CommentFree(Quoted(q), [a, b] + rest) <==> CommentFree(Quoted(q), rest)
  {
    assert ([a, b] + rest)[2..] == rest;
  }

  /** The output holds no comment, and a second pass leaves it as it is. */
  lemma {:induction false} StripTwice(mode: Mode, t: string)
    ensures Strip(Seen(mode), Strip(mode, t)) == Strip(mode, t)
    ensures CommentFree(Seen(mode), Strip(mode, t))
    decreases |t|
  {
    if t != "" {
      match mode
      case Code => StripTwiceCode(t);
      case Line =>
        var m := if t[0] == LF then Code else Line;
        StripTwice(m, t[1..]);
        BlankSeen(Blank(t[0]), Strip(m, t[1..]));
      case Block =>
        if Closes(t) {
          StripTwice(Code, t[2..]);
          TwoBlanksSeen(Strip(Code, t[2..]));
        } else {
          StripTwice(Block, t[1..]);
          BlankSeen(Blank(t[0]), Strip(Block, t[1..]));
        }
      case Quoted(q) =>
        if t[0] != BACKSLASH {
          var m := AfterQuoted(q, t[0]);
          StripTwice(m, t[1..]);
          QuotedSeen(q, t[0], Strip(m, t[1..]));
        } else if |t| == 1 {
          EscapeSeen(q, BACKSLASH, ' ', "");
          assert [BACKSLASH, ' '] + "" == [BACKSLASH, ' '];
        } else {
          StripTwice(mode, t[2..]);
          EscapeSeen(q, t[0], t[1], Strip(mode, t[2..]));
        }
    }
  }

  lemma {:induction false} StripTwiceCode(t: string)
    requires t != ""
    ensures Strip(Code, Strip(Code, t)) == Strip(Code, t)
    ensures CommentFree(Code, Strip(Code, t))
    decreases |t|, 0
  {
    if Opens(t, '/') || Opens(t, '*') {
      var m := if Opens(t, '/') then Line else Block;
      StripTwice(m, t[2..]);
      TwoBlanksSeen(Strip(m, t[2..]));
    } else {
      var m := AfterCode(t[0]);
      var rest := Strip(m, t[1..]);
      StripTwice(m, t[1..]);
      if t[0] == '/' && |t| > 1 {
        StripHead(t[1..]);
      }
      SeenCode(t[0], rest);
    }
  }

  /** Text without comments is left alone, but for the blank behind a dangling backslash; and only such
      text is. */
  lemma {:induction false} StripFixes(mode: Mode, t: string)
    requires mode.Code? || mode.Quoted?
    ensures Strip(mode, t) == t <==> CommentFree(mode, t) && !Dangles(mode, t)
    decreases |t|
  {
    if t != "" {
      match mode
      case Code =>
        if Opens(t, '/') || Opens(t, '*') {
          assert Strip(mode, t)[0] == ' ';
        } else {
          var m := AfterCode(t[0]);
          StripFixes(m, t[1..]);
          HeadTail(t, Strip(m, t[1..]));
        }
      case Quoted(q) =>
        if t[0] != BACKSLASH {
          var m := AfterQuoted(q, t[0]);
          StripFixes(m, t[1..]);
          HeadTail(t, Strip(m, t[1..]));
        } else if |t| > 1 {
          StripFixes(mode, t[2..]);
          HeadTail(t[1..], Strip(mode, t[2..]));
          HeadTail(t, [t[1]] + Strip(mode, t[2..]));
          assert [t[0], t[1]] + Strip(mode, t[2..]) == [t[0]] + ([t[1]] + Strip(mode, t[2..]));
        }
    }
  }

  lemma HeadTail(t: string, u: string)
    requires t != ""
    ensures [t[0]] + u == t <==> u == t[1..]
  {
    assert [t[0]] + t[1..] == t;
    assert ([t[0]] + u)[1..] == u;
  }
}
