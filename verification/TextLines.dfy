/** Text as lines: splitting at line ends, joining with one line end, and which end dominates. */
module TextLines {
  import opened Texts

  const CR := '\r'
  const LF := '\n'

  datatype Eol = Unix | Dos

  predicate EndsCr(l: string) {
    l != "" && l[|l| - 1] == CR
  }

  /** A line without one trailing CR. */
  function Chop(l: string): string {
    if EndsCr(l) then l[..|l| - 1] else l
  }

  /** Every line but the last without one trailing CR: that CR is part of the line end. */
  function ChopEnds(ps: seq<string>): (r: seq<string>)
    ensures |r| == |ps|
    ensures forall i | 0 <= i < |ps| :: r[i] == if i < |ps| - 1 then Chop(ps[i]) else ps[i]
  {
    seq(|ps|, i requires 0 <= i < |ps| => if i < |ps| - 1 then Chop(ps[i]) else ps[i])
  }

  /** Split at LF or CRLF. */
  function Lines(t: string): (r: seq<string>)
    ensures r != []
  {
    ChopEnds(Split(t, LF))
  }

  function Chops(ls: seq<string>): (r: seq<string>)
    ensures |r| == |ls| && forall i | 0 <= i < |ls| :: r[i] == Chop(ls[i])
  {
    seq(|ls|, i requires 0 <= i < |ls| => Chop(ls[i]))
  }

  function EolText(e: Eol): string {
    if e.Dos? then [CR, LF] else [LF]
  }

  function Join(ls: seq<string>, e: Eol): string
    requires ls != []
  {
    if |ls| == 1 then ls[0] else ls[0] + EolText(e) + Join(ls[1..], e)
  }

  /** The LFs of t that follow a CR (after: whether a CR comes just before t), or that do not. */
  function Ends(t: string, after: bool, dos: bool): nat {
    if t == "" then 0
    else (if t[0] == LF && after == dos then 1 else 0) + Ends(t[1..], t[0] == CR, dos)
  }

  /** CRLF only when it outnumbers the bare LF. */
  function DetectEol(t: string): Eol {
    if Ends(t, false, true) > Ends(t, false, false) then Dos else Unix
  }

  // ---------------------------------------------------------------- joining and splitting

  ghost predicate NoLf(ls: seq<string>) {
    forall i | 0 <= i < |ls| :: LF !in ls[i]
  }

  lemma LinesNoLf(t: string)
    ensures NoLf(Lines(t)) && NoLf(Chops(Lines(t)))
  {
    SplitNone(t, LF);
  }

  lemma PiecesAcross(l: string, rest: string)
    requires LF !in l
    ensures Split(l + [LF] + rest, LF) == [l] + Split(rest, LF)
  {
    SplitOne(l, LF);
    SplitAppend(l, rest, LF);
  }

  /** What each line contributes between two LFs. */
  function Pad(ls: seq<string>, e: Eol): (r: seq<string>)
    ensures |r| == |ls|
    ensures forall i | 0 <= i < |ls| :: r[i] == if e.Dos? && i < |ls| - 1 then ls[i] + [CR] else ls[i]
  {
    seq(|ls|, i requires 0 <= i < |ls| => if e.Dos? && i < |ls| - 1 then ls[i] + [CR] else ls[i])
  }

  lemma JoinFirst(ls: seq<string>, e: Eol)
    requires |ls| > 1
    ensures Join(ls, e) == Pad(ls, e)[0] + [LF] + Join(ls[1..], e)
  {
  }

  lemma PadFirst(ls: seq<string>, e: Eol)
    requires |ls| > 1
    ensures Pad(ls, e) == [Pad(ls, e)[0]] + Pad(ls[1..], e)
  {
  }

  lemma {:induction false} PiecesOfJoin(ls: seq<string>, e: Eol)
    requires ls != [] && NoLf(ls)
    ensures Split(Join(ls, e), LF) == Pad(ls, e)
  {
    hide Split;
    if |ls| == 1 {
      SplitOne(ls[0], LF);
    } else {
      PiecesOfJoin(ls[1..], e);
      var first := Pad(ls, e)[0];
      JoinFirst(ls, e);
      assert LF !in first;
      PadFirst(ls, e);
      hide Join;
      hide Pad;
      PiecesAcross(first, Join(ls[1..], e));
    }
  }

  /** Joined lines split into the same lines, except that with LF ends a line that itself ends in a
      CR loses it. */
  lemma LinesOfJoin(ls: seq<string>, e: Eol)
    requires ls != [] && NoLf(ls)
    ensures Lines(Join(ls, e)) == if e.Dos? then ls else ChopEnds(ls)
  {
    PiecesOfJoin(ls, e);
    var ps := Pad(ls, e);
    if e.Dos? {
      forall i | 0 <= i < |ls| ensures ChopEnds(ps)[i] == ls[i] {
        if i < |ls| - 1 { assert ps[i][..|ps[i]| - 1] == ls[i]; }
      }
    } else {
      assert ps == ls;
    }
  }

  // ---------------------------------------------------------------- counting line ends

  /** Lines other than the last that do (or do not) end in CR. */
  function CrEnded(ps: seq<string>, dos: bool): nat {
    if |ps| <= 1 then 0 else (if EndsCr(ps[0]) == dos then 1 else 0) + CrEnded(ps[1..], dos)
  }

  lemma {:induction false} EndsArePieces(t: string, after: bool, dos: bool)
    ensures Ends(t, after, dos) == EndsOf(Split(t, LF), after, dos)
  {
    if t != "" {
      EndsArePieces(t[1..], t[0] == CR, dos);
      var q := Split(t[1..], LF);
      if t[0] == LF {
        assert Split(t, LF)[1..] == q;
      } else {
        var p := [[t[0]] + q[0]] + q[1..];
        assert p[1..] == q[1..];
        assert EndsCr(p[0]) <==> if q[0] == "" then t[0] == CR else EndsCr(q[0]);
      }
    }
  }

  /** As CrEnded, where the first piece may continue a line with a CR before it. */
  function EndsOf(ps: seq<string>, after: bool, dos: bool): nat {
    if |ps| <= 1 then 0
    else (if (if ps[0] == "" then after else EndsCr(ps[0])) == dos then 1 else 0) + CrEnded(ps[1..], dos)
  }

  lemma {:induction false} EndsOfFalse(ps: seq<string>, dos: bool)
    ensures EndsOf(ps, false, dos) == CrEnded(ps, dos)
  {
  }

  lemma EolByPieces(t: string)
    ensures DetectEol(t) == if CrEnded(Split(t, LF), true) > CrEnded(Split(t, LF), false) then Dos else Unix
  {
    EndsArePieces(t, false, true);
    EndsArePieces(t, false, false);
    EndsOfFalse(Split(t, LF), true);
    EndsOfFalse(Split(t, LF), false);
  }

  lemma {:induction false} AllEnded(ps: seq<string>, dos: bool)
    requires forall i | 0 <= i < |ps| - 1 :: EndsCr(ps[i]) == dos
    ensures CrEnded(ps, dos) == (if ps == [] then 0 else |ps| - 1) && CrEnded(ps, !dos) == 0
  {
    if |ps| > 1 {
      forall i | 0 <= i < |ps[1..]| - 1 ensures EndsCr(ps[1..][i]) == dos {
        assert ps[1..][i] == ps[i + 1];
      }
      AllEnded(ps[1..], dos);
    }
  }

  /** Fewer CR-ended lines among as many. */
  lemma {:induction false} CrEndedMonotone(ps: seq<string>, qs: seq<string>)
    requires |ps| == |qs| && forall i | 0 <= i < |ps| - 1 :: EndsCr(ps[i]) ==> EndsCr(qs[i])
    ensures CrEnded(ps, true) <= CrEnded(qs, true) && CrEnded(ps, false) >= CrEnded(qs, false)
  {
    if |ps| > 1 {
      forall i | 0 <= i < |ps[1..]| - 1 ensures EndsCr(ps[1..][i]) ==> EndsCr(qs[1..][i]) {
        assert ps[1..][i] == ps[i + 1] && qs[1..][i] == qs[i + 1];
      }
      CrEndedMonotone(ps[1..], qs[1..]);
    }
  }

  /** A joined text is seen to have the line end it was joined with, if no line ends in CR and
      there is a line end at all. */
  lemma EolOfJoin(ls: seq<string>, e: Eol)
    requires |ls| > 1 && NoLf(ls) && forall i | 0 <= i < |ls| - 1 :: !EndsCr(ls[i])
    ensures DetectEol(Join(ls, e)) == e
  {
    PiecesOfJoin(ls, e);
    EolByPieces(Join(ls, e));
    AllEnded(Pad(ls, e), e.Dos?);
  }
}
