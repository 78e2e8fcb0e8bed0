/** The host agent's crash-recoverable request queue: files in four directories, one child process. */
module UpgradeQueue {
  import opened StableSort
  import opened Texts
  import opened Wrappers

  /** What a status file says. Queued and Unreadable are only ever found, left from before. */
  datatype State = Queued | Running | Succeeded | Failed | Unreadable

  /** A status file, with the time it was written. */
  datatype Status = Status(state: State, written: nat)

  /** A request as parsed: when it was made, whether it names an image and a known mode, and whether signature
      and image pass. */
  datatype Request = Request(id: string, requestedAt: Option<int>, offline: bool, wellFormed: bool, signed: bool,
                             allowed: bool)

  /** What stands under a name in requests/: not a plain file of allowed size, not a JSON object, or a request. */
  datatype File = NotPlain | NotObject | Holds(request: Request)

  /** A file in processing/: when the agent claimed it, once that is noted in it. */
  datatype Claim = Claim(claimedAt: Option<nat>)

  /** The running child: whose request, whether it reports status, whether it has reported its end, and
      whether its pid is recorded in the claim. */
  datatype Child = Child(id: string, reports: bool, finished: bool, recorded: bool)

  /** What happens to an id, in order. */
  datatype Event = Entered(id: string) | Executed(id: string, request: Request, checkedAt: nat) | Began(id: string)
    | Ended(id: string) | Pruned(id: string)

  /** What the agent itself does to the files and its child, in order, and whether it worked. */
  datatype Step =
    | Rejected(name: string, ok: bool)
    | Discarded(name: string, ok: bool)
    | Took(name: string, ok: bool)
    | Noted(id: string)
    | Looked(id: string, ok: bool)
    | Wrote(id: string, state: State)
    | Started(id: string, reports: bool, ok: bool)
    | Recorded(id: string, ok: bool)
    | Exited(id: string, ok: bool)
    | Unclaimed(id: string, ok: bool)
    | Unlinked(id: string, ok: bool)

  /** What a child does: report its progress or its end, or exit. */
  datatype Deed = Progress | End(good: bool) | Exit

  /** What everyone but the agent does between two of its steps. */
  datatype Move =
    | Submits(name: string, file: File)
    | Passes(ms: nat)
    | ChildDoes(deed: Deed)
    | StrayDoes(id: string, deed: Deed)
    | Reuse(claims: set<string>)

  /** What becomes of a request before it is claimed. */
  datatype Verdict = BadName | NotARequest | HasEnded | Invalid | Passed

  /** A claim older than this is no longer waited for. No child lives as long. */
  const STALE_MS: nat := 3 * 60 * 60 * 1000
  const FUTURE_MS: nat := 5 * 60 * 1000

  /** A lower-case UUID. */
  predicate ValidId(id: string) {
    |id| == 36 && forall i | 0 <= i < 36 ::
      if i in {8, 13, 18, 23} then id[i] == '-' else IsHex(id[i])
  }

  predicate IsTerminal(s: State) {
    s.Succeeded? || s.Failed?
  }

  /** The checks of a request, one after the other. */
  predicate Validates(r: Request, now: nat, ttl: nat) {
    if !r.wellFormed || r.requestedAt.None? then false
    else if now - r.requestedAt.value > ttl then false
    else if r.requestedAt.value - now > FUTURE_MS then false
    else r.signed && r.allowed
  }

  /** What a request is when it is executed: that of its id, signed, for an allowed image, not older than the
      limit and at most five minutes early when it was checked. */
  ghost predicate Checked(r: Request, id: string, at: nat, ttl: nat) {
    && r.id == id && r.wellFormed && r.signed && r.allowed
    && r.requestedAt.Some? && at - ttl <= r.requestedAt.value <= at + 300000
  }

  /** Only checked requests were executed. */
  ghost predicate AllChecked(t: seq<Event>, ttl: nat) {
    forall i | 0 <= i < |t| && t[i].Executed? :: Checked(t[i].request, t[i].id, t[i].checkedAt, ttl)
  }

  lemma ValidatesMeans(r: Request, id: string, at: nat, ttl: nat)
    requires r.id == id
    ensures Validates(r, at, ttl) <==> Checked(r, id, at, ttl)
  {
  }

  lemma CheckedNext(t: seq<Event>, e: Event, ttl: nat)
    ensures AllChecked(t + [e], ttl) <==>
            AllChecked(t, ttl) && (e.Executed? ==> Checked(e.request, e.id, e.checkedAt, ttl))
  {
    hide Checked;
    assert (t + [e])[|t|] == e && (t + [e])[..|t|] == t;
    if AllChecked(t + [e], ttl) {
      forall i | 0 <= i < |t| && t[i].Executed? ensures Checked(t[i].request, t[i].id, t[i].checkedAt, ttl) {
        assert (t + [e])[i] == t[i];
      }
    }
  }

  /** A lower-case UUID, by its groups. */
  lemma ValidIdMeans(id: string)
    ensures ValidId(id) <==>
            exists a, b, c, d, e :: Groups(id, a, b, c, d, e)
  {
    if ValidId(id) {
      assert Groups(id, id[..8], id[9..13], id[14..18], id[19..23], id[24..]);
    }
  }

  ghost predicate Groups(id: string, a: string, b: string, c: string, d: string, e: string) {
    && |a| == 8 && |b| == 4 && |c| == 4 && |d| == 4 && |e| == 12
    && Hex(a) && Hex(b) && Hex(c) && Hex(d) && Hex(e)
    && id == a + "-" + b + "-" + c + "-" + d + "-" + e
  }

  // ---------------------------------------------------------------- histories

  /** The ids executed and not pruned since. */
  ghost function ExecutedIn(t: seq<Event>): set<string> {
    if t == [] then {}
    else
      var before, e := ExecutedIn(t[..|t| - 1]), t[|t| - 1];
      if e.Executed? then before + {e.id} else if e.Pruned? then before - {e.id} else before
  }

  /** The ids with a terminal status written and not pruned since. */
  ghost function EndedIn(t: seq<Event>): set<string> {
    if t == [] then {}
    else
      var before, e := EndedIn(t[..|t| - 1]), t[|t| - 1];
      if e.Ended? then before + {e.id} else if e.Pruned? then before - {e.id} else before
  }

  /** The ids that entered the queue and were not pruned since. */
  ghost function EnteredIn(t: seq<Event>): set<string> {
    if t == [] then {}
    else
      var before, e := EnteredIn(t[..|t| - 1]), t[|t| - 1];
      if e.Entered? then before + {e.id} else if e.Pruned? then before - {e.id} else before
  }

  /** No id is executed again, and none begins again after its end, unless its status was pruned in
      between; ids that are lost are not spoken of. */
  ghost predicate Sound(t: seq<Event>, lost: set<string>) {
    t == [] ||
    var before, e := t[..|t| - 1], t[|t| - 1];
    Sound(before, lost) && Admits(before, e, lost)
  }

  ghost predicate Admits(t: seq<Event>, e: Event, lost: set<string>) {
    || e.id in lost
    || ((e.Executed? ==> e.id !in ExecutedIn(t)) && (e.Began? ==> e.id !in EndedIn(t)))
  }

  lemma NextEvent(t: seq<Event>, e: Event, lost: set<string>, ttl: nat)
    ensures ExecutedIn(t + [e]) ==
            if e.Executed? then ExecutedIn(t) + {e.id} else if e.Pruned? then ExecutedIn(t) - {e.id} else ExecutedIn(t)
    ensures EndedIn(t + [e]) ==
            if e.Ended? then EndedIn(t) + {e.id} else if e.Pruned? then EndedIn(t) - {e.id} else EndedIn(t)
    ensures EnteredIn(t + [e]) ==
            if e.Entered? then EnteredIn(t) + {e.id} else if e.Pruned? then EnteredIn(t) - {e.id} else EnteredIn(t)
    ensures Sound(t + [e], lost) <==> Sound(t, lost) && Admits(t, e, lost)
    ensures AllChecked(t + [e], ttl) <==>
            AllChecked(t, ttl) && (e.Executed? ==> Checked(e.request, e.id, e.checkedAt, ttl))
  {
    CheckedNext(t, e, ttl);
    assert (t + [e])[..|t|] == t && (t + [e])[|t|] == e;
  }

  lemma {:induction false} MoreLost(t: seq<Event>, lost: set<string>, more: set<string>)
    requires Sound(t, lost) && lost <= more
    ensures Sound(t, more)
  {
    if t != [] { MoreLost(t[..|t| - 1], lost, more); }
  }

  lemma NothingExecuted()
    ensures ExecutedIn([]) == {}
  {
  }

  ghost predicate PrunedBetween(t: seq<Event>, i: nat, j: nat, id: string) {
    exists k | i < k < j && k < |t| :: t[k] == Pruned(id)
  }

  lemma {:induction false} StillThere(t: seq<Event>, i: nat)
    requires i < |t| && !PrunedBetween(t, i, |t|, t[i].id)
    ensures t[i].Executed? ==> t[i].id in ExecutedIn(t)
    ensures t[i].Ended? ==> t[i].id in EndedIn(t)
    ensures t[i].Entered? ==> t[i].id in EnteredIn(t)
  {
    var before := t[..|t| - 1];
    if i < |t| - 1 {
      assert before[i] == t[i];
      assert forall k | 0 <= k < |before| :: before[k] == t[k];
      StillThere(before, i);
      assert t[|t| - 1] != Pruned(t[i].id);
    }
  }

  lemma {:induction false} SoundPrefix(t: seq<Event>, lost: set<string>, j: nat)
    requires Sound(t, lost) && j <= |t|
    ensures Sound(t[..j], lost)
  {
    if j < |t| {
      SoundPrefix(t[..|t| - 1], lost, j);
      assert t[..|t| - 1][..j] == t[..j];
    } else {
      assert t[..j] == t;
    }
  }

  lemma PrunedInPrefix(t: seq<Event>, i: nat, j: nat, id: string)
    requires j <= |t| && PrunedBetween(t[..j], i, j, id)
    ensures PrunedBetween(t, i, j, id)
  {
    var k :| i < k < j && k < |t[..j]| && t[..j][k] == Pruned(id);
    assert t[k] == Pruned(id);
  }

  /** Two executions of one id have its status pruned between them. */
  lemma ExecutedOnce(t: seq<Event>, lost: set<string>, i: nat, j: nat)
    requires Sound(t, lost) && i < j < |t| && t[i].Executed? && t[j].Executed? && t[j].id == t[i].id && t[i].id !in lost
    ensures PrunedBetween(t, i, j, t[i].id)
  {
    var u := t[..j + 1];
    SoundPrefix(t, lost, j + 1);
    assert u[..|u| - 1] == t[..j] && u[|u| - 1] == t[j];
    if !PrunedBetween(t[..j], i, j, t[i].id) {
      assert t[..j][i] == t[i];
      StillThere(t[..j], i);
      assert false;
    }
    PrunedInPrefix(t, i, j, t[i].id);
  }

  /** A task that has ended begins again only after its status was pruned. */
  lemma NeverRevived(t: seq<Event>, lost: set<string>, i: nat, j: nat)
    requires Sound(t, lost) && i < j < |t| && t[i].Ended? && t[j] == Began(t[i].id) && t[i].id !in lost
    ensures PrunedBetween(t, i, j, t[i].id)
  {
    var u := t[..j + 1];
    SoundPrefix(t, lost, j + 1);
    assert u[..|u| - 1] == t[..j] && u[|u| - 1] == t[j];
    if !PrunedBetween(t[..j], i, j, t[i].id) {
      assert t[..j][i] == t[i];
      StillThere(t[..j], i);
      assert false;
    }
    PrunedInPrefix(t, i, j, t[i].id);
  }

  /** What a child that outlives its agent unrecorded makes of a history: ended and begun again, then
      executed again, and nothing pruned. */
  lemma RevivedHistory(id: string, r: Request, at: nat)
    ensures var t := StrayHistory(id, r, at);
            && !Sound(t[..5], {}) && t[3] == Ended(id) && t[4] == Began(id) && !PrunedBetween(t, 3, 4, id)
            && t[2] == t[7] == Executed(id, r, at) && !PrunedBetween(t, 2, 7, id)
    ensures Sound(StrayHistory(id, r, at), {id})
  {
    var t := StrayHistory(id, r, at);
    if Sound(t[..5], {}) {
      NeverRevived(t[..5], {}, 3, 4);
      assert false;
    }
    AllLost(t, id);
  }

  lemma {:induction false} AllLost(t: seq<Event>, id: string)
    requires forall i | 0 <= i < |t| :: t[i].id == id
    ensures Sound(t, {id})
  {
    if t != [] { AllLost(t[..|t| - 1], id); }
  }

  /** A request that passes every check when it is made. */
  function AnyRequest(id: string, now: nat): Request {
    Request(id, Some(now), false, true, true, true)
  }

  function StrayHistory(id: string, r: Request, at: nat): seq<Event> {
    [Entered(id), Began(id), Executed(id, r, at), Ended(id), Began(id),
     Entered(id), Began(id), Executed(id, r, at)]
  }

  // ---------------------------------------------------------------- what the agent does

  /** What follows from each verdict, given whether the file operation worked. */
  function PrepareSteps(v: Verdict, name: string, ok: bool): seq<Step> {
    match v
    case BadName => [Rejected(name, ok)]
    case NotARequest => [Rejected(name, ok)]
    case HasEnded => [Discarded(name, ok)]
    case Invalid => [Wrote(name, Failed), Rejected(name, ok)]
    case Passed => []
  }

  /** A child run to its end: it exited well only when it was started and recorded before. */
  ghost predicate ChildSteps(s: seq<Step>, id: string, reports: bool, ok: bool) {
    || s == [Started(id, reports, true), Recorded(id, true), Exited(id, ok)]
    || (!ok && (s == [Started(id, reports, false)] || s == [Started(id, reports, true), Recorded(id, false)]))
  }

  /** The bundle of an offline request looked up and, when there is one, imported. */
  ghost predicate ImportSteps(s: seq<Step>, id: string, imported: bool) {
    if s == [Looked(id, false)] then !imported
    else exists a :: ChildSteps(a, id, false, imported) && s == [Looked(id, true)] + a
  }

  /** One upgrade: of an offline request only behind a bundle that was imported well, and otherwise failed. */
  ghost predicate ExecuteSteps(s: seq<Step>, id: string, offline: bool) {
    if offline then
      || (exists a :: ImportSteps(a, id, false) && s == a + [Wrote(id, Failed)])
      || (exists a, b, ok :: ImportSteps(a, id, true) && ChildSteps(b, id, true, ok) && s == a + b)
    else
      exists ok :: ChildSteps(s, id, true, ok)
  }

  lemma ImportedBy(a: seq<Step>, id: string, imported: bool)
    requires ChildSteps(a, id, false, imported)
    ensures ImportSteps([Looked(id, true)] + a, id, imported)
  {
    assert ([Looked(id, true)] + a)[0] == Looked(id, true);
  }

  /** The end written when there is none, and the claim removed. */
  function FinishSteps(id: string, ended: bool, ok: bool): seq<Step> {
    (if ended then [] else [Wrote(id, Failed)]) + [Unclaimed(id, ok)]
  }

  /** Among these steps is the whole of finishing the task. */
  ghost predicate Settles(s: seq<Step>, id: string) {
    exists a, b, ended, ok :: s == a + FinishSteps(id, ended, ok) + b
  }

  lemma SettlesBy(id: string, ended: bool, ok: bool)
    ensures Settles(FinishSteps(id, ended, ok), id)
  {
    hide FinishSteps;
    assert FinishSteps(id, ended, ok) == [] + FinishSteps(id, ended, ok) + [];
  }

  lemma MoreSettles(s: seq<Step>, t: seq<Step>)
    ensures forall id :: Settles(s, id) || Settles(t, id) ==> Settles(s + t, id)
  {
    hide FinishSteps;
    forall id | Settles(s, id) ensures Settles(s + t, id) {
      var a, b, ended, ok :| s == a + FinishSteps(id, ended, ok) + b;
      assert s + t == a + FinishSteps(id, ended, ok) + (b + t);
    }
    forall id | Settles(t, id) ensures Settles(s + t, id) {
      var a, b, ended, ok :| t == a + FinishSteps(id, ended, ok) + b;
      assert s + t == (s + a) + FinishSteps(id, ended, ok) + b;
    }
  }

  lemma SettlesOn(l0: seq<Step>, l1: seq<Step>, l2: seq<Step>)
    requires l0 <= l1 <= l2
    ensures forall id :: Settles(l1[|l0|..], id) || Settles(l2[|l1|..], id) ==> Settles(l2[|l0|..], id)
  {
    hide Settles;
    assert l2[|l0|..] == l1[|l0|..] + l2[|l1|..];
    MoreSettles(l1[|l0|..], l2[|l1|..]);
  }

  /** A request that was not executed: what its verdict says, or it could not be taken. */
  ghost predicate SkipSteps(s: seq<Step>, v: Verdict, name: string) {
    if v.Passed? then s == [Took(name, false)] else exists ok :: s == PrepareSteps(v, name, ok)
  }

  /** How a round went: the requests listed, in what order, and what became of each that was looked at. */
  datatype Round = NotReady | Busy
    | Taken(listed: map<string, File>, files: seq<string>, verdicts: seq<Verdict>, steps: seq<seq<Step>>,
            executed: bool)

  /** Request k of a round: skipped as its verdict says, or, the last one looked at, executed. */
  ghost predicate Dealt(r: Round, k: nat)
    requires r.Taken? && k < |r.verdicts| == |r.steps| <= |r.files|
  {
    if r.executed && k == |r.verdicts| - 1
    then r.verdicts[k].Passed? && exists offline :: RunSteps(r.steps[k], r.files[k], offline)
    else SkipSteps(r.steps[k], r.verdicts[k], r.files[k])
  }

  /** A file under a name that holds a request of that id. */
  predicate NamesItself(f: File, name: string) {
    f.Holds? && f.request.id == name
  }

  lemma RunStepsBy(e: seq<Step>, id: string, offline: bool, ended: bool, ok: bool)
    requires ExecuteSteps(e, id, offline)
    ensures RunSteps([Took(id, true)] + ([Noted(id), Wrote(id, Running)] + e + FinishSteps(id, ended, ok)), id, offline)
  {
    hide ExecuteSteps;
    hide FinishSteps;
    assert [Took(id, true)] + ([Noted(id), Wrote(id, Running)] + e + FinishSteps(id, ended, ok)) ==
           [Took(id, true), Noted(id), Wrote(id, Running)] + e + FinishSteps(id, ended, ok);
  }

  /** Claim, note, write that it runs, execute, finish. */
  ghost predicate RunSteps(s: seq<Step>, id: string, offline: bool) {
    exists e, ended, ok :: ExecuteSteps(e, id, offline) &&
                           s == [Took(id, true), Noted(id), Wrote(id, Running)] + e + FinishSteps(id, ended, ok)
  }

  // ---------------------------------------------------------------- the files

  class Queue {
    const ttl: nat
    const historyLimit: nat

    /** Whether the service manager kills an agent's children with it. */
    const wholeUnit: bool

    var requests: map<string, File>
    var processing: map<string, Claim>
    var rejected: set<string>
    var status: map<string, Status>
    var child: Option<Child>
    var now: nat

    /** Children that outlived their agent and stand in no claim. */
    var strays: set<string>
    ghost var trace: seq<Event>

    /** The ids that ever had a stray child. */
    ghost var lost: set<string>

    /** Claims whose recorded pid now belongs to some other process. */
    var reused: set<string>
    ghost var log: seq<Step>

    /** How often the agent was killed. */
    ghost var kills: nat

    ghost function StatusOf(id: string): Option<Status> reads `status {
      if id in status then Some(status[id]) else None
    }

    predicate Terminal(id: string) reads `status {
      id in status && IsTerminal(status[id].state)
    }

    /** Ended, unless a stray child has a say in it. */
    ghost predicate Over(id: string) reads `status, `lost {
      Terminal(id) || id in lost
    }

    /** Not ended, unless a stray child has a say in it. */
    ghost predicate Open(id: string) reads `status, `lost {
      !Terminal(id) || id in lost
    }

    /** Somewhere an operator or the application finds it. */
    ghost predicate Kept(id: string) reads `requests, `processing, `rejected, `status {
      id in requests || id in processing || id in rejected || Terminal(id)
    }

    ghost predicate Valid() reads this {
      && Sound(trace, lost) && AllChecked(trace, ttl)
      && strays <= lost && (wholeUnit ==> lost == {})
      && (forall id | id in processing :: ValidId(id))
      && (forall id | id in ExecutedIn(trace) :: id in processing || Over(id))
      && (forall id | id in EndedIn(trace) :: Over(id))
      && (forall id | id in EnteredIn(trace) :: ValidId(id) && (Kept(id) || id in lost))
      && ChildClaimed()
    }

    /** A child belongs to a claim, is not older than the limit, and has not ended its task unless it said
        so itself. */
    ghost predicate ChildClaimed() reads this {
      child.Some? ==>
        && child.value.id in processing && processing[child.value.id].claimedAt.Some?
        && now <= processing[child.value.id].claimedAt.value + STALE_MS
        && (child.value.reports && !child.value.finished ==> Open(child.value.id))
    }

    /** The child, if any, is recorded in its claim: true whenever no agent is about to record it. */
    ghost predicate Settled() reads `child {
      child.Some? ==> child.value.recorded
    }

    /** No child, and every task still in processing has ended: nothing stands in the way of a claim. */
    ghost predicate Idle() reads this {
      child.None? && forall id | id in processing :: Over(id)
    }

    /** The id that the child at work reports on. */
    ghost predicate Reporting(id: string) reads `child {
      child.Some? && child.value.reports && child.value.id == id
    }

    // -------------------------------------------------------------- everyone else

    /** The application submits a request. */
    method Submit(name: string, file: File)
      requires Valid()
      modifies `requests, `trace
      ensures Valid()
      ensures requests == old(requests)[name := file]
      ensures trace == old(trace) + if ValidId(name) then [Entered(name)] else []
      ensures ExecutedIn(trace) == old(ExecutedIn(trace))
    {
      hide ExecutedIn;
      hide EndedIn;
      hide EnteredIn;
      hide Sound;
      hide AllChecked;
      hide ValidId;
      if ValidId(name) {
        NextEvent(trace, Entered(name), lost, ttl);
        trace := trace + [Entered(name)];
      }
      requests := requests[name := file];
    }

    /** Time passes. No child outlives the limit. */
    method Tick(ms: nat)
      requires Valid()
      modifies `now, `child
      ensures Valid() && now == old(now) + ms
      ensures child == old(child) || child.None?
    {
      now := now + ms;
      if child.Some? && now > processing[child.value.id].claimedAt.value + STALE_MS {
        child := None;
      }
    }

    /** Write the running state of a task that has not ended. */
    method WriteRunning(id: string)
      requires Valid() && Open(id)
      modifies `status, `trace
      ensures Valid() && status == old(status)[id := Status(Running, now)]
      ensures trace == old(trace) + [Began(id)] && ExecutedIn(trace) == old(ExecutedIn(trace))
    {
      hide ExecutedIn;
      hide EndedIn;
      hide EnteredIn;
      hide Sound;
      hide AllChecked;
      hide ValidId;
      NextEvent(trace, Began(id), lost, ttl);
      trace := trace + [Began(id)];
      status := status[id := Status(Running, now)];
    }

    /** Write a terminal state. A live reporting child ends its own task only by saying so. */
    method WriteTerminal(id: string, good: bool)
      requires Valid()
      requires Reporting(id) && !child.value.finished ==> id in lost
      modifies `status, `trace
      ensures Valid() && status == old(status)[id := Status(if good then Succeeded else Failed, now)]
      ensures trace == old(trace) + [Ended(id)] && ExecutedIn(trace) == old(ExecutedIn(trace))
    {
      hide ExecutedIn;
      hide EndedIn;
      hide EnteredIn;
      hide Sound;
      hide AllChecked;
      hide ValidId;
      NextEvent(trace, Ended(id), lost, ttl);
      trace := trace + [Ended(id)];
      status := status[id := Status(if good then Succeeded else Failed, now)];
    }

    /** The child writes its progress, its end, or exits. It reports only once that it has ended. */
    method ChildStep(deed: Deed)
      requires Valid()
      modifies `status, `child, `trace
      ensures Valid()
      ensures old(child).None? ==> child.None? && status == old(status) && trace == old(trace)
      ensures old(child).Some? && deed.Exit? ==> child.None? && status == old(status) && trace == old(trace)
      ensures old(child).Some? && !deed.Exit? ==>
                var c := old(child).value;
                && child == Some(c.(finished := c.finished || (c.reports && deed.End?)))
                && (if !c.reports || c.finished then status == old(status) && trace == old(trace)
                    else if deed.Progress? then
                      status == old(status)[c.id := Status(Running, now)] && trace == old(trace) + [Began(c.id)]
                    else
                      && status == old(status)[c.id := Status(if deed.good then Succeeded else Failed, now)]
                      && trace == old(trace) + [Ended(c.id)])
      ensures forall id | !old(Reporting(id)) ::
                StatusOf(id) == old(StatusOf(id)) && (Terminal(id) <==> old(Terminal(id)))
      ensures ExecutedIn(trace) == old(ExecutedIn(trace)) && old(trace) <= trace
    {
      hide ExecutedIn;
      hide EndedIn;
      hide EnteredIn;
      hide Sound;
      hide AllChecked;
      hide ValidId;
      if child.None? { return; }
      var id := child.value.id;
      match deed
      case Exit => child := None;
      case Progress =>
        if child.value.reports && !child.value.finished { WriteRunning(id); }
      case End(good) =>
        if child.value.reports && !child.value.finished {
          child := Some(child.value.(finished := true));
          WriteTerminal(id, good);
        }
    }

    /** A stray child writes its progress or its end, or exits. */
    method StrayStep(id: string, deed: Deed)
      requires Valid()
      modifies `status, `strays, `trace
      ensures Valid()
      ensures id !in old(strays) ==> strays == old(strays) && status == old(status) && trace == old(trace)
      ensures id in old(strays) ==>
                match deed
                case Exit => strays == old(strays) - {id} && status == old(status) && trace == old(trace)
                case Progress => strays == old(strays) && status == old(status)[id := Status(Running, now)]
                                 && trace == old(trace) + [Began(id)]
                case End(good) =>
                  && strays == old(strays) && trace == old(trace) + [Ended(id)]
                  && status == old(status)[id := Status(if good then Succeeded else Failed, now)]
      ensures forall other | other !in lost ::
                StatusOf(other) == old(StatusOf(other)) && (Terminal(other) <==> old(Terminal(other)))
      ensures ExecutedIn(trace) == old(ExecutedIn(trace)) && old(trace) <= trace
    {
      hide ExecutedIn;
      hide EndedIn;
      hide EnteredIn;
      hide Sound;
      hide AllChecked;
      hide ValidId;
      if id !in strays { return; }
      match deed
      case Exit => strays := strays - {id};
      case Progress => WriteRunning(id);
      case End(good) => WriteTerminal(id, good);
    }

    /** The agent is killed. Its child dies with it when the service manager sees to that. Otherwise a child
        whose pid is recorded goes on as before, and one whose pid is not goes on as a stray; a stray that
        reports nothing touches no file here. */
    method Killed()
      requires Valid()
      modifies `child, `strays, `lost, `kills
      ensures Valid() && Settled() && kills == old(kills) + 1
      ensures wholeUnit ==> child.None? && lost == old(lost)
      ensures !wholeUnit && old(Settled()) ==> child == old(child) && lost == old(lost) && strays == old(strays)
      ensures !wholeUnit && !old(Settled()) ==> child.None?
      ensures forall id | !wholeUnit && !old(Settled()) && old(Reporting(id)) ::
                lost == old(lost) + {id} && strays == old(strays) + {id}
      ensures forall id :: id in lost ==> id in old(lost) || (!wholeUnit && !old(Settled()) && old(Reporting(id)))
      ensures old(lost) <= lost
    {
      hide ExecutedIn;
      hide EndedIn;
      hide EnteredIn;
      hide Sound;
      hide AllChecked;
      hide ValidId;
      if child.Some? && (wholeUnit || !child.value.recorded) {
        if !wholeUnit && child.value.reports {
          MoreLost(trace, lost, lost + {child.value.id});
          lost := lost + {child.value.id};
          strays := strays + {child.value.id};
        }
        child := None;
      }
      kills := kills + 1;
    }

    /** Anything the others do between two steps of the agent; the agent may be killed there. */
    method Pause() returns (crashed: bool)
      requires Valid()
      modifies `requests, `status, `child, `now, `strays, `trace, `lost, `reused, `kills
      ensures Valid() && kills == old(kills) + if crashed then 1 else 0
      ensures forall n | n in old(requests) :: n in requests
      ensures child.Some? ==> old(child).Some? && child == Some(old(child).value.(finished := child.value.finished))
      ensures forall id | id !in lost && !old(Reporting(id)) ::
                StatusOf(id) == old(StatusOf(id)) && (Terminal(id) <==> old(Terminal(id)))
      ensures ExecutedIn(trace) == old(ExecutedIn(trace)) && old(trace) <= trace
      ensures crashed ==> Settled()
      ensures old(lost) <= lost && (!crashed || old(Settled()) ==> lost == old(lost))
      ensures forall id :: id in lost ==> id in old(lost) || (!wholeUnit && !old(Settled()) && old(Reporting(id)))
    {
      hide *;
      var steps: nat :| steps >= 0;
      for i := 0 to steps
        invariant Valid() && lost == old(lost) && kills == old(kills)
        invariant forall n | n in old(requests) :: n in requests
        invariant child.Some? ==> old(child).Some? && child == Some(old(child).value.(finished := child.value.finished))
        invariant forall id | id !in lost && !old(Reporting(id)) ::
                StatusOf(id) == old(StatusOf(id)) && (Terminal(id) <==> old(Terminal(id)))
        invariant ExecutedIn(trace) == old(ExecutedIn(trace)) && old(trace) <= trace
        invariant forall id :: Reporting(id) ==> old(Reporting(id))
        invariant old(Settled()) ==> Settled()
      {
        var move := AnyMove();
        Others(move);
      }
      crashed := *;
      if crashed {
        Killed();
      }
    }

    /** The same with no child at work: the one claim not settled is as it was. */
    method PauseAlone(id: string) returns (crashed: bool)
      requires Valid() && Alone(id)
      modifies `requests, `status, `child, `now, `strays, `trace, `lost, `reused, `kills
      ensures Valid() && Alone(id) && lost == old(lost) && kills == old(kills) + if crashed then 1 else 0
      ensures (Open(id) <==> old(Open(id))) && (id !in lost ==> StatusOf(id) == old(StatusOf(id)))
      ensures ExecutedIn(trace) == old(ExecutedIn(trace)) && old(trace) <= trace
    {
      hide Valid;
      hide Terminal;
      hide ExecutedIn;
      crashed := Pause();
    }

    /** One step of the application, of time, of the child, of a stray child, or of other processes. */
    method Others(move: Move)
      requires Valid()
      modifies `requests, `status, `child, `now, `strays, `trace, `reused
      ensures Valid()
      ensures forall n | n in old(requests) :: n in requests
      ensures child.Some? ==> old(child).Some? && child == Some(old(child).value.(finished := child.value.finished))
      ensures forall id | id !in lost && !old(Reporting(id)) ::
                StatusOf(id) == old(StatusOf(id)) && (Terminal(id) <==> old(Terminal(id)))
      ensures forall id :: Reporting(id) ==> old(Reporting(id))
      ensures old(Settled()) ==> Settled()
      ensures ExecutedIn(trace) == old(ExecutedIn(trace)) && old(trace) <= trace
      ensures requests == if move.Submits? then old(requests)[move.name := move.file] else old(requests)
      ensures now == if move.Passes? then old(now) + move.ms else old(now)
      ensures reused == if move.Reuse? then move.claims else old(reused)
      ensures move.ChildDoes? && move.deed.Exit? ==> child.None?
      ensures move.ChildDoes? && !move.deed.Exit? && old(child).Some? && child == old(child) && old(child).value.reports
                && !child.value.finished ==>
                trace == old(trace) + [Began(child.value.id)]
      ensures move.ChildDoes? && move.deed.End? && child.Some? && child.value.reports ==> child.value.finished
      ensures move.StrayDoes? && move.id in old(strays) ==>
                if move.deed.Exit? then move.id !in strays
                else trace == old(trace) + [if move.deed.Progress? then Began(move.id) else Ended(move.id)]
    {
      hide Valid;
      hide ExecutedIn;
      match move
      case Submits(name, file) => Submit(name, file);
      case Passes(ms) => Tick(ms);
      case ChildDoes(deed) => ChildStep(deed);
      case StrayDoes(id, deed) => StrayStep(id, deed);
      case Reuse(claims) => PidsReused(claims);
    }

    /** Other processes come and go, and can have the pid that a claim records. */
    method PidsReused(claims: set<string>)
      requires Valid()
      modifies `reused
      ensures Valid() && reused == claims
    {
      hide ExecutedIn;
      hide EndedIn;
      hide EnteredIn;
      hide Sound;
      hide AllChecked;
      hide ValidId;
      reused := claims;
    }

    method AnyMove() returns (move: Move) {
      move := *;
    }

    // -------------------------------------------------------------- crash recovery

    /** Remove a task that has ended from processing/; what can not be removed is left for later. */
    method RemoveClaim(id: string, removed: bool)
      requires Valid() && Over(id) && (child.Some? ==> child.value.id != id)
      modifies `processing, `log
      ensures Valid() && log == old(log) + [Unclaimed(id, removed)]
      ensures processing == if removed then old(processing) - {id} else old(processing)
    {
      hide ExecutedIn;
      hide EndedIn;
      hide EnteredIn;
      hide Sound;
      hide AllChecked;
      hide ValidId;
      if removed { processing := processing - {id}; }
      log := log + [Unclaimed(id, removed)];
    }

    /** The claim is past waiting for. */
    predicate TooOld(id: string) reads `processing, `now {
      id in processing && processing[id].claimedAt.Some? && now - processing[id].claimedAt.value > STALE_MS
    }

    /** Whether a pid in the claim answers: that of the recorded child, or one that some other process has by now. */
    predicate Answers(id: string) reads `child, `reused {
      (child.Some? && child.value.id == id && child.value.recorded) || id in reused
    }

    /** Deal with what an earlier agent left in processing/: wait for a child that is recorded and alive, else
        write that it failed. Busy means that a claim, not too old, has a pid that answers. */
    method RecoverStale() returns (crashed: bool, busy: bool)
      requires Valid() && Settled()
      modifies this
      ensures kills == old(kills) + if crashed then 1 else 0
      ensures Valid() && Settled() && lost == old(lost)
      ensures busy ==> !crashed && exists id :: id in processing && !TooOld(id) && Answers(id)
      ensures !crashed && !busy ==> Idle()
      ensures ExecutedIn(trace) == old(ExecutedIn(trace)) && old(trace) <= trace && old(log) <= log
      ensures !crashed && !busy ==> forall id | id in old(processing) :: Settles(log[|old(log)|..], id)
      ensures !crashed && !busy ==> forall id | id in old(processing) && id !in lost && !old(Reporting(id)) ::
                if old(Terminal(id)) then StatusOf(id) == old(StatusOf(id))
                else StatusOf(id).Some? && StatusOf(id).value.state.Failed?
    {
      hide ExecutedIn;
      hide EndedIn;
      hide EnteredIn;
      hide Sound;
      hide AllChecked;
      hide ValidId;
      hide Settles;
      var names := processing.Keys;
      ghost var all := names;
      while names != {}
        invariant Valid() && Settled() && lost == old(lost) && names <= processing.Keys && names <= all
        invariant kills == old(kills)
        invariant forall id | id in processing && id !in names :: Over(id)
        invariant child.Some? ==> child.value.id in names
        invariant forall id :: Reporting(id) ==> old(Reporting(id))
        invariant ExecutedIn(trace) == old(ExecutedIn(trace)) && old(trace) <= trace && old(log) <= log
        invariant forall id | id in all && id !in names :: Settles(log[|old(log)|..], id)
        invariant forall id | id in all && id !in lost && !old(Reporting(id)) ::
                    if id in names || old(Terminal(id)) then StatusOf(id) == old(StatusOf(id))
                    else StatusOf(id).Some? && StatusOf(id).value.state.Failed?
        decreases |names|
      {
        var id :| id in names;
        if !TooOld(id) && Answers(id) {
          return false, true;
        }
        names := names - {id};
        ghost var log1 := log;
        crashed := Recover(id);
        if crashed { return true, false; }
        SettlesOn(old(log), log1, log);
      }
      crashed, busy := false, false;
    }

    /** Write the end of a task whose agent is gone, and remove its claim. */
    method Recover(id: string) returns (crashed: bool)
      requires Valid() && Settled() && id in processing && (child.Some? ==> child.value.id != id)
      modifies this
      ensures kills == old(kills) + if crashed then 1 else 0
      ensures Valid() && Settled() && lost == old(lost)
      ensures !crashed ==> Over(id)
      ensures processing == old(processing) || processing == old(processing) - {id}
      ensures child.Some? ==> old(child).Some? && child == Some(old(child).value.(finished := child.value.finished))
      ensures forall other | other != id && (old(child).Some? ==> other != old(child).value.id) ::
                Over(other) <==> old(Over(other))
      ensures forall other | other != id && other !in lost && !old(Reporting(other)) ::
                StatusOf(other) == old(StatusOf(other))
      ensures !crashed && id !in lost ==>
                if old(Terminal(id)) then StatusOf(id) == old(StatusOf(id))
                else StatusOf(id).Some? && StatusOf(id).value.state.Failed?
      ensures ExecutedIn(trace) == old(ExecutedIn(trace)) && old(trace) <= trace && old(log) <= log
      ensures !crashed ==> Settles(log[|old(log)|..], id)
    {
      hide Valid;
      hide ExecutedIn;
      ghost var log0 := log;
      crashed := Pause();
      if crashed { return; }
      ghost var ended := Terminal(id);
      if !Terminal(id) {
        WriteTerminal(id, false);
        Log(Wrote(id, Failed));
      }
      crashed := Pause();
      if crashed { return; }
      var removed: bool := *;
      RemoveClaim(id, removed);
      assert log[|log0|..] == FinishSteps(id, ended, removed);
      SettlesBy(id, ended, removed);
    }

    // -------------------------------------------------------------- one request

    /** Move a request that cannot be taken to rejected/: under its own name if that is an id. */
    method Quarantine(name: string) returns (moved: bool, stamp: string)
      requires Valid() && name in requests
      modifies `requests, `rejected, `log
      ensures Valid() && log == old(log) + [Rejected(name, moved)]
      ensures !moved ==> requests == old(requests) && rejected == old(rejected)
      ensures moved ==> requests == old(requests) - {name}
      ensures moved ==> rejected == old(rejected) + {if ValidId(name) then name else stamp + "-" + name}
    {
      hide ExecutedIn;
      hide EndedIn;
      hide EnteredIn;
      hide Sound;
      hide AllChecked;
      hide ValidId;
      moved, stamp := *, *;
      if moved {
        requests := requests - {name};
        rejected := rejected + {if ValidId(name) then name else stamp + "-" + name};
      }
      log := log + [Rejected(name, moved)];
    }

    /** Remove a request whose task has ended. */
    method Discard(name: string) returns (removed: bool)
      requires Valid() && Terminal(name)
      modifies `requests, `log
      ensures Valid() && log == old(log) + [Discarded(name, removed)]
      ensures requests == if removed then old(requests) - {name} else old(requests)
    {
      hide ExecutedIn;
      hide EndedIn;
      hide EnteredIn;
      hide Sound;
      hide AllChecked;
      hide ValidId;
      removed := *;
      if removed { requests := requests - {name}; }
      log := log + [Discarded(name, removed)];
    }

    /** Every check on a request before it is claimed, in order; the first that fails decides what becomes of it.
        What was seen is what stood there when it was looked at. */
    method PrepareRequest(name: string)
      returns (crashed: bool, verdict: Verdict, request: Request, at: nat, moved: bool, ghost seen: map<string, File>)
      requires Valid() && Idle() && name in requests
      modifies this
      ensures kills == old(kills) + if crashed then 1 else 0
      ensures Valid() && Idle() && lost == old(lost) && at == old(now)
      ensures ExecutedIn(trace) == old(ExecutedIn(trace)) && old(trace) <= trace && processing == old(processing)
      ensures forall n | n in old(requests) && n != name :: n in requests
      ensures old(log) <= log && (!crashed ==> log == old(log) + PrepareSteps(verdict, name, moved))
      ensures !crashed ==> name in seen && (verdict.BadName? <==> !ValidId(name))
      ensures !crashed && !verdict.Invalid? ==> requests == seen || requests == seen - {name}
      ensures !crashed && !verdict.BadName? ==> (verdict.NotARequest? <==> !NamesItself(seen[name], name))
      ensures !crashed && !verdict.BadName? && !verdict.NotARequest? ==> request == seen[name].request
      ensures !crashed && verdict.HasEnded? ==> Terminal(name)
      ensures !crashed && verdict.Invalid? ==>
                !Checked(request, name, at, ttl) && (name in lost || (name in status && status[name].state.Failed?))
      ensures !crashed && verdict.Passed? ==>
                && requests == seen && !Terminal(name) && Checked(request, name, at, ttl)
                && (name in lost || name !in ExecutedIn(trace))
      ensures !crashed && !verdict.Passed? && moved ==> name !in requests || verdict.Invalid?
    {
      hide Valid;
      hide Terminal;
      hide ValidId;
      hide Validates;
      hide Checked;
      hide ExecutedIn;
      crashed, verdict, moved, at, seen := false, BadName, false, now, requests;
      var stamp;
      request := Request("", None, false, false, false, false);
      if !ValidId(name) {
        moved, stamp := Quarantine(name);
        return;
      }
      crashed := Pause();
      seen := requests;
      if crashed { return; }
      var file := requests[name];
      if !NamesItself(file, name) {
        verdict := NotARequest;
        moved, stamp := Quarantine(name);
        return;
      }
      request := file.request;
      if Terminal(name) {
        verdict := HasEnded;
        moved := Discard(name);
        return;
      }
      ValidatesMeans(request, name, at, ttl);
      if !Validates(request, at, ttl) {
        verdict := Invalid;
        Fail(name);
        crashed := Pause();
        if crashed { return; }
        moved, stamp := Quarantine(name);
        return;
      }
      NotExecuted(name);
      verdict := Passed;
    }

    /** The agent itself writes that a task has failed. */
    method Fail(id: string)
      requires Valid() && child.None?
      modifies `status, `trace, `log
      ensures Valid() && Terminal(id) && status == old(status)[id := Status(Failed, now)]
      ensures log == old(log) + [Wrote(id, Failed)]
      ensures forall other | other != id :: Terminal(other) <==> old(Terminal(other))
      ensures trace == old(trace) + [Ended(id)] && ExecutedIn(trace) == old(ExecutedIn(trace))
    {
      hide Valid;
      hide ExecutedIn;
      WriteTerminal(id, false);
      Log(Wrote(id, Failed));
    }

    /** A step of the agent. */
    ghost method Log(step: Step)
      requires Valid()
      modifies `log
      ensures Valid() && log == old(log) + [step]
    {
      hide ExecutedIn;
      hide EndedIn;
      hide EnteredIn;
      hide Sound;
      hide AllChecked;
      hide ValidId;
      log := log + [step];
    }

    /** With nothing under way, an id that has not ended has not been executed. */
    lemma NotExecuted(id: string)
      requires Valid() && Idle() && !Terminal(id)
      ensures id in lost || id !in ExecutedIn(trace)
    {
      hide ExecutedIn;
      hide EndedIn;
      hide EnteredIn;
      hide Sound;
      hide AllChecked;
      hide ValidId;
    }

    /** Take the request by renaming it into processing/. */
    method TakeRequest(name: string, taken: bool)
      requires Valid() && Idle() && name in requests && ValidId(name)
      modifies `requests, `processing, `log
      ensures Valid() && log == old(log) + [Took(name, taken)]
      ensures !taken ==> requests == old(requests) && processing == old(processing)
      ensures taken ==> requests == old(requests) - {name} && processing == old(processing)[name := Claim(None)]
    {
      hide ExecutedIn;
      hide EndedIn;
      hide EnteredIn;
      hide Sound;
      hide AllChecked;
      hide ValidId;
      if taken {
        requests := requests - {name};
        processing := processing[name := Claim(None)];
      }
      log := log + [Took(name, taken)];
    }

    /** Note the agent and the time in the claim. */
    method NoteClaim(id: string)
      requires Valid() && child.None? && id in processing
      modifies `processing, `log
      ensures Valid() && processing == old(processing)[id := Claim(Some(now))] && log == old(log) + [Noted(id)]
    {
      hide ExecutedIn;
      hide EndedIn;
      hide EnteredIn;
      hide Sound;
      hide AllChecked;
      hide ValidId;
      processing := processing[id := Claim(Some(now))];
      log := log + [Noted(id)];
    }

    /** Start a child; no claim names it yet. A child started later than the limit allows does not live. */
    method Fork(id: string, reports: bool)
      requires Valid() && child.None? && id in processing && processing[id].claimedAt.Some? && Open(id)
      modifies `child, `log
      ensures Valid() && log == old(log) + [Started(id, reports, true)]
      ensures child == if now <= processing[id].claimedAt.value + STALE_MS then Some(Child(id, reports, false, false))
              else None
    {
      hide ExecutedIn;
      hide EndedIn;
      hide EnteredIn;
      hide Sound;
      hide AllChecked;
      hide ValidId;
      if now <= processing[id].claimedAt.value + STALE_MS {
        child := Some(Child(id, reports, false, false));
      }
      log := log + [Started(id, reports, true)];
    }

    /** Record the child's pid in its claim. */
    method Record(id: string)
      requires Valid()
      modifies `child, `log
      ensures Valid() && Settled() && log == old(log) + [Recorded(id, true)]
      ensures child == if old(child).Some? then Some(old(child).value.(recorded := true)) else None
    {
      hide ExecutedIn;
      hide EndedIn;
      hide EnteredIn;
      hide Sound;
      hide AllChecked;
      hide ValidId;
      if child.Some? { child := Some(child.value.(recorded := true)); }
      log := log + [Recorded(id, true)];
    }

    /** The agent is at work on id and nothing else is under way. */
    ghost predicate Alone(id: string) reads this {
      child.None? && id in processing && forall other | other in processing && other != id :: Over(other)
    }

    /** Run a child to its end: start it, record it, wait. When it can not be recorded it is killed. The agent
        can be killed at each of these points; killed between start and record, it leaves a stray. */
    method RunChild(id: string, reports: bool) returns (crashed: bool, ok: bool, ghost steps: seq<Step>)
      requires Valid() && Alone(id) && processing[id].claimedAt.Some? && Open(id)
      modifies `requests, `processing, `status, `child, `now, `strays, `trace, `lost, `reused, `log, `kills
      ensures kills == old(kills) + if crashed then 1 else 0
      ensures Valid() && Settled() && processing == old(processing)
      ensures !crashed ==> Alone(id) && lost == old(lost)
      ensures !crashed && !reports ==> Open(id)
      ensures lost == old(lost) || (crashed && !wholeUnit && reports && lost == old(lost) + {id})
      ensures ExecutedIn(trace) == old(ExecutedIn(trace)) && old(trace) <= trace
      ensures forall n | n in old(requests) :: n in requests
      ensures log == old(log) + steps && (!crashed ==> ChildSteps(steps, id, reports, ok))
    {
      hide Valid;
      hide Terminal;
      hide ExecutedIn;
      crashed, ok, steps := false, *, [Started(id, reports, false)];
      if !ok {
        Log(Started(id, reports, false));
        return;
      }
      steps := [Started(id, reports, true)];
      Fork(id, reports);
      crashed := Pause();
      if crashed { return; }
      ok := *;
      steps := steps + [Recorded(id, ok)];
      if ok { Record(id); } else { Log(Recorded(id, false)); }
      crashed := Pause();
      if crashed { return; }
      Reap();
      if ok {
        ok := *;
        steps := steps + [Exited(id, ok)];
        Log(Exited(id, ok));
      }
    }

    /** The child has exited. */
    method Reap()
      requires Valid()
      modifies `child
      ensures Valid() && child.None?
    {
      hide ExecutedIn;
      hide EndedIn;
      hide EnteredIn;
      hide Sound;
      hide AllChecked;
      hide ValidId;
      child := None;
    }

    /** The one place an upgrade is executed. */
    method Begin(id: string, request: Request, at: nat)
      requires Valid() && id in processing && (id in lost || id !in ExecutedIn(trace)) && Checked(request, id, at, ttl)
      modifies `trace
      ensures Valid() && trace == old(trace) + [Executed(id, request, at)]
      ensures ExecutedIn(trace) == old(ExecutedIn(trace)) + {id}
    {
      NextEvent(trace, Executed(id, request, at), lost, ttl);
      hide ExecutedIn;
      hide EndedIn;
      hide EnteredIn;
      hide Sound;
      hide AllChecked;
      hide ValidId;
      trace := trace + [Executed(id, request, at)];
    }

    /** Look the bundle up and import it. */
    method Import(id: string) returns (crashed: bool, imported: bool, ghost steps: seq<Step>)
      requires Valid() && Alone(id) && processing[id].claimedAt.Some? && Open(id)
      modifies `requests, `processing, `status, `child, `now, `strays, `trace, `lost, `reused, `log, `kills
      ensures kills == old(kills) + if crashed then 1 else 0
      ensures Valid() && Settled() && lost == old(lost) && processing == old(processing)
      ensures !crashed ==> Alone(id) && Open(id)
      ensures ExecutedIn(trace) == old(ExecutedIn(trace)) && old(trace) <= trace
      ensures log == old(log) + steps && (!crashed ==> ImportSteps(steps, id, imported))
    {
      hide Valid;
      hide Terminal;
      hide ExecutedIn;
      hide ChildSteps;
      crashed, imported := false, false;
      var found: bool := *;
      steps := [Looked(id, found)];
      Log(Looked(id, found));
      if found {
        ghost var run;
        crashed, imported, run := RunChild(id, false);
        steps := [Looked(id, true)] + run;
        if !crashed { ImportedBy(run, id, imported); }
      }
    }

    /** Import the bundle first when offline, then upgrade. */
    method Execute(id: string, request: Request, at: nat) returns (crashed: bool, ghost steps: seq<Step>)
      requires Valid() && Alone(id) && processing[id].claimedAt.Some? && Open(id)
      requires (id in lost || id !in ExecutedIn(trace)) && Checked(request, id, at, ttl)
      modifies this
      ensures kills == old(kills) + if crashed then 1 else 0
      ensures Valid() && Settled() && (!crashed ==> Alone(id))
      ensures lost == old(lost) || (crashed && !wholeUnit && lost == old(lost) + {id})
      ensures ExecutedIn(trace) == old(ExecutedIn(trace)) + {id} && old(trace) + [Executed(id, request, at)] <= trace
      ensures log == old(log) + steps && (!crashed ==> ExecuteSteps(steps, id, request.offline))
    {
      hide Valid;
      hide Terminal;
      hide ExecutedIn;
      hide Checked;
      hide ChildSteps;
      hide ImportSteps;
      crashed, steps := false, [];
      Begin(id, request, at);
      if request.offline {
        var imported;
        crashed, imported, steps := Import(id);
        if crashed { return; }
        if !imported {
          Fail(id);
          steps := steps + [Wrote(id, Failed)];
          return;
        }
      }
      var ok;
      ghost var bundled := steps;
      crashed, ok, steps := RunChild(id, true);
      ghost var upgrade := steps;
      steps := bundled + upgrade;
      assert !request.offline ==> steps == upgrade;
    }

    /** Note the agent in the claim and write that it runs. */
    method Announce(id: string) returns (crashed: bool, ghost steps: seq<Step>)
      requires Valid() && Alone(id) && Open(id)
      modifies this
      ensures kills == old(kills) + if crashed then 1 else 0
      ensures Valid() && Alone(id) && lost == old(lost) && Open(id)
      ensures !crashed ==> processing[id].claimedAt.Some?
      ensures !crashed && id !in lost ==> StatusOf(id).Some? && StatusOf(id).value.state.Running?
      ensures old(trace) <= trace && ExecutedIn(trace) == old(ExecutedIn(trace))
      ensures log == old(log) + steps && (!crashed ==> steps == [Noted(id), Wrote(id, Running)])
    {
      hide Valid;
      hide Terminal;
      hide ExecutedIn;
      steps := [];
      crashed := PauseAlone(id);
      if crashed { return; }
      NoteClaim(id);
      steps := [Noted(id)];
      crashed := PauseAlone(id);
      if crashed { return; }
      Start(id);
      steps := [Noted(id), Wrote(id, Running)];
      crashed := PauseAlone(id);
    }

    /** The claimed request: announce it, execute it, and see to it that it has ended. */
    method RunClaimed(id: string, request: Request, at: nat) returns (crashed: bool, ghost steps: seq<Step>)
      requires Valid() && Alone(id) && Open(id) && (id in lost || id !in ExecutedIn(trace))
      requires Checked(request, id, at, ttl)
      modifies this
      ensures kills == old(kills) + if crashed then 1 else 0
      ensures Valid() && Settled() && old(trace) <= trace
      ensures !crashed ==> Idle() && Over(id) && ExecutedIn(trace) == old(ExecutedIn(trace)) + {id}
      ensures lost == old(lost) || (crashed && !wholeUnit && lost == old(lost) + {id})
      ensures log == old(log) + steps && (!crashed ==> RunSteps([Took(id, true)] + steps, id, request.offline))
    {
      hide Valid;
      hide Terminal;
      hide ExecutedIn;
      hide Checked;
      hide ExecuteSteps;
      hide RunSteps;
      crashed, steps := Announce(id);
      if crashed { return; }
      ghost var run, finish, ended, removed;
      crashed, run := Execute(id, request, at);
      steps := [Noted(id), Wrote(id, Running)] + run;
      if crashed { return; }
      crashed, finish, ended, removed := Finish(id);
      steps := [Noted(id), Wrote(id, Running)] + run + finish;
      if !crashed { RunStepsBy(run, id, request.offline, ended, removed); }
    }

    /** Write that the claimed request runs. */
    method Start(id: string)
      requires Valid() && Alone(id) && Open(id)
      modifies `status, `trace, `log
      ensures Valid() && Alone(id) && Open(id) && ExecutedIn(trace) == old(ExecutedIn(trace))
      ensures status == old(status)[id := Status(Running, now)] && trace == old(trace) + [Began(id)]
      ensures log == old(log) + [Wrote(id, Running)]
    {
      hide Valid;
      hide ExecutedIn;
      WriteRunning(id);
      Log(Wrote(id, Running));
    }

    /** See to it that the claimed request has ended, and remove its claim. */
    method Finish(id: string) returns (crashed: bool, ghost steps: seq<Step>, ghost ended: bool, removed: bool)
      requires Valid() && Alone(id)
      modifies this
      ensures kills == old(kills) + if crashed then 1 else 0
      ensures Valid() && Settled() && lost == old(lost)
      ensures old(trace) <= trace && ExecutedIn(trace) == old(ExecutedIn(trace))
      ensures !crashed ==> Idle() && Over(id)
      ensures ended == old(Terminal(id)) && log == old(log) + steps
      ensures !crashed ==> steps == FinishSteps(id, ended, removed)
      ensures !crashed && removed ==> id !in processing
    {
      hide Valid;
      hide Terminal;
      hide ExecutedIn;
      ended, steps, removed := Terminal(id), [], false;
      if !Terminal(id) {
        Fail(id);
        steps := [Wrote(id, Failed)];
      }
      crashed := Pause();
      if crashed { return; }
      removed := *;
      RemoveClaim(id, removed);
      steps := steps + [Unclaimed(id, removed)];
    }

    /** Check, claim and run one request. */
    method ProcessRequest(name: string)
      returns (crashed: bool, executed: bool, verdict: Verdict, ghost steps: seq<Step>)
      requires Valid() && Idle() && name in requests
      modifies this
      ensures kills == old(kills) + if crashed then 1 else 0
      ensures Valid() && Settled() && old(trace) <= trace
      ensures !crashed ==> Idle()
      ensures !crashed && executed ==>
                && Over(name) && (name in lost || name !in old(ExecutedIn(trace)))
                && ExecutedIn(trace) == old(ExecutedIn(trace)) + {name}
      ensures !crashed && !executed ==> ExecutedIn(trace) == old(ExecutedIn(trace))
      ensures !crashed && !executed ==> forall n | n in old(requests) && n != name :: n in requests
      ensures lost == old(lost) || (crashed && !wholeUnit && lost == old(lost) + {name})
      ensures log == old(log) + steps
      ensures !crashed && executed ==> verdict.Passed? && exists offline :: RunSteps(steps, name, offline)
      ensures !crashed && !executed ==> SkipSteps(steps, verdict, name)
    {
      hide Valid;
      hide Terminal;
      hide ExecutedIn;
      hide Checked;
      hide RunSteps;
      executed, steps := false, [];
      ghost var log0 := log;
      var request, at, moved;
      ghost var seen;
      crashed, verdict, request, at, moved, seen := PrepareRequest(name);
      steps := log[|log0|..];
      if crashed || !verdict.Passed? { return; }
      crashed := Pause();
      if crashed { return; }
      var taken: bool := *;
      TakeRequest(name, taken);
      steps := [Took(name, taken)];
      if !taken { return; }
      executed := true;
      ghost var run;
      crashed, run := RunClaimed(name, request, at);
      steps := [Took(name, true)] + run;
    }

    // -------------------------------------------------------------- history and whole rounds

    /** Remove the status of a task that has ended, or one that can not be read; that can fail. */
    method PruneOne(id: string) returns (removed: bool)
      requires Valid() && child.None? && id in status && !status[id].state.Queued? && !status[id].state.Running?
      modifies `status, `trace, `log
      ensures Valid() && old(trace) <= trace && log == old(log) + [Unlinked(id, removed)]
      ensures status == if removed then old(status) - {id} else old(status)
    {
      hide ExecutedIn;
      hide EndedIn;
      hide EnteredIn;
      hide Sound;
      hide AllChecked;
      hide ValidId;
      removed := *;
      if removed {
        if Terminal(id) {
          NextEvent(trace, Pruned(id), lost, ttl);
          trace := trace + [Pruned(id)];
        }
        status := status - {id};
      }
      log := log + [Unlinked(id, removed)];
    }

    /** A status behind the limit: its file is removed if that can be done, unless the task is pending. */
    method PruneUnlessPending(id: string)
      requires Valid() && child.None? && id in status
      modifies `status, `trace, `log
      ensures Valid() && old(trace) <= trace
      ensures Pending(old(status), id) ==> status == old(status) && log == old(log)
      ensures !Pending(old(status), id) ==>
                && log == old(log) + [Unlinked(id, id !in status)]
                && (status == old(status) || status == old(status) - {id})
    {
      hide Valid;
      if !status[id].state.Queued? && !status[id].state.Running? {
        var removed := PruneOne(id);
      }
    }

    /** Remove statuses beyond the history limit, newest kept first, but none of a task still waiting or
        running: in an order from new to old, exactly those behind the first `historyLimit`. */
    method PruneStatus() returns (order: seq<string>)
      requires Valid() && child.None?
      modifies `status, `trace, `log
      ensures Valid() && old(trace) <= trace && old(log) <= log
      ensures Ordered(order, NewestFirst(old(status)))
      ensures forall x :: x in order <==> x in old(status)
      ensures forall i, j | 0 <= i < j < |order| :: order[i] != order[j]
      ensures forall id | id in status :: id in old(status) && status[id] == old(status)[id]
      ensures forall k | 0 <= k < |order| && (k < historyLimit || Pending(old(status), order[k])) :: order[k] in status
      ensures forall k | historyLimit <= k < |order| && !Pending(old(status), order[k]) ::
                Unlinked(order[k], order[k] !in status) in log[|old(log)|..]
    {
      hide *;
      order := OrderByWritten(status);
      PruneBehind(order, if historyLimit < |order| then historyLimit else |order|);
    }

    /** Remove the statuses of an order from one place on, as far as they are not pending. */
    method PruneBehind(order: seq<string>, from: nat)
      requires Valid() && child.None? && from <= |order|
      requires forall x | x in order :: x in status
      requires forall i, j | 0 <= i < j < |order| :: order[i] != order[j]
      modifies `status, `trace, `log
      ensures Valid() && old(trace) <= trace && old(log) <= log
      ensures forall id | id in status :: id in old(status) && status[id] == old(status)[id]
      ensures forall k | 0 <= k < |order| && (k < from || Pending(old(status), order[k])) :: order[k] in status
      ensures forall k | from <= k < |order| && !Pending(old(status), order[k]) ::
                Unlinked(order[k], order[k] !in status) in log[|old(log)|..]
    {
      hide *;
      for k := from to |order|
        invariant Valid() && child.None? && old(trace) <= trace && old(log) <= log
        invariant forall id | id in status :: id in old(status) && status[id] == old(status)[id]
        invariant forall j | 0 <= j < |order| && (j < from || j >= k || Pending(old(status), order[j])) ::
                    order[j] in status
        invariant forall j | from <= j < k && !Pending(old(status), order[j]) ::
                    Unlinked(order[j], order[j] !in status) in log[|old(log)|..]
      {
        ghost var log1 := log[|old(log)|..];
        SamePending(old(status), status, order[k]);
        PruneUnlessPending(order[k]);
        ghost var unlinked := Unlinked(order[k], order[k] !in status);
        assert log[|old(log)|..] == log1 + if Pending(old(status), order[k]) then [] else [unlinked];
      }
    }

    /** One round of the agent, when it is ready: recover first, then take requests in order until one was
        executed, then prune. */
    method RunOnce(ready: bool) returns (crashed: bool, ghost round: Round)
      requires Valid() && Settled()
      modifies this
      ensures kills == old(kills) + if crashed then 1 else 0
      ensures Valid() && Settled() && old(trace) <= trace
      ensures lost == old(lost) || (crashed && !wholeUnit && exists id :: lost == old(lost) + {id})
      ensures !crashed ==> (round.NotReady? <==> !ready)
      ensures round.NotReady? && !crashed ==> unchanged(this)
      ensures !crashed && round.Taken? ==>
                && Ordered(round.files, EarliestFirst(round.listed))
                && (forall x :: x in round.files <==> x in round.listed)
                && |round.verdicts| <= |round.files| && |round.verdicts| == |round.steps|
                && (!round.executed ==> |round.verdicts| == |round.files|)
                && forall k | 0 <= k < |round.verdicts| :: Dealt(round, k)
    {
      hide Valid;
      hide Terminal;
      hide ExecutedIn;
      hide Idle;
      hide EarliestFirst;
      hide SkipSteps;
      hide RunSteps;
      crashed, round := false, NotReady;
      if !ready { return; }
      var busy;
      crashed, busy := RecoverStale();
      if busy { round := Busy; }
      if crashed || busy { return; }
      ghost var listed := requests;
      var names := Listing(requests.Keys);
      var files := OrderByRequestedAt(names, requests);
      var executed := false;
      round := Taken(listed, files, [], [], false);
      for k := 0 to |files|
        invariant Valid() && Idle() && old(trace) <= trace && !executed && !crashed && lost == old(lost)
        invariant kills == old(kills)
        invariant forall j | k <= j < |files| :: files[j] in requests
        invariant round.Taken? && round.listed == listed && round.files == files && !round.executed
        invariant |round.verdicts| == |round.steps| == k && forall j | 0 <= j < k :: Dealt(round, j)
      {
        var verdict;
        ghost var steps, earlier := *, round;
        crashed, executed, verdict, steps := ProcessRequest(files[k]);
        if crashed { return; }
        round := Taken(listed, files, round.verdicts + [verdict], round.steps + [steps], executed);
        forall j | 0 <= j < k ensures Dealt(round, j) { assert Dealt(earlier, j); }
        assert round.steps[k] == steps && round.verdicts[k] == verdict && round.files[k] == files[k];
        assert executed ==> verdict.Passed? && exists offline :: RunSteps(steps, files[k], offline);
        assert !executed ==> SkipSteps(steps, verdict, files[k]);
        assert Dealt(round, k);
        if executed { break; }
      }
      IdleChild();
      var order := PruneStatus();
    }

    lemma IdleChild()
      requires Idle()
      ensures child.None?
    {
    }

    /** Any number of rounds, with everyone else at work in between and the agent killed anywhere. */
    method Serve(rounds: nat)
      requires Valid() && Settled()
      modifies this
      ensures Valid() && Settled() && old(trace) <= trace
    {
      hide *;
      for k := 0 to rounds
        invariant Valid() && Settled() && old(trace) <= trace
      {
        var ready: bool := *;
        var crashed;
        ghost var round;
        crashed, round := RunOnce(ready);
        crashed := Rest();
      }
    }

    /** Between two rounds. */
    method Rest() returns (crashed: bool)
      requires Valid() && Settled()
      modifies this
      ensures kills == old(kills) + if crashed then 1 else 0
      ensures Valid() && Settled() && old(trace) <= trace
    {
      hide Valid;
      hide ExecutedIn;
      crashed := Pause();
    }

    /** What holds at every moment of every run: of every id when the service manager kills the whole unit,
        and otherwise of every id whose child no agent ever left behind unrecorded. */
    lemma Guarantees(i: nat)
      requires Valid() && i < |trace| && (wholeUnit || trace[i].id !in lost)
      ensures forall j | i < j < |trace| ::
                && (trace[i].Executed? && trace[j].Executed? && trace[j].id == trace[i].id ==>
                      PrunedBetween(trace, i, j, trace[i].id))
                && (trace[i].Ended? && trace[j] == Began(trace[i].id) ==> PrunedBetween(trace, i, j, trace[i].id))
      ensures trace[i].Entered? && !PrunedBetween(trace, i, |trace|, trace[i].id) ==> Kept(trace[i].id)
    {
      hide ExecutedIn;
      hide EndedIn;
      hide EnteredIn;
      hide Sound;
      hide AllChecked;
      hide ValidId;
      hide PrunedBetween;
      forall j | i < j < |trace|
        ensures trace[i].Executed? && trace[j].Executed? && trace[j].id == trace[i].id ==>
                  PrunedBetween(trace, i, j, trace[i].id)
        ensures trace[i].Ended? && trace[j] == Began(trace[i].id) ==> PrunedBetween(trace, i, j, trace[i].id)
      {
        if trace[i].Executed? && trace[j].Executed? && trace[j].id == trace[i].id {
          ExecutedOnce(trace, lost, i, j);
        }
        if trace[i].Ended? && trace[j] == Began(trace[i].id) { NeverRevived(trace, lost, i, j); }
      }
      if trace[i].Entered? && !PrunedBetween(trace, i, |trace|, trace[i].id) { StillThere(trace, i); }
    }

    /** Whatever was executed had passed every check before, with the limits written out. */
    lemma OnlyCheckedExecuted(i: nat)
      requires Valid() && i < |trace| && trace[i].Executed?
      ensures var r, at := trace[i].request, trace[i].checkedAt;
              && r.id == trace[i].id && r.wellFormed && r.signed && r.allowed
              && r.requestedAt.Some? && at - ttl <= r.requestedAt.value <= at + 5 * 60 * 1000
    {
      hide ExecutedIn;
      hide EndedIn;
      hide EnteredIn;
      hide Sound;
      hide ValidId;
    }

    /** The run that breaks all three when the unit is not killed as a whole, in the agent's own steps: the
        agent is killed between starting the child and recording it; the next one finds no live child, writes
        the end and removes the claim; then the child reports its progress. The task that had ended runs, no
        file tells of it, and when it is submitted again it is executed again. The steps stand in the order in
        which a round takes them when nobody interferes; the checks of the request are asserted, not called,
        because a round leaves its choices open and no contract of it can say which run was had. */
    method StrayRun(id: string)
      requires Valid() && Idle() && !wholeUnit && ValidId(id) && lost == {}
      requires trace == [] && requests == map[] && processing == map[] && id !in status && id !in rejected
      modifies this
      ensures Valid() && Idle() && trace == StrayHistory(id, AnyRequest(id, now), now)[..5]
      ensures status == old(status)[id := Status(Running, now)] && !Kept(id) && lost == {id}
      ensures processing == map[] && requests == map[]
    {
      hide Valid;
      hide ExecutedIn;
      hide ValidId;
      NothingExecuted();
      AgentBegins(id);
      LeaveStray(id);
      assert child.None? && id in strays;
      Fail(id);
      RemoveClaim(id, true);
      WriteRunning(id);
    }

    /** The agent starts the child and is killed before it records it. */
    method LeaveStray(id: string)
      requires Valid() && child.None? && !wholeUnit && processing == map[id := Claim(Some(now))] && Open(id)
      modifies `child, `strays, `lost, `log, `kills
      ensures Valid() && child.None? && lost == old(lost) + {id} && strays == old(strays) + {id}
    {
      hide Valid;
      hide ExecutedIn;
      Fork(id, true);
      Killed();
    }

    /** What an agent does with a sound request up to starting the upgrade. */
    method AgentBegins(id: string)
      requires Valid() && Idle() && ValidId(id) && processing == map[] && requests == map[]
      requires Open(id) && (id in lost || id !in ExecutedIn(trace))
      modifies this
      ensures Valid() && child.None? && lost == old(lost) && now == old(now) && rejected == old(rejected)
      ensures requests == map[] && processing == map[id := Claim(Some(now))]
      ensures status == old(status)[id := Status(Running, now)]
      ensures trace == old(trace) + [Entered(id), Began(id), Executed(id, AnyRequest(id, now), now)]
    {
      hide Valid;
      hide ExecutedIn;
      hide ValidId;
      var request := AnyRequest(id, now);
      Submit(id, Holds(request));
      assert NamesItself(Holds(request), id) && Validates(request, now, ttl);
      TakeRequest(id, true);
      NoteClaim(id);
      WriteRunning(id);
      Begin(id, request, now);
    }

    /** And the rest of it: the same id is executed a second time. */
    method StrayRunTwice(id: string)
      requires Valid() && Idle() && !wholeUnit && ValidId(id) && lost == {}
      requires trace == [] && requests == map[] && processing == map[] && id !in status && id !in rejected
      modifies this
      ensures Valid() && trace == StrayHistory(id, AnyRequest(id, now), now)
    {
      hide Valid;
      hide ExecutedIn;
      hide ValidId;
      StrayRun(id);
      AgentBegins(id);
    }

    /** A queue nobody has claimed from, with whatever statuses are left from before. */
    constructor (ttl: nat, historyLimit: nat, wholeUnit: bool, status: map<string, Status>)
      ensures Valid() && Settled() && trace == [] && lost == {} && this.status == status
      ensures this.wholeUnit == wholeUnit
    {
      this.ttl, this.historyLimit, this.wholeUnit, this.status := ttl, historyLimit, wholeUnit, status;
      requests, processing, rejected, child, now := map[], map[], {}, None, 0;
      strays, trace, lost, reused, log, kills := {}, [], {}, {}, [], 0;
    }
  }

  /** When a request says it was made; never, for what cannot be read. */
  function RequestedAt(f: File): Option<int> {
    if f.Holds? then f.request.requestedAt else None
  }

  function NoLater(a: Option<int>, b: Option<int>): bool {
    b.None? || (a.Some? && a.value <= b.value)
  }

  function EarliestFirst(requests: map<string, File>): (string, string) -> bool {
    (a, b) => NoLater(if a in requests then RequestedAt(requests[a]) else None,
                      if b in requests then RequestedAt(requests[b]) else None)
  }

  lemma EarliestFirstOrders(requests: map<string, File>)
    ensures Preorder(EarliestFirst(requests))
  {
    hide RequestedAt;
  }

  /** The requests in the order they were made; unreadable ones last; ties as listed. */
  method OrderByRequestedAt(names: seq<string>, requests: map<string, File>) returns (r: seq<string>)
    requires forall i, j | 0 <= i < j < |names| :: names[i] != names[j]
    ensures Ordered(r, EarliestFirst(requests))
    ensures forall x :: x in r <==> x in names
    ensures forall i, j | 0 <= i < j < |r| :: r[i] != r[j]
    ensures forall p: string -> bool | (forall a, b :: p(a) && p(b) ==> EarliestFirst(requests)(a, b)) ::
            Only(r, p) == Only(names, p)
  {
    hide EarliestFirst;
    var leq := EarliestFirst(requests);
    r := Sort(names, leq);
    EarliestFirstOrders(requests);
    SortOrdered(names, leq);
    SameMembers(names, r);
    forall p: string -> bool | forall a, b :: p(a) && p(b) ==> EarliestFirst(requests)(a, b)
      ensures Only(r, p) == Only(names, p)
    {
      SortStable(names, leq, p);
    }
  }

  /** The ids of all statuses, the last written first. */
  method OrderByWritten(status: map<string, Status>) returns (r: seq<string>)
    ensures Ordered(r, NewestFirst(status))
    ensures forall x :: x in r <==> x in status
    ensures forall i, j | 0 <= i < j < |r| :: r[i] != r[j]
  {
    hide NewestFirst;
    var names := Listing(status.Keys);
    NewestFirstOrders(status);
    SortOrdered(names, NewestFirst(status));
    r := Sort(names, NewestFirst(status));
    SameMembers(names, r);
  }

  /** Some enumeration of a set, as readdir gives one. */
  method Listing(s: set<string>) returns (r: seq<string>)
    ensures forall x :: x in r <==> x in s
    ensures forall i, j | 0 <= i < j < |r| :: r[i] != r[j]
  {
    var rest := s;
    r := [];
    while rest != {}
      invariant rest <= s
      invariant forall x :: x in r <==> x in s && x !in rest
      invariant forall i, j | 0 <= i < j < |r| :: r[i] != r[j]
      decreases |rest|
    {
      var x :| x in rest;
      rest := rest - {x};
      r := r + [x];
    }
  }

  function WrittenAt(status: map<string, Status>, id: string): int {
    if id in status then status[id].written else -1
  }

  function NewestFirst(status: map<string, Status>): (string, string) -> bool {
    (a, b) => WrittenAt(status, a) >= WrittenAt(status, b)
  }

  lemma NewestFirstOrders(status: map<string, Status>)
    ensures Preorder(NewestFirst(status))
  {
    hide WrittenAt;
  }

  lemma SamePending(a: map<string, Status>, b: map<string, Status>, id: string)
    requires id in a && id in b && a[id] == b[id]
    ensures Pending(a, id) <==> Pending(b, id)
  {
  }

  /** A status that says the task is still waiting or running. */
  predicate Pending(status: map<string, Status>, id: string) {
    id in status && (status[id].state.Queued? || status[id].state.Running?)
  }

  lemma {:induction false} MultisetDistinct(xs: seq<string>, i: nat, j: nat)
    requires i < j < |xs| && xs[i] == xs[j]
    ensures multiset(xs)[xs[i]] >= 2
  {
    assert xs == xs[..j] + [xs[j]] + xs[j + 1..];
    assert xs[..j][i] == xs[j] && xs[j] in multiset(xs[..j]);
  }

  lemma {:induction false} DistinctMultiset(xs: seq<string>, x: string)
    requires forall i, j | 0 <= i < j < |xs| :: xs[i] != xs[j]
    ensures multiset(xs)[x] <= 1
  {
    if xs != [] {
      var init, last := xs[..|xs| - 1], xs[|xs| - 1];
      assert xs == init + [last];
      DistinctMultiset(init, x);
      if x == last {
        assert last !in init;
        assert last !in multiset(init);
      }
    }
  }

  lemma SameMembers(xs: seq<string>, ys: seq<string>)
    requires multiset(xs) == multiset(ys) && forall i, j | 0 <= i < j < |xs| :: xs[i] != xs[j]
    ensures forall x :: x in xs <==> x in ys
    ensures forall i, j | 0 <= i < j < |ys| :: ys[i] != ys[j]
  {
    forall x ensures x in xs <==> x in ys {
      assert x in multiset(xs) <==> x in multiset(ys);
    }
    forall i, j | 0 <= i < j < |ys| ensures ys[i] != ys[j] {
      if ys[i] == ys[j] {
        MultisetDistinct(ys, i, j);
        DistinctMultiset(xs, ys[i]);
        assert false;
      }
    }
  }
}
