/** One blue/green upgrade run against a host where any command can fail. */
module HotUpgrade {
  import opened TextLines
  import opened Upstream
  import opened Wrappers

  type Image = string

  /** What a run does to the host, in order, and whether it worked. */
  datatype Event =
    | CheckedImage(image: Image, ok: bool)
    | BackedUp(ok: bool)
    | Started(color: Color, image: Image, ok: bool)
    | Probed(color: Color, ok: bool, at: nat)
    | Migrated(color: Color, image: Image, ok: bool)
    | Saved(text: string, ok: bool)
    | Wrote(text: string, ok: bool)
    | Tested(ok: bool)
    | Reloaded(text: string, ok: bool)
    | Stopped(color: Color, serving: Result<Color, Error>, ok: bool)

  datatype Outcome =
    | Success(warned: bool)
    | Refused | DryRun | ImageMissing | BackupFailed | StartFailed
    | NotReady | MigrateFailed | SwitchFailed | RolledBack | RollbackFailed

  datatype Options = Options(apply: bool, offline: bool, readyzMs: nat, observeMs: nat)

  const WAIT_MS := 3000
  const OBSERVE_MS := 5000

  function Other(c: Color): Color {
    if c.Blue? then Green else Blue
  }

  /** A stop of the colour that was serving. */
  ghost predicate Harmful(e: Event) {
    e.Stopped? && e.serving == Ok(e.color)
  }

  /** Since event n, only probes of c. */
  ghost predicate Quiet(trace: seq<Event>, n: nat, c: Color) {
    forall i | n <= i < |trace| :: trace[i].Probed? && trace[i].color == c
  }

  /** Since event n, only probes of c that found it ready. */
  ghost predicate AllReady(trace: seq<Event>, n: nat, c: Color) {
    forall i | n <= i < |trace| :: trace[i].Probed? && trace[i].color == c && trace[i].ok
  }

  /** Since event n, only probes of c that found it not ready. */
  ghost predicate NoneReady(trace: seq<Event>, n: nat, c: Color) {
    forall i | n <= i < |trace| :: trace[i].Probed? && trace[i].color == c && !trace[i].ok
  }

  /** Every probe but the last answered one way, and the last the other. */
  ghost predicate LastTells(trace: seq<Event>, n: nat, c: Color, ok: bool) {
    && n < |trace| && trace[|trace| - 1].Probed? && trace[|trace| - 1].color == c && trace[|trace| - 1].ok == ok
    && if ok then NoneReady(trace[..|trace| - 1], n, c) else AllReady(trace[..|trace| - 1], n, c)
  }

  /** The original put back: written, and tested when that worked. */
  predicate PutBack(t: seq<Event>, original: string) {
    || t == [Wrote(original, false)]
    || t == [Wrote(original, true), Tested(true)] || t == [Wrote(original, true), Tested(false)]
  }

  /** Save the original, write the candidate, test it, reload; the first step that fails ends it, and when the
      candidate is in place by then the original is put back. */
  ghost predicate Installs(t: seq<Event>, original: string, next: string, ok: bool) {
    if ok then t == [Saved(original, true), Wrote(next, true), Tested(true), Reloaded(next, true)]
    else
      || t == [Saved(original, false)]
      || t == [Saved(original, true), Wrote(next, false)]
      || (|t| > 3 && t[..3] == [Saved(original, true), Wrote(next, true), Tested(false)] && PutBack(t[3..], original))
      || (|t| > 4 && t[..4] == [Saved(original, true), Wrote(next, true), Tested(true), Reloaded(next, false)]
          && PutBack(t[4..], original))
  }

  /** Test and reload what is there already. */
  ghost predicate Refreshes(t: seq<Event>, conf: string, ok: bool) {
    if ok then t == [Tested(true), Reloaded(conf, true)]
    else t == [Tested(false)] || t == [Tested(true), Reloaded(conf, false)]
  }

  /** What pointing the configuration at a colour does; nothing when it cannot be rendered. */
  ghost predicate Switches(t: seq<Event>, conf: string, c: Color, ok: bool) {
    match Render(conf, c)
    case Err(_) => !ok && t == []
    case Ok(next) => if next == conf then Refreshes(t, conf, ok) else Installs(t, conf, next, ok)
  }

  class Host {
    /** The configuration file nginx reads at its next reload. */
    var conf: string
    /** The configuration nginx runs with. */
    var loaded: string
    /** The copy of the configuration made before the last change to it. */
    var backup: string
    var running: set<Color>
    var now: nat
    ghost var trace: seq<Event>

    // ---------------------------------------------------------------- commands, each of which can fail

    /** The image must be on this machine. */
    method CheckImage(image: Image) returns (ok: bool)
      modifies `trace
      ensures trace == old(trace) + [CheckedImage(image, ok)]
    {
      ok := *;
      trace := trace + [CheckedImage(image, ok)];
    }

    method Backup() returns (ok: bool)
      modifies `trace
      ensures trace == old(trace) + [BackedUp(ok)]
    {
      ok := *;
      trace := trace + [BackedUp(ok)];
    }

    /** A failed start can leave the container running. */
    method Start(c: Color, image: Image) returns (ok: bool)
      modifies `running, `trace
      ensures old(running) <= running <= old(running) + {c}
      ensures ok ==> c in running
      ensures trace == old(trace) + [Started(c, image, ok)]
    {
      ok := *;
      var up: bool := *;
      if ok || up { running := running + {c}; }
      trace := trace + [Started(c, image, ok)];
    }

    method Migrate(c: Color, image: Image) returns (ok: bool)
      modifies `trace
      ensures trace == old(trace) + [Migrated(c, image, ok)]
    {
      ok := *;
      trace := trace + [Migrated(c, image, ok)];
    }

    /** A stop that fails can have stopped the container all the same. */
    method Stop(c: Color) returns (ok: bool)
      modifies `running, `trace
      ensures running == old(running) || running == old(running) - {c}
      ensures ok ==> c !in running
      ensures trace == old(trace) + [Stopped(c, ParseActive(loaded), ok)]
    {
      ok := *;
      trace := trace + [Stopped(c, ParseActive(loaded), ok)];
      var down: bool := *;
      if ok || down { running := running - {c}; }
    }

    method Probe(c: Color) returns (ok: bool)
      modifies `now, `trace
      ensures now >= old(now)
      ensures trace == old(trace) + [Probed(c, ok, now)]
    {
      ok := *;
      var took: nat :| took >= 0;
      now := now + took;
      trace := trace + [Probed(c, ok, now)];
    }

    method Sleep(ms: nat)
      modifies `now
      ensures now >= old(now) + ms
    {
      var late: nat :| late >= 0;
      now := now + ms + late;
    }

    /** Write to a temporary file and rename: the file has the whole text or is as it was. */
    method WriteConf(text: string) returns (ok: bool)
      modifies `conf, `trace
      ensures conf == if ok then text else old(conf)
      ensures trace == old(trace) + [Wrote(text, ok)]
    {
      ok := *;
      if ok { conf := text; }
      trace := trace + [Wrote(text, ok)];
    }

    method WriteBackup(text: string) returns (ok: bool)
      modifies `backup, `trace
      ensures backup == if ok then text else old(backup)
      ensures trace == old(trace) + [Saved(text, ok)]
    {
      ok := *;
      if ok { backup := text; }
      trace := trace + [Saved(text, ok)];
    }

    /** nginx -t. */
    method Test() returns (ok: bool)
      modifies `trace
      ensures trace == old(trace) + [Tested(ok)]
    {
      ok := *;
      trace := trace + [Tested(ok)];
    }

    /** A failed reload leaves nginx with the configuration it had. */
    method Reload() returns (ok: bool)
      modifies `loaded, `trace
      ensures loaded == if ok then conf else old(loaded)
      ensures trace == old(trace) + [Reloaded(conf, ok)]
    {
      ok := *;
      if ok { loaded := conf; }
      trace := trace + [Reloaded(conf, ok)];
    }

    /** What was added to the trace. */
    lemma Since(t0: seq<Event>, t: seq<Event>)
      requires trace == t0 + t
      ensures t0 <= trace && trace[|t0|..] == t
    {
    }

    lemma SinceBoth(t0: seq<Event>, t1: seq<Event>)
      requires t0 <= t1 <= trace
      ensures t0 <= trace && trace[|t0|..] == t1[|t0|..] + trace[|t1|..]
    {
    }

    // ---------------------------------------------------------------- waiting and observing

    /** Probe until ready or out of time: no answer is passed over, and none given up on before its time. */
    method WaitReadyz(c: Color, timeoutMs: nat) returns (ok: bool)
      modifies `now, `trace
      ensures now >= old(now) && old(trace) <= trace && Quiet(trace, |old(trace)|, c)
      ensures ok ==> LastTells(trace, |old(trace)|, c, true)
      ensures !ok ==> NoneReady(trace, |old(trace)|, c) && now >= old(now) + timeoutMs
    {
      var deadline := now + timeoutMs;
      ok := false;
      while now < deadline
        invariant old(trace) <= trace && NoneReady(trace, |old(trace)|, c)
        invariant !ok && now >= old(now)
        decreases deadline - now
      {
        ghost var before := trace;
        ok := Probe(c);
        assert trace[..|trace| - 1] == before;
        if ok { return; }
        Sleep(WAIT_MS);
      }
    }

    /** Probe throughout the window. The window holds when every probe found it ready and the last came after
        its end, or the window is empty; the first probe that does not ends it. */
    method Observe(c: Color, observeMs: nat) returns (ok: bool)
      modifies `now, `trace
      ensures old(trace) <= trace && Quiet(trace, |old(trace)|, c)
      ensures ok ==> AllReady(trace, |old(trace)|, c)
      ensures !ok ==> LastTells(trace, |old(trace)|, c, false)
      ensures ok && observeMs > 0 ==>
                trace != old(trace) && trace[|trace| - 1].Probed? && trace[|trace| - 1].at >= old(now) + observeMs
    {
      var deadline := now + observeMs;
      while now < deadline
        invariant old(trace) <= trace && AllReady(trace, |old(trace)|, c)
        invariant now != old(now) ==> trace != old(trace) && trace[|trace| - 1].Probed? && trace[|trace| - 1].at == now
        decreases deadline - now
      {
        Sleep(OBSERVE_MS);
        ghost var before := trace;
        ok := Probe(c);
        assert trace[..|trace| - 1] == before;
        if !ok { return; }
      }
      ok := true;
    }

    // ---------------------------------------------------------------- switching

    /** Write the original back after a failed step. Whether that worked only goes into the message. */
    method RestoreConf(original: string)
      modifies `conf, `trace
      ensures conf == original || conf == old(conf)
      ensures |trace| > |old(trace)| && old(trace) <= trace && PutBack(trace[|old(trace)|..], original)
      ensures conf == if trace[|old(trace)|] == Wrote(original, true) then original else old(conf)
    {
      var written := WriteConf(original);
      ghost var t := trace;
      if written {
        var tested := Test();
      }
      assert trace[|old(trace)|..] == [Wrote(original, written)] + trace[|t|..];
    }

    /** Write the candidate, test it and reload; put the original back when that fails. */
    method InstallConf(original: string, next: string) returns (ok: bool)
      requires conf == original
      modifies `conf, `loaded, `backup, `trace
      ensures conf != original ==> backup == original
      ensures ok ==> conf == loaded == next
      ensures !ok ==> loaded == old(loaded) && (conf == original || conf == next)
      ensures old(trace) <= trace && Installs(trace[|old(trace)|..], original, next, ok)
    {
      ghost var t0 := trace;
      var backedUp := WriteBackup(original);
      Since(t0, [Saved(original, backedUp)]);
      if !backedUp { return false; }
      var written := WriteConf(next);
      Since(t0, [Saved(original, true), Wrote(next, written)]);
      if !written { return false; }
      var tested := Test();
      Since(t0, [Saved(original, true), Wrote(next, true), Tested(tested)]);
      ghost var t3 := trace;
      if !tested {
        RestoreConf(original);
        SinceBoth(t0, t3);
        return false;
      }
      ok := Reload();
      ghost var t4 := trace;
      Since(t0, [Saved(original, true), Wrote(next, true), Tested(true), Reloaded(next, ok)]);
      if !ok {
        RestoreConf(original);
        SinceBoth(t0, t4);
      }
    }

    method Refresh() returns (ok: bool)
      modifies `loaded, `trace
      ensures loaded == if ok then conf else old(loaded)
      ensures old(trace) <= trace && Refreshes(trace[|old(trace)|..], conf, ok)
    {
      ghost var t0 := trace;
      ok := Test();
      Since(t0, [Tested(ok)]);
      if ok {
        ok := Reload();
        Since(t0, [Tested(true), Reloaded(conf, ok)]);
      }
    }

    /** Point the configuration at the colour and reload, or leave what is loaded alone. */
    method SwitchTraffic(c: Color) returns (ok: bool)
      modifies `conf, `loaded, `backup, `trace
      ensures conf != old(conf) ==> backup == old(conf)
      ensures ok ==> Render(old(conf), c) == Ok(conf) && conf == loaded && ParseActive(loaded) == Ok(c)
      ensures !ok ==> loaded == old(loaded)
      ensures !ok ==> conf == old(conf) || Render(old(conf), c) == Ok(conf)
      ensures old(trace) <= trace && Switches(trace[|old(trace)|..], old(conf), c, ok)
    {
      hide *;
      var original := conf;
      ghost var t0 := trace;
      var rendered := RenderUpstream(original, c);
      if rendered.Err? {
        Since(t0, []);
        SwitchesIs([], original, c, false);
        return false;
      }
      RenderSwitches(original, c);
      if rendered.value == original {
        ok := Refresh();
      } else {
        ok := InstallConf(original, rendered.value);
      }
      SwitchesIs(trace[|t0|..], original, c, ok);
    }

    // ---------------------------------------------------------------- the run

    /** Switch, observe, and switch back if the new colour does not hold. The new colour is stopped only
        once traffic is back on the old one. */
    method SwitchAndVerify(active: Color, observeMs: nat) returns (r: Outcome)
      modifies `conf, `loaded, `backup, `running, `now, `trace
      ensures r.Success? || r.SwitchFailed? || r.RolledBack? || r.RollbackFailed?
      ensures old(trace) <= trace && Safe(trace, |old(trace)|)
      ensures Landed(r, active, old(conf), conf, old(loaded), loaded)
      ensures SwitchRun(r, trace[|old(trace)|..], active, old(conf), old(now) + observeMs, observeMs > 0)
      ensures !r.RolledBack? ==> running == old(running) && NoStops(trace, |old(trace)|)
      ensures old(running) - {Other(active)} <= running <= old(running)
    {
      hide *;
      ghost var conf0, loaded0, t0 := conf, loaded, trace;
      var target := Other(active);
      OtherDiffers(active);
      NoStopsYet(t0);
      var switched := SwitchTraffic(target);
      ghost var t1, mid := trace, conf;
      SwitchIsTraffic(t1[|t0|..], conf0, target, switched);
      AddNoStops(t0, t1, |t0|);
      if !switched {
        AtSwitchFailed(active, conf0, conf, loaded0, loaded);
        RunSwitchFailed(t1[|t0|..], active, conf0, old(now) + observeMs, observeMs > 0);
        return SwitchFailed;
      }
      var observed := Observe(target, observeMs);
      ghost var t2 := trace;
      QuietNoStops(t1, t2, target);
      AddNoStops(t1, t2, |t0|);
      SinceBoth(t0, t1);
      ObservedBy(t1[|t0|..], t1, t2, conf0, target, observed);
      if observed {
        AtSuccess(active, conf0, conf, loaded0, loaded);
        RunHeld(t1[|t0|..], t2[|t1|..], active, conf0, old(now) + observeMs, observeMs > 0);
        return Success(false);
      }
      ghost var back, stop;
      r, back, stop := SwitchBack(active);
      RollsBackBy(back, conf0, mid, active, r.RolledBack?);
      SinceBoth(t0, t2);
      assert trace[|t0|..] == t1[|t0|..] + t2[|t1|..] + back + stop;
      MoreSafe(t2, trace, |t0|);
      if r.RollbackFailed? {
        MoreNoStops(t2, trace, |t0|);
        AtRollbackFailed(active, conf0, mid, conf, loaded0, loaded);
        assert t1[|t0|..] + t2[|t1|..] + back + [] == t1[|t0|..] + t2[|t1|..] + back;
        RunRollbackFailed(t1[|t0|..], t2[|t1|..], back, active, conf0, old(now) + observeMs, observeMs > 0);
      } else {
        AtRolledBack(active, conf0, mid, conf, loaded0, loaded);
        RunRolledBack(t1[|t0|..], t2[|t1|..], back, active, conf0, old(now) + observeMs, observeMs > 0, stop[0].ok);
      }
    }

    /** Switch back to the old colour and, once that worked, stop the new one. */
    method SwitchBack(active: Color) returns (r: Outcome, ghost back: seq<Event>, ghost stop: seq<Event>)
      modifies `conf, `loaded, `backup, `running, `trace
      ensures r.RolledBack? || r.RollbackFailed?
      ensures trace == old(trace) + back + stop && Safe(trace, |old(trace)|)
      ensures Switches(back, old(conf), active, r.RolledBack?)
      ensures r.RollbackFailed? ==>
                && stop == [] && running == old(running) && NoStops(trace, |old(trace)|)
                && loaded == old(loaded) && (conf == old(conf) || Render(old(conf), active) == Ok(conf))
      ensures r.RolledBack? ==>
                && (exists ok :: stop == [Stopped(Other(active), Ok(active), ok)])
                && Render(old(conf), active) == Ok(conf) && conf == loaded && ParseActive(loaded) == Ok(active)
      ensures old(running) - {Other(active)} <= running <= old(running)
    {
      hide *;
      ghost var t2 := trace;
      OtherDiffers(active);
      NoStopsYet(t2);
      var switched := SwitchTraffic(active);
      ghost var t3 := trace;
      back, stop := t3[|t2|..], [];
      SwitchIsTraffic(back, old(conf), active, switched);
      AddNoStops(t2, t3, |t2|);
      if !switched {
        return RollbackFailed, back, stop;
      }
      var stopped := Stop(Other(active));
      StopIsSafe(t3, trace, |t2|, Other(active), ParseActive(loaded), stopped);
      stop := [Stopped(Other(active), Ok(active), stopped)];
      r := RolledBack;
    }

    /** Check that the image is here, back up, start the target. */
    method StartTarget(active: Color, image: Image, offline: bool) returns (r: Option<Outcome>)
      modifies `running, `trace
      ensures r.Some? ==> r.value in {ImageMissing, BackupFailed, StartFailed}
      ensures old(trace) <= trace && NoStops(trace, |old(trace)|)
      ensures r.Some? ==> PrepareRun(r, trace[|old(trace)|..], active, image, offline, ParseActive(loaded))
      ensures r.None? ==>
                && Other(active) in running
                && trace == old(trace) + (Head(image, offline) + [BackedUp(true), Started(Other(active), image, true)])
      ensures old(running) <= running <= old(running) + {Other(active)}
      ensures r == Some(ImageMissing) || r == Some(BackupFailed) ==> running == old(running)
    {
      hide *;
      ghost var t0, head := trace, [];
      ghost var serving := ParseActive(loaded);
      var target := Other(active);
      NoStopsYet(t0);
      HeadIs(image, offline);
      if offline {
        var found := CheckImage(image);
        AddNoStop(t0, CheckedImage(image, found), |t0|);
        if !found {
          Since(t0, [CheckedImage(image, found)]);
          RunImageMissing(active, image, serving);
          return Some(ImageMissing);
        }
        head := [CheckedImage(image, true)];
      }
      ghost var t1 := trace;
      var backedUp := Backup();
      AddNoStop(t1, BackedUp(backedUp), |t0|);
      if !backedUp {
        Since(t0, head + [BackedUp(backedUp)]);
        RunBackupFailed(active, image, offline, serving);
        return Some(BackupFailed);
      }
      ghost var t2 := trace;
      var started := Start(target, image);
      AddNoStop(t2, Started(target, image, started), |t0|);
      assert trace == t0 + (head + [BackedUp(true), Started(target, image, started)]);
      if !started {
        Since(t0, head + [BackedUp(true), Started(target, image, started)]);
        RunStartFailed(active, image, offline, serving);
        return Some(StartFailed);
      }
      r := None;
    }

    /** The steps up to traffic: check, back up, start, wait, migrate. */
    method Prepare(active: Color, image: Image, opts: Options) returns (r: Option<Outcome>)
      modifies `running, `now, `trace
      ensures r.Some? ==> r.value in {ImageMissing, BackupFailed, StartFailed, NotReady, MigrateFailed}
      ensures old(trace) <= trace && old(now) <= now
      ensures PrepareRun(r, trace[|old(trace)|..], active, image, opts.offline, ParseActive(loaded))
      ensures Safe(trace, |old(trace)|) <==> !(r == Some(NotReady) && Misled(active, loaded))
      ensures r != Some(NotReady) ==> NoStops(trace, |old(trace)|)
      ensures old(running) - {Other(active)} <= running <= old(running) + {Other(active)}
      ensures r == Some(NotReady) ==> now >= old(now) + opts.readyzMs
      ensures r.None? || r == Some(MigrateFailed) ==> Other(active) in running
      ensures r == Some(ImageMissing) || r == Some(BackupFailed) ==> running == old(running)
    {
      hide *;
      ghost var t0, serving := trace, ParseActive(loaded);
      var target := Other(active);
      r := StartTarget(active, image, opts.offline);
      NoStopsIsSafe(trace, |t0|);
      if r.Some? { return; }
      ghost var t3 := trace;
      ghost var started := Head(image, opts.offline) + [BackedUp(true), Started(target, image, true)];
      var ready := WaitReadyz(target, opts.readyzMs);
      ghost var t4 := trace;
      QuietNoStops(t3, t4, target);
      AddNoStops(t3, t4, |t0|);
      WaitedBy(t3, t4, target, ready);
      ghost var w := t4[|t3|..];
      assert t4 == t0 + (started + w);
      if !ready {
        var stopped := Stop(target);
        StopIsSafe(t4, trace, |t0|, target, serving, stopped);
        MisledMeans(active, loaded);
        Since(t0, started + w + [Stopped(target, serving, stopped)]);
        RunNotReady(w, active, image, opts.offline, serving, stopped);
        return Some(NotReady);
      }
      var migrated := Migrate(target, image);
      AddNoStop(t4, Migrated(target, image, migrated), |t0|);
      Since(t0, started + w + [Migrated(target, image, migrated)]);
      RunMigrated(w, active, image, opts.offline, serving, migrated);
      r := if migrated then None else Some(MigrateFailed);
    }

    /** The seven steps. Every failure ends the run where it happens. */
    method ExecutePlan(active: Color, image: Image, opts: Options) returns (r: Outcome)
      modifies this
      ensures !r.Refused? && !r.DryRun?
      ensures old(trace) <= trace
      ensures Explained(r, trace[|old(trace)|..], active, image, opts, old(now), old(conf), old(loaded))
      ensures Safe(trace, |old(trace)|) <==> !(r.NotReady? && Misled(active, old(loaded)))
      ensures Landed(r, active, old(conf), conf, old(loaded), loaded)
      ensures !r.Success? ==> old(running) - {Other(active)} <= running
      ensures r.Success? ==> Other(active) in running && (r.warned || active !in running)
      ensures r.RollbackFailed? || r.SwitchFailed? || r.MigrateFailed? ==>
                Other(active) in running && NoStops(trace, |old(trace)|)
      ensures r.NotReady? ==> now >= old(now) + opts.readyzMs
    {
      hide *;
      ghost var t0, now0, conf0, loaded0 := trace, now, conf, loaded;
      OtherDiffers(active);
      var failed := Prepare(active, image, opts);
      ghost var t1 := trace;
      if failed.Some? {
        AtRest(failed.value, active, conf, loaded);
        ExplainedEarly(failed.value, t1[|t0|..], active, image, opts, now0, conf0, loaded0);
        return failed.value;
      }
      ghost var now1 := now;
      r := SwitchAndVerify(active, opts.observeMs);
      ghost var t2 := trace;
      MoreSafe(t1, t2, |t0|);
      SinceBoth(t0, t1);
      SwitchRunEarlier(r, t2[|t1|..], active, conf0, now1 + opts.observeMs, now0 + opts.observeMs, opts.observeMs > 0);
      if !r.Success? {
        if !r.RolledBack? { MoreNoStops(t1, t2, |t0|); }
        ExplainedSwitch(r, t1[|t0|..], t2[|t1|..], active, image, opts, now0, conf0, loaded0);
        return;
      }
      LandedServing(active, conf0, conf, loaded0, loaded);
      var stopped := Stop(active);
      StopIsSafe(t2, trace, |t0|, active, ParseActive(loaded), stopped);
      Since(t0, t1[|t0|..] + t2[|t1|..] + [Stopped(active, Ok(Other(active)), stopped)]);
      ExplainedSuccess(r, t1[|t0|..], t2[|t1|..], active, image, opts, now0, conf0, loaded0, stopped);
      r := Success(!stopped);
      AtSuccess(active, conf0, conf, loaded0, loaded);
    }

    /** A run from the command line: plan, and execute only when told to. The one harmful stop there can be is
        that of a target that was serving all along and is found not ready: nginx ran another colour than the
        file says. */
    method Upgrade(image: Image, allowed: bool, opts: Options) returns (r: Outcome)
      modifies this
      ensures old(trace) <= trace
      ensures r.Refused? <==> ParseActive(old(conf)).Err? || !allowed
      ensures r.Refused? || r.DryRun? ==>
                conf == old(conf) && loaded == old(loaded) && running == old(running) && trace == old(trace)
      ensures r.DryRun? <==> ParseActive(old(conf)).Ok? && allowed && !opts.apply
      ensures !r.Refused? ==>
                && ParseActive(old(conf)).Ok?
                && Landed(r, ParseActive(old(conf)).value, old(conf), conf, old(loaded), loaded)
                && (Safe(trace, |old(trace)|) <==> !(r.NotReady? && Misled(ParseActive(old(conf)).value, old(loaded))))
      ensures !r.Refused? && !r.DryRun? ==>
                Explained(r, trace[|old(trace)|..], ParseActive(old(conf)).value, image, opts, old(now), old(conf),
                          old(loaded))
      ensures Agree(old(conf), old(loaded)) ==> Safe(trace, |old(trace)|)
      ensures Agree(old(conf), old(loaded)) && !r.Refused? ==>
                ParseActive(loaded) == Ok(Serving(r, ParseActive(old(conf)).value))
      ensures Agree(old(conf), old(loaded)) ==> (Agree(conf, loaded) <==> !Torn(r, old(conf), conf, loaded))
    {
      hide *;
      NoStopsYet(trace);
      ghost var conf0, loaded0 := conf, loaded;
      var plan := ParseActiveUpstream(conf);
      if plan.Err? || !allowed {
        NotTorn(Refused, conf, conf, loaded);
        return Refused;
      }
      AgreeMeans(conf, loaded, plan.value);
      if !opts.apply {
        AtRest(DryRun, plan.value, conf, loaded);
        NotTorn(DryRun, conf, conf, loaded);
        ServingAt(DryRun, plan.value);
        return DryRun;
      }
      r := ExecutePlan(plan.value, image, opts);
      if Agree(conf0, loaded0) {
        LandedTraffic(r, plan.value, conf0, conf, loaded0, loaded);
        LandedAgree(r, plan.value, conf0, conf, loaded0, loaded);
      }
    }

    /** One run after another, until one leaves the file and nginx apart: none stops the colour that serves. */
    method UpgradeAll(jobs: seq<(Image, bool, Options)>) returns (outcomes: seq<Outcome>, apart: bool)
      requires Agree(conf, loaded)
      modifies this
      ensures old(trace) <= trace && Safe(trace, |old(trace)|)
      ensures Agree(conf, loaded) <==> !apart
      ensures |outcomes| <= |jobs| && (!apart ==> |outcomes| == |jobs|)
      ensures apart ==> outcomes != [] && outcomes[|outcomes| - 1] in {SwitchFailed, RollbackFailed}
    {
      hide *;
      outcomes, apart := [], false;
      NoStopsYet(trace);
      for k := 0 to |jobs|
        invariant |outcomes| == k && !apart && Agree(conf, loaded)
        invariant old(trace) <= trace && Safe(trace, |old(trace)|)
      {
        ghost var conf0, t := conf, trace;
        var r := Upgrade(jobs[k].0, jobs[k].1, jobs[k].2);
        MoreSafe(t, trace, |old(trace)|);
        TornMeans(r, conf0, conf, loaded);
        outcomes := outcomes + [r];
        apart := (r.SwitchFailed? || r.RollbackFailed?) && ParseActive(conf) != ParseActive(loaded);
        AgreeIs(conf, loaded);
        if apart { return; }
      }
    }
  }

  // ---------------------------------------------------------------- what a run leaves behind

  /** The file and what nginx runs with name the same colour. */
  ghost predicate Agree(conf: string, loaded: string) {
    ParseActive(conf) == ParseActive(loaded)
  }

  /** A plan that takes `active` for the serving colour while nginx serves the other one. */
  ghost predicate Misled(active: Color, loaded: string) {
    ParseActive(loaded) == Ok(Other(active))
  }

  /** Where traffic is after a run that planned on `active`. */
  function Serving(r: Outcome, active: Color): Color {
    if r.Success? || r.RollbackFailed? then Other(active) else active
  }

  /** A failed switch whose candidate was not replaced by the original again. */
  ghost predicate Torn(r: Outcome, conf0: string, conf: string, loaded: string) {
    (r.SwitchFailed? && conf != conf0) || (r.RollbackFailed? && conf != loaded)
  }

  /** Since event n, no stop of the colour that was serving. */
  ghost predicate Safe(trace: seq<Event>, n: nat) {
    forall i | n <= i < |trace| :: !Harmful(trace[i])
  }

  ghost predicate NoStops(trace: seq<Event>, n: nat) {
    forall i | n <= i < |trace| :: !trace[i].Stopped?
  }

  /** Where traffic and the file are at the end, by outcome. */
  ghost predicate Landed(r: Outcome, active: Color, conf0: string, conf: string, loaded0: string, loaded: string) {
    && (r.Success? ==>
          conf == loaded && Render(conf0, Other(active)) == Ok(conf) && ParseActive(loaded) == Ok(Other(active)))
    && (r.RollbackFailed? ==>
          && Render(conf0, Other(active)) == Ok(loaded) && ParseActive(loaded) == Ok(Other(active))
          && (conf == loaded || Render(loaded, active) == Ok(conf)))
    && (r.RolledBack? ==>
          && conf == loaded && ParseActive(loaded) == Ok(active)
          && Render(conf0, Other(active)).Ok? && Render(Render(conf0, Other(active)).value, active) == Ok(conf))
    && (r.SwitchFailed? ==> loaded == loaded0 && (conf == conf0 || Render(conf0, Other(active)) == Ok(conf)))
    && (!r.Success? && !r.RollbackFailed? && !r.RolledBack? && !r.SwitchFailed? ==> loaded == loaded0 && conf == conf0)
  }

  // ---------------------------------------------------------------- what happened, by outcome

  /** The check of the image comes first, when the image must be here already. */
  function Head(image: Image, offline: bool): seq<Event> {
    if offline then [CheckedImage(image, true)] else []
  }

  /** Backed up and started, then the probes, then one more event. */
  ghost predicate Waits(t: seq<Event>, head: seq<Event>, c: Color, image: Image, probes: seq<Event>, last: Event) {
    t == head + [BackedUp(true), Started(c, image, true)] + probes + [last]
  }

  /** The steps up to traffic. The outcome is that of the first step that fails; readiness fails when no probe
      in time finds it. */
  ghost predicate PrepareRun(r: Option<Outcome>, t: seq<Event>, active: Color, image: Image, offline: bool,
                             serving: Result<Color, Error>) {
    var c, head := Other(active), Head(image, offline);
    match r
    case Some(ImageMissing) => offline && t == [CheckedImage(image, false)]
    case Some(BackupFailed) => t == head + [BackedUp(false)]
    case Some(StartFailed) => t == head + [BackedUp(true), Started(c, image, false)]
    case Some(NotReady) =>
      exists probes, ok :: NoneReady(probes, 0, c) && Waits(t, head, c, image, probes, Stopped(c, serving, ok))
    case Some(MigrateFailed) =>
      exists probes :: LastTells(probes, 0, c, true) && Waits(t, head, c, image, probes, Migrated(c, image, false))
    case None =>
      exists probes :: LastTells(probes, 0, c, true) && Waits(t, head, c, image, probes, Migrated(c, image, true))
    case _ => false
  }

  /** A switch that worked, and the window behind it: held throughout, or ended by the probe that failed. */
  ghost predicate Observed(switch: seq<Event>, window: seq<Event>, conf0: string, c: Color, held: bool) {
    Switches(switch, conf0, c, true) && if held then AllReady(window, 0, c) else LastTells(window, 0, c, false)
  }

  ghost predicate LastAt(window: seq<Event>, until: int) {
    window != [] && window[|window| - 1].Probed? && window[|window| - 1].at >= until
  }

  /** The switch back from the file the first switch made. */
  ghost predicate RollsBack(t: seq<Event>, conf0: string, active: Color, ok: bool) {
    Render(conf0, Other(active)).Ok? && Switches(t, Render(conf0, Other(active)).value, active, ok)
  }

  /** Traffic: it is switched back only after a probe of the new colour failed, and the new colour stopped only
      after that worked. */
  ghost predicate SwitchRun(r: Outcome, t: seq<Event>, active: Color, conf0: string, until: int, timed: bool) {
    var c := Other(active);
    match r
    case SwitchFailed => Switches(t, conf0, c, false)
    case Success(_) =>
      exists a, w :: Observed(a, w, conf0, c, true) && t == a + w && (timed ==> LastAt(w, until))
    case RollbackFailed =>
      exists a, w, b :: Observed(a, w, conf0, c, false) && RollsBack(b, conf0, active, false) && t == a + w + b
    case RolledBack =>
      exists a, w, b, ok :: Observed(a, w, conf0, c, false) && RollsBack(b, conf0, active, true) &&
                            t == a + w + b + [Stopped(c, Ok(active), ok)]
    case _ => false
  }

  /** Everything, and then the stop of the old colour while the new one serves. */
  ghost predicate Ends(t: seq<Event>, p: seq<Event>, s: seq<Event>, active: Color, stopped: bool) {
    t == p + s + [Stopped(active, Ok(Other(active)), stopped)]
  }

  ghost predicate SuccessRun(t: seq<Event>, active: Color, image: Image, offline: bool, serving: Result<Color, Error>,
                             conf0: string, until: int, timed: bool, stopped: bool)
  {
    exists p, s :: PrepareRun(None, p, active, image, offline, serving) &&
                   SwitchRun(Success(false), s, active, conf0, until, timed) && Ends(t, p, s, active, stopped)
  }

  /** A whole run: what was done, in order, and why it ended as it did. A success ends with the stop of the old
      colour, and warns when that failed. */
  ghost predicate Explained(r: Outcome, t: seq<Event>, active: Color, image: Image, opts: Options, now0: nat,
                            conf0: string, loaded0: string) {
    var serving, until, timed := ParseActive(loaded0), now0 + opts.observeMs, opts.observeMs > 0;
    match r
    case Success(warned) =>
      SuccessRun(t, active, image, opts.offline, serving, conf0, until, timed, !warned)
    case _ =>
      if r.SwitchFailed? || r.RolledBack? || r.RollbackFailed? then
        exists p, s :: PrepareRun(None, p, active, image, opts.offline, serving) &&
                       SwitchRun(r, s, active, conf0, until, timed) && t == p + s
      else PrepareRun(Some(r), t, active, image, opts.offline, serving)
  }

  lemma HeadIs(image: Image, offline: bool)
    ensures Head(image, offline) == if offline then [CheckedImage(image, true)] else []
  {
  }

  lemma RunImageMissing(active: Color, image: Image, serving: Result<Color, Error>)
    ensures PrepareRun(Some(ImageMissing), [CheckedImage(image, false)], active, image, true, serving)
  {
  }

  lemma RunBackupFailed(active: Color, image: Image, offline: bool, serving: Result<Color, Error>)
    ensures PrepareRun(Some(BackupFailed), Head(image, offline) + [BackedUp(false)], active, image, offline, serving)
  {
  }

  lemma RunStartFailed(active: Color, image: Image, offline: bool, serving: Result<Color, Error>)
    ensures PrepareRun(Some(StartFailed),
                       Head(image, offline) + [BackedUp(true), Started(Other(active), image, false)],
                       active, image, offline, serving)
  {
  }

  lemma RunNotReady(w: seq<Event>, active: Color, image: Image, offline: bool, serving: Result<Color, Error>, ok: bool)
    requires NoneReady(w, 0, Other(active))
    ensures var c := Other(active);
            PrepareRun(Some(NotReady),
                       Head(image, offline) + [BackedUp(true), Started(c, image, true)] + w + [Stopped(c, serving, ok)],
                       active, image, offline, serving)
  {
    hide NoneReady;
    var c := Other(active);
    var t := Head(image, offline) + [BackedUp(true), Started(c, image, true)] + w + [Stopped(c, serving, ok)];
    assert Waits(t, Head(image, offline), c, image, w, Stopped(c, serving, ok));
  }

  lemma RunMigrated(w: seq<Event>, active: Color, image: Image, offline: bool, serving: Result<Color, Error>, ok: bool)
    requires LastTells(w, 0, Other(active), true)
    ensures var c := Other(active);
            PrepareRun(if ok then None else Some(MigrateFailed),
                       Head(image, offline) + [BackedUp(true), Started(c, image, true)] + w + [Migrated(c, image, ok)],
                       active, image, offline, serving)
  {
    hide LastTells;
    var c := Other(active);
    var t := Head(image, offline) + [BackedUp(true), Started(c, image, true)] + w + [Migrated(c, image, ok)];
    assert Waits(t, Head(image, offline), c, image, w, Migrated(c, image, ok));
  }

  lemma WaitedBy(t3: seq<Event>, t4: seq<Event>, c: Color, ready: bool)
    requires t3 <= t4 && if ready then LastTells(t4, |t3|, c, true) else NoneReady(t4, |t3|, c)
    ensures if ready then LastTells(t4[|t3|..], 0, c, true) else NoneReady(t4[|t3|..], 0, c)
    ensures t4 == t3 + t4[|t3|..]
  {
    if ready {
      var w := t4[|t3|..];
      assert w[..|w| - 1] == t4[..|t4| - 1][|t3|..];
    }
  }

  lemma ObservedBy(switch: seq<Event>, t1: seq<Event>, t2: seq<Event>, conf0: string, c: Color, held: bool)
    requires Switches(switch, conf0, c, true) && t1 <= t2
    requires if held then AllReady(t2, |t1|, c) else LastTells(t2, |t1|, c, false)
    ensures Observed(switch, t2[|t1|..], conf0, c, held)
  {
    hide Switches;
    if !held {
      var w := t2[|t1|..];
      assert w[..|w| - 1] == t2[..|t2| - 1][|t1|..];
    }
  }

  lemma RollsBackBy(t: seq<Event>, conf0: string, mid: string, active: Color, ok: bool)
    requires Render(conf0, Other(active)) == Ok(mid) && Switches(t, mid, active, ok)
    ensures RollsBack(t, conf0, active, ok)
  {
    hide Render;
    hide Switches;
  }

  lemma RunSwitchFailed(t: seq<Event>, active: Color, conf0: string, until: int, timed: bool)
    requires Switches(t, conf0, Other(active), false)
    ensures SwitchRun(SwitchFailed, t, active, conf0, until, timed)
  {
    hide Switches;
  }

  lemma RunHeld(a: seq<Event>, w: seq<Event>, active: Color, conf0: string, until: int, timed: bool)
    requires Observed(a, w, conf0, Other(active), true)
    requires timed ==> w != [] && w[|w| - 1].Probed? && w[|w| - 1].at >= until
    ensures SwitchRun(Success(false), a + w, active, conf0, until, timed)
  {
    hide Observed;
  }

  lemma RunRollbackFailed(a: seq<Event>, w: seq<Event>, b: seq<Event>, active: Color, conf0: string, until: int,
                          timed: bool)
    requires Observed(a, w, conf0, Other(active), false) && RollsBack(b, conf0, active, false)
    ensures SwitchRun(RollbackFailed, a + w + b, active, conf0, until, timed)
  {
    hide Observed;
    hide RollsBack;
  }

  lemma RunRolledBack(a: seq<Event>, w: seq<Event>, b: seq<Event>, active: Color, conf0: string, until: int,
                      timed: bool, ok: bool)
    requires Observed(a, w, conf0, Other(active), false) && RollsBack(b, conf0, active, true)
    ensures SwitchRun(RolledBack, a + w + b + [Stopped(Other(active), Ok(active), ok)], active, conf0, until, timed)
  {
    hide Observed;
    hide RollsBack;
  }

  lemma SwitchRunEarlier(r: Outcome, t: seq<Event>, active: Color, conf0: string, until: int, earlier: int, timed: bool)
    requires SwitchRun(r, t, active, conf0, until, timed) && earlier <= until
    ensures SwitchRun(r, t, active, conf0, earlier, timed)
  {
    hide Observed;
    hide RollsBack;
    hide Switches;
    if r.Success? {
      var a, w :| Observed(a, w, conf0, Other(active), true) && t == a + w && (timed ==> LastAt(w, until));
      assert timed ==> LastAt(w, earlier);
    }
  }

  lemma ExplainedEarly(r: Outcome, t: seq<Event>, active: Color, image: Image, opts: Options, now0: nat,
                       conf0: string, loaded0: string)
    requires PrepareRun(Some(r), t, active, image, opts.offline, ParseActive(loaded0))
    requires r in {ImageMissing, BackupFailed, StartFailed, NotReady, MigrateFailed}
    ensures Explained(r, t, active, image, opts, now0, conf0, loaded0)
  {
    hide PrepareRun;
    hide SwitchRun;
    hide ParseActive;
  }

  lemma ExplainedSwitch(r: Outcome, p: seq<Event>, s: seq<Event>, active: Color, image: Image, opts: Options, now0: nat,
                        conf0: string, loaded0: string)
    requires PrepareRun(None, p, active, image, opts.offline, ParseActive(loaded0))
    requires SwitchRun(r, s, active, conf0, now0 + opts.observeMs, opts.observeMs > 0)
    requires r.SwitchFailed? || r.RolledBack? || r.RollbackFailed?
    ensures Explained(r, p + s, active, image, opts, now0, conf0, loaded0)
  {
    hide PrepareRun;
    hide SwitchRun;
    hide ParseActive;
  }

  lemma ExplainedSuccess(r: Outcome, p: seq<Event>, s: seq<Event>, active: Color, image: Image, opts: Options,
                         now0: nat, conf0: string, loaded0: string, stopped: bool)
    requires PrepareRun(None, p, active, image, opts.offline, ParseActive(loaded0)) && r.Success?
    requires SwitchRun(r, s, active, conf0, now0 + opts.observeMs, opts.observeMs > 0)
    ensures Explained(Success(!stopped), p + s + [Stopped(active, Ok(Other(active)), stopped)], active, image, opts,
                      now0, conf0, loaded0)
  {
    hide *;
    AnySuccess(r, s, active, conf0, now0 + opts.observeMs, opts.observeMs > 0);
    SuccessRunBy(p, s, active, image, opts.offline, ParseActive(loaded0), conf0, now0 + opts.observeMs,
                 opts.observeMs > 0, stopped);
    ExplainedIs(p + s + [Stopped(active, Ok(Other(active)), stopped)], active, image, opts, now0, conf0, loaded0,
                !stopped);
  }

  lemma ExplainedIs(t: seq<Event>, active: Color, image: Image, opts: Options, now0: nat, conf0: string,
                    loaded0: string, warned: bool)
    ensures Explained(Success(warned), t, active, image, opts, now0, conf0, loaded0) <==>
            SuccessRun(t, active, image, opts.offline, ParseActive(loaded0), conf0, now0 + opts.observeMs,
                       opts.observeMs > 0, !warned)
  {
    hide SuccessRun;
    hide ParseActive;
  }

  lemma SuccessRunBy(p: seq<Event>, s: seq<Event>, active: Color, image: Image, offline: bool,
                     serving: Result<Color, Error>, conf0: string, until: int, timed: bool, stopped: bool)
    requires PrepareRun(None, p, active, image, offline, serving)
    requires SwitchRun(Success(false), s, active, conf0, until, timed)
    ensures SuccessRun(p + s + [Stopped(active, Ok(Other(active)), stopped)], active, image, offline, serving, conf0,
                       until, timed, stopped)
  {
    EndsIs(p, s, active, stopped);
    hide Ends;
    hide PrepareRun;
    hide SwitchRun;
  }

  lemma EndsIs(p: seq<Event>, s: seq<Event>, active: Color, stopped: bool)
    ensures Ends(p + s + [Stopped(active, Ok(Other(active)), stopped)], p, s, active, stopped)
  {
  }

  lemma AnySuccess(r: Outcome, s: seq<Event>, active: Color, conf0: string, until: int, timed: bool)
    requires SwitchRun(r, s, active, conf0, until, timed) && r.Success?
    ensures SwitchRun(Success(false), s, active, conf0, until, timed)
  {
    hide Observed;
  }

  lemma SwitchesIs(t: seq<Event>, conf: string, c: Color, ok: bool)
    requires match Render(conf, c)
             case Err(_) => !ok && t == []
             case Ok(next) => if next == conf then Refreshes(t, conf, ok) else Installs(t, conf, next, ok)
    ensures Switches(t, conf, c, ok)
  {
    hide Render;
    hide Refreshes;
    hide Installs;
  }

  lemma OtherDiffers(c: Color)
    ensures Other(c) != c && Other(Other(c)) == c
  {
  }

  lemma AtSwitchFailed(active: Color, conf0: string, conf: string, loaded0: string, loaded: string)
    requires loaded == loaded0 && (conf == conf0 || Render(conf0, Other(active)) == Ok(conf))
    ensures Landed(SwitchFailed, active, conf0, conf, loaded0, loaded)
  {
    hide Render;
    hide ParseActive;
  }

  lemma AtSuccess(active: Color, conf0: string, conf: string, loaded0: string, loaded: string)
    requires conf == loaded && Render(conf0, Other(active)) == Ok(conf) && ParseActive(loaded) == Ok(Other(active))
    ensures Landed(Success(false), active, conf0, conf, loaded0, loaded)
    ensures Landed(Success(true), active, conf0, conf, loaded0, loaded)
  {
    hide Render;
    hide ParseActive;
  }

  lemma AtRollbackFailed(active: Color, conf0: string, mid: string, conf: string, loaded0: string, loaded: string)
    requires Render(conf0, Other(active)) == Ok(mid) && mid == loaded && ParseActive(loaded) == Ok(Other(active))
    requires conf == mid || Render(mid, active) == Ok(conf)
    ensures Landed(RollbackFailed, active, conf0, conf, loaded0, loaded)
  {
    hide Render;
    hide ParseActive;
  }

  lemma AtRolledBack(active: Color, conf0: string, mid: string, conf: string, loaded0: string, loaded: string)
    requires Render(conf0, Other(active)) == Ok(mid) && Render(mid, active) == Ok(conf)
    requires conf == loaded && ParseActive(loaded) == Ok(active)
    ensures Landed(RolledBack, active, conf0, conf, loaded0, loaded)
  {
    hide Render;
    hide ParseActive;
  }

  lemma AtRest(r: Outcome, active: Color, conf: string, loaded: string)
    requires !r.Success? && !r.RollbackFailed? && !r.RolledBack? && !r.SwitchFailed?
    ensures Landed(r, active, conf, conf, loaded, loaded)
  {
    hide Render;
    hide ParseActive;
  }

  // ---------------------------------------------------------------- the next run

  lemma AgreeIs(conf: string, loaded: string)
    ensures Agree(conf, loaded) <==> ParseActive(conf) == ParseActive(loaded)
  {
  }

  lemma MisledMeans(active: Color, loaded: string)
    ensures Misled(active, loaded) <==> ParseActive(loaded) == Ok(Other(active))
  {
  }

  lemma AgreeMeans(conf: string, loaded: string, active: Color)
    requires ParseActive(conf) == Ok(active)
    ensures Agree(conf, loaded) <==> ParseActive(loaded) == Ok(active)
    ensures Agree(conf, loaded) ==> !Misled(active, loaded)
  {
    hide ParseActive;
  }

  lemma NotTorn(r: Outcome, conf0: string, conf: string, loaded: string)
    requires !r.SwitchFailed? && !r.RollbackFailed?
    ensures !Torn(r, conf0, conf, loaded)
  {
  }

  lemma TornMeans(r: Outcome, conf0: string, conf: string, loaded: string)
    ensures Torn(r, conf0, conf, loaded) ==> r.SwitchFailed? || r.RollbackFailed?
  {
  }

  lemma ServingAt(r: Outcome, active: Color)
    ensures Serving(r, active) == if r.Success? || r.RollbackFailed? then Other(active) else active
  {
  }

  /** Traffic by outcome. */
  lemma LandedTraffic(r: Outcome, active: Color, conf0: string, conf: string, loaded0: string, loaded: string)
    requires Landed(r, active, conf0, conf, loaded0, loaded) && ParseActive(loaded0) == Ok(active)
    ensures ParseActive(loaded) == Ok(Serving(r, active))
  {
    hide Render;
    hide ParseActive;
  }

  /** After a run on colours that agreed, they agree again unless a failed switch could not put the file back. */
  lemma LandedAgree(r: Outcome, active: Color, conf0: string, conf: string, loaded0: string, loaded: string)
    requires Landed(r, active, conf0, conf, loaded0, loaded)
    requires ParseActive(conf0) == ParseActive(loaded0) == Ok(active)
    ensures Agree(conf, loaded) <==> !Torn(r, conf0, conf, loaded)
  {
    OtherDiffers(active);
    if r.SwitchFailed? && conf != conf0 { RenderSwitches(conf0, Other(active)); }
    if r.RollbackFailed? && conf != loaded { RenderSwitches(loaded, active); }
    hide Render;
    hide ParseActive;
  }

  /** When they do not agree again, the next run takes the serving colour for its target. */
  lemma TornMisleads(r: Outcome, active: Color, conf0: string, conf: string, loaded0: string, loaded: string)
    requires Landed(r, active, conf0, conf, loaded0, loaded) && Torn(r, conf0, conf, loaded)
    requires ParseActive(conf0) == ParseActive(loaded0) == Ok(active)
    ensures ParseActive(conf).Ok? && Misled(ParseActive(conf).value, loaded)
  {
    OtherDiffers(active);
    if r.SwitchFailed? { RenderSwitches(conf0, Other(active)); } else { RenderSwitches(loaded, active); }
    hide Render;
    hide ParseActive;
  }

  /** A switch that failed and could not put the file back leaves colours that differ. The next run takes the
      serving colour for its target, and when that is not ready the stop is a harmful one. */
  lemma NextRunMisled(conf0: string, conf: string, active: Color)
    requires ParseActive(conf0) == Ok(active) && Render(conf0, Other(active)) == Ok(conf)
    ensures Landed(SwitchFailed, active, conf0, conf, conf0, conf0) && !Agree(conf, conf0)
    ensures ParseActive(conf) == Ok(Other(active)) && Misled(Other(active), conf0)
    ensures forall ok :: Harmful(Stopped(Other(Other(active)), ParseActive(conf0), ok))
  {
    hide *;
    OtherDiffers(active);
    RenderSwitches(conf0, Other(active));
    AtSwitchFailed(active, conf0, conf, conf0, conf0);
    AgreeMeans(conf0, conf0, active);
    AgreeMeans(conf, conf0, Other(active));
    MisledMeans(Other(active), conf0);
    HarmfulIs(active);
  }

  lemma HarmfulIs(c: Color)
    ensures forall ok :: Harmful(Stopped(c, Ok(c), ok))
  {
  }

  /** Such a file: blue serves, the switch to green can be rendered, and no file is put back. */
  lemma SpareServerMisleads()
    ensures var conf0 := Join(SpareServer(), Unix);
            && ParseActive(conf0) == Ok(Blue) && Render(conf0, Green).Ok?
            && Misled(Green, conf0) && !Agree(Render(conf0, Green).value, conf0)
  {
    hide *;
    var conf0 := Join(SpareServer(), Unix);
    SpareServes();
    NoWayBack();
    GreenIsOther();
    NextRunMisled(conf0, Render(conf0, Green).value, Blue);
  }

  lemma GreenIsOther()
    ensures Other(Blue) == Green
  {
  }

  // ---------------------------------------------------------------- stops

  lemma SwitchIsTraffic(t: seq<Event>, conf: string, c: Color, ok: bool)
    requires Switches(t, conf, c, ok)
    ensures NoStops(t, 0)
  {
    hide Render;
    forall i | 0 <= i < |t| ensures !t[i].Stopped? {
      if |t| > 3 { assert i >= 3 ==> t[i] == t[3..][i - 3]; assert i < 3 ==> t[i] == t[..3][i]; }
      if |t| > 4 { assert i >= 4 ==> t[i] == t[4..][i - 4]; assert i < 4 ==> t[i] == t[..4][i]; }
    }
  }

  lemma QuietNoStops(t1: seq<Event>, t2: seq<Event>, c: Color)
    requires t1 <= t2 && Quiet(t2, |t1|, c)
    ensures NoStops(t2[|t1|..], 0)
  {
  }

  lemma AddNoStops(t1: seq<Event>, t2: seq<Event>, n: nat)
    requires t1 <= t2 && n <= |t1| && NoStops(t1, n) && NoStops(t2[|t1|..], 0)
    ensures NoStops(t2, n) && Safe(t2, n)
  {
    forall i | n <= i < |t2| ensures !t2[i].Stopped? {
      if i >= |t1| { assert t2[i] == t2[|t1|..][i - |t1|]; }
    }
  }

  lemma NoStopsIsSafe(t: seq<Event>, n: nat)
    ensures NoStops(t, n) ==> Safe(t, n)
  {
  }

  lemma AddNoStop(t: seq<Event>, e: Event, n: nat)
    requires NoStops(t, n) && !e.Stopped?
    ensures NoStops(t + [e], n) && Safe(t + [e], n)
  {
  }

  lemma StopIsSafe(t1: seq<Event>, t2: seq<Event>, n: nat, c: Color, serving: Result<Color, Error>, ok: bool)
    requires Safe(t1, n) && n <= |t1| && t2 == t1 + [Stopped(c, serving, ok)]
    ensures Safe(t2, n) <==> serving != Ok(c)
  {
    assert t2[|t1|] == Stopped(c, serving, ok);
  }

  lemma MoreSafe(t1: seq<Event>, t2: seq<Event>, n: nat)
    requires t1 <= t2 && Safe(t1, n) && Safe(t2, |t1|)
    ensures Safe(t2, n)
  {
  }

  lemma MoreNoStops(t1: seq<Event>, t2: seq<Event>, n: nat)
    requires t1 <= t2 && NoStops(t1, n) && NoStops(t2, |t1|)
    ensures NoStops(t2, n)
  {
  }

  lemma NoStopsYet(t: seq<Event>)
    ensures NoStops(t, |t|) && Safe(t, |t|)
  {
  }

  lemma LandedServing(active: Color, conf0: string, conf: string, loaded0: string, loaded: string)
    requires exists w :: Landed(Success(w), active, conf0, conf, loaded0, loaded)
    ensures conf == loaded && Render(conf0, Other(active)) == Ok(conf) && ParseActive(loaded) == Ok(Other(active))
  {
    hide Render;
    hide ParseActive;
  }
}
