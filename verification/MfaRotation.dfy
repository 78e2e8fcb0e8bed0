/** Re-encrypting the MFA secrets from an old key to a new one, record by record, so that a run can stop
    anywhere and be repeated. */
module MfaRotation {
  import opened Wrappers

  /** Authenticated encryption with a nonce; decryption can fail. */
  datatype Cipher = Cipher(enc: (string, string, nat) -> string, dec: (string, string) -> Option<string>)

  /** The right key opens what it encrypted, and no other key does. */
  ghost predicate Authentic(c: Cipher) {
    && (forall k, m, n :: c.dec(k, c.enc(k, m, n)) == Some(m))
    && (forall k, q, m, n :: k != q ==> c.dec(q, c.enc(k, m, n)) == None)
  }

  /** The stored field: absent or null, not a string, or text. */
  datatype Stored = Missing | NotText | Text(text: string)

  datatype Stat = Stat(encrypted: nat, plaintext: nat, migrated: nat, skipped: nat, failures: seq<nat>)

  const PREFIX := "enc:v1:"

  predicate IsEncrypted(t: string) {
    |PREFIX| <= |t| && t[..|PREFIX|] == PREFIX
  }

  /** What decryption gets to see. */
  function Payload(t: string): string
    requires IsEncrypted(t)
  {
    t[|PREFIX|..]
  }

  /** What a stored text means to a reader with the key. */
  function Open(c: Cipher, key: string, t: string): Option<string> {
    if IsEncrypted(t) then c.dec(key, Payload(t)) else Some(t)
  }

  /** The secret: by the old key if it opens the text, else by the new one. */
  function Secret(c: Cipher, oldKey: string, newKey: string, t: string): Option<string> {
    if Open(c, oldKey, t).Some? then Open(c, oldKey, t) else Open(c, newKey, t)
  }

  /** Encrypted under the new key. */
  ghost predicate UnderNew(c: Cipher, newKey: string, t: string, secret: string) {
    IsEncrypted(t) && c.dec(newKey, Payload(t)) == Some(secret)
  }

  /** The text after the run, or as far as it got: as it was, or the same secret under the new key. */
  ghost predicate Step(c: Cipher, oldKey: string, newKey: string, before: string, after: string) {
    || after == before
    || (exists m, n :: Open(c, oldKey, before) == Some(m) && after == PREFIX + c.enc(newKey, m, n))
  }

  ghost predicate StoredStep(c: Cipher, oldKey: string, newKey: string, before: Stored, after: Stored) {
    if before.Text? && before.text != "" then after.Text? && Step(c, oldKey, newKey, before.text, after.text)
      else after == before
  }

  ghost predicate Steps(c: Cipher, oldKey: string, newKey: string, before: seq<Stored>, after: seq<Stored>) {
    |before| == |after| && forall i | 0 <= i < |before| :: StoredStep(c, oldKey, newKey, before[i], after[i])
  }

  predicate TakesPart(s: Stored) {
    s.Text? && s.text != ""
  }

  /** A secret that the old key opens, plain text included. */
  ghost predicate OpensOld(c: Cipher, oldKey: string, s: Stored) {
    TakesPart(s) && Open(c, oldKey, s.text).Some?
  }

  /** One that only the new key opens. */
  ghost predicate OnlyNew(c: Cipher, oldKey: string, newKey: string, s: Stored) {
    TakesPart(s) && Open(c, oldKey, s.text).None? && Open(c, newKey, s.text).Some?
  }

  /** A secret that neither key opens. */
  ghost predicate Locked(c: Cipher, oldKey: string, newKey: string, s: Stored) {
    TakesPart(s) && Open(c, oldKey, s.text).None? && Open(c, newKey, s.text).None?
  }

  /** What becomes of the write of one record: whether it reaches the store, and whether the store answers. */
  datatype Fate = Fate(landed: bool, answered: bool)

  predicate Good(f: Fate) {
    f.landed && f.answered
  }

  /** What a run meets: after how many records it is stopped, the nonces it draws, and the fates of its writes. */
  datatype World = World(until: nat, nonce: nat -> nat, fate: nat -> Fate)

  /** A record is done when its secret is there under the new key. */
  ghost predicate Done(c: Cipher, oldKey: string, newKey: string, before: Stored, after: Stored) {
    before.Text? && before.text != "" ==>
      Secret(c, oldKey, newKey, before.text).Some? && after.Text? &&
      UnderNew(c, newKey, after.text, Secret(c, oldKey, newKey, before.text).value)
  }

  // ---------------------------------------------------------------- one text

  lemma Prefixed(p: string)
    ensures IsEncrypted(PREFIX + p) && Payload(PREFIX + p) == p
  {
  }

  /** A stored text is encrypted when it is the version and something, which is then the payload. */
  lemma EncryptedMeans(t: string, p: string)
    ensures t == "enc:v1:" + p <==> IsEncrypted(t) && Payload(t) == p
  {
    if IsEncrypted(t) { assert t == t[..7] + t[7..]; }
  }

  /** A re-encrypted text is read by the new key and not by the old one. */
  lemma NewText(c: Cipher, oldKey: string, newKey: string, m: string, n: nat)
    requires Authentic(c) && oldKey != newKey
    ensures var t := PREFIX + c.enc(newKey, m, n);
            && UnderNew(c, newKey, t, m) && Open(c, oldKey, t) == None && Open(c, newKey, t) == Some(m)
            && Secret(c, oldKey, newKey, t) == Some(m)
  {
    hide IsEncrypted;
    hide Payload;
    Prefixed(c.enc(newKey, m, n));
  }

  lemma MakeStep(c: Cipher, oldKey: string, newKey: string, before: string, m: string, n: nat)
    requires Open(c, oldKey, before) == Some(m)
    ensures Step(c, oldKey, newKey, before, PREFIX + c.enc(newKey, m, n))
  {
    hide Open;
  }

  /** A step keeps the secret. */
  lemma StepKeepsSecret(c: Cipher, oldKey: string, newKey: string, before: string, after: string)
    requires Authentic(c) && oldKey != newKey && Step(c, oldKey, newKey, before, after)
    ensures Secret(c, oldKey, newKey, after) == Secret(c, oldKey, newKey, before)
  {
    hide Open;
    hide UnderNew;
    if after != before {
      var m, n :| Open(c, oldKey, before) == Some(m) && after == PREFIX + c.enc(newKey, m, n);
      NewText(c, oldKey, newKey, m, n);
    }
  }

  /** Steps of one run after steps of another are steps. */
  lemma StepTwice(c: Cipher, oldKey: string, newKey: string, a: string, b: string, d: string)
    requires Authentic(c) && oldKey != newKey && Step(c, oldKey, newKey, a, b) && Step(c, oldKey, newKey, b, d)
    ensures Step(c, oldKey, newKey, a, d)
  {
    hide Open;
    if b != a && d != b {
      var m, n :| Open(c, oldKey, a) == Some(m) && b == PREFIX + c.enc(newKey, m, n);
      NewText(c, oldKey, newKey, m, n);
    }
  }

  /** Nothing empty and nothing but text takes part, whatever steps were taken. */
  lemma StepNotEmpty(c: Cipher, oldKey: string, newKey: string, before: string, after: string)
    requires Step(c, oldKey, newKey, before, after) && before != ""
    ensures after != ""
  {
    if after != before {
      var m, n :| Open(c, oldKey, before) == Some(m) && after == PREFIX + c.enc(newKey, m, n);
      assert |after| >= |PREFIX|;
    }
  }

  // ---------------------------------------------------------------- the run

  class Users {
    var secrets: seq<Stored>

    /** Write the new text and read it back. Whatever goes wrong is a failure of the record, and the text is
        then the old or the new one. */
    method WriteAndVerify(i: nat, next: string, apply: bool, fate: Fate) returns (ok: bool)
      requires i < |secrets|
      modifies this
      ensures secrets == if apply && fate.landed then old(secrets)[i := Text(next)] else old(secrets)
      ensures ok <==> !apply || (fate.landed && fate.answered)
    {
      if !apply { return true; }
      if !fate.landed { return false; }
      secrets := secrets[i := Text(next)];
      ok := fate.answered && secrets[i] == Text(next);
    }

    /** One record: decrypt with the old key, skip what only the new key opens, leave what neither opens,
        and check the new text before it is written. */
    method MigrateOne(c: Cipher, oldKey: string, newKey: string, apply: bool, i: nat, stat: Stat, nonce: nat,
                      fate: Fate)
      returns (r: Stat)
      requires Authentic(c) && oldKey != newKey && i < |secrets|
      modifies this
      ensures |secrets| == |old(secrets)| && forall j | 0 <= j < |secrets| && j != i :: secrets[j] == old(secrets)[j]
      ensures secrets[i] != old(secrets)[i] ==> apply && fate.landed && OpensOld(c, oldKey, old(secrets)[i])
      ensures apply && fate.landed && OpensOld(c, oldKey, old(secrets)[i]) ==>
                secrets[i] == Text("enc:v1:" + c.enc(newKey, Open(c, oldKey, old(secrets)[i].text).value, nonce))
      ensures !TakesPart(old(secrets)[i]) ==> r == stat
      ensures TakesPart(old(secrets)[i]) ==>
                && r.encrypted == stat.encrypted + (if IsEncrypted(old(secrets)[i].text) then 1 else 0)
                && r.plaintext == stat.plaintext + (if IsEncrypted(old(secrets)[i].text) then 0 else 1)
      ensures r.migrated == stat.migrated +
                if OpensOld(c, oldKey, old(secrets)[i]) && (apply ==> Good(fate)) then 1 else 0
      ensures r.skipped == stat.skipped + if OnlyNew(c, oldKey, newKey, old(secrets)[i]) then 1 else 0
      ensures r.failures == stat.failures +
                if Fails(c, oldKey, newKey, apply, old(secrets)[i], fate) then [i] else []
    {
      hide Open;
      hide IsEncrypted;
      hide Payload;
      r := stat;
      if !secrets[i].Text? || secrets[i].text == "" { return; }
      var stored := secrets[i].text;
      OpenCases(c, oldKey, stored);
      OpenCases(c, newKey, stored);
      var plain: string;
      if IsEncrypted(stored) {
        r := r.(encrypted := r.encrypted + 1);
        var read := c.dec(oldKey, Payload(stored));
        if read.None? {
          if c.dec(newKey, Payload(stored)).Some? {
            r := r.(skipped := r.skipped + 1);
          } else {
            r := r.(failures := r.failures + [i]);
          }
          return;
        }
        plain := read.value;
      } else {
        r := r.(plaintext := r.plaintext + 1);
        plain := stored;
      }
      var next := PREFIX + c.enc(newKey, plain, nonce);
      NewText(c, oldKey, newKey, plain, nonce);
      Prefixed(c.enc(newKey, plain, nonce));
      if c.dec(newKey, Payload(next)) != Some(plain) {
        r := r.(failures := r.failures + [i]);
        return;
      }
      var ok := WriteAndVerify(i, next, apply, fate);
      if ok {
        r := r.(migrated := r.migrated + 1);
      } else {
        r := r.(failures := r.failures + [i]);
      }
    }

    /** Every record in turn. The run can be stopped after any of them. */
    method MigrateAll(c: Cipher, oldKey: string, newKey: string, apply: bool, world: World)
      returns (stat: Stat, stopped: bool)
      requires Authentic(c) && oldKey != newKey
      modifies this
      ensures |secrets| == |old(secrets)| && Steps(c, oldKey, newKey, old(secrets), secrets)
      ensures !apply ==> secrets == old(secrets)
      ensures stopped <==> world.until < |secrets|
      ensures Reports(c, oldKey, newKey, apply, old(secrets), world, stat, if stopped then world.until else |secrets|)
      ensures stat.migrated + stat.skipped + |stat.failures| == stat.encrypted + stat.plaintext
      ensures !stopped && apply ==>
                forall i | 0 <= i < |secrets| && i !in stat.failures ::
                  Done(c, oldKey, newKey, old(secrets)[i], secrets[i])
    {
      hide *;
      ghost var before := secrets;
      stat, stopped := Stat(0, 0, 0, 0, []), false;
      SameSteps(c, oldKey, newKey, before);
      ReportsNone(c, oldKey, newKey, apply, before, world);
      for i := 0 to |secrets|
        invariant |secrets| == |before| && Steps(c, oldKey, newKey, before, secrets) && !stopped && i <= world.until
        invariant forall j | i <= j < |before| :: secrets[j] == before[j]
        invariant !apply ==> secrets == before
        invariant Reports(c, oldKey, newKey, apply, before, world, stat, i)
        invariant stat.migrated + stat.skipped + |stat.failures| == stat.encrypted + stat.plaintext
        invariant apply ==> forall j | 0 <= j < i && j !in stat.failures ::
                  Done(c, oldKey, newKey, before[j], secrets[j])
      {
        if i == world.until {
          stopped := true;
          return;
        }
        ghost var now, earlier := secrets, stat;
        stat := MigrateOne(c, oldKey, newKey, apply, i, stat, world.nonce(i), world.fate(i));
        OneOfFour(c, oldKey, newKey, before[i]);
        OneStep(c, oldKey, newKey, apply, before[i], secrets[i], world.nonce(i), world.fate(i));
        StepsNext(c, oldKey, newKey, before, now, secrets, i);
        ReportsNext(c, oldKey, newKey, apply, before, world, earlier, stat, i);
        assert !apply ==> secrets[i] == before[i];
      }
    }
  }

  /** A record is a failure when no key opens it, or when its write fails. */
  ghost predicate Fails(c: Cipher, oldKey: string, newKey: string, apply: bool, s: Stored, fate: Fate) {
    Locked(c, oldKey, newKey, s) || (apply && OpensOld(c, oldKey, s) && !(fate.landed && fate.answered))
  }

  /** How many of the first n have a property. */
  ghost function HowMany(n: nat, p: nat -> bool): nat {
    if n == 0 then 0 else HowMany(n - 1, p) + if p(n - 1) then 1 else 0
  }

  ghost function EncryptedAt(s: seq<Stored>): nat -> bool {
    (i: nat) => i < |s| && TakesPart(s[i]) && IsEncrypted(s[i].text)
  }

  ghost function PlainAt(s: seq<Stored>): nat -> bool {
    (i: nat) => i < |s| && TakesPart(s[i]) && !IsEncrypted(s[i].text)
  }

  ghost function MigratedAt(c: Cipher, oldKey: string, apply: bool, s: seq<Stored>, fate: nat -> Fate): nat -> bool {
    (i: nat) => i < |s| && OpensOld(c, oldKey, s[i]) && (apply ==> Good(fate(i)))
  }

  ghost function SkippedAt(c: Cipher, oldKey: string, newKey: string, s: seq<Stored>): nat -> bool {
    (i: nat) => i < |s| && OnlyNew(c, oldKey, newKey, s[i])
  }

  /** What the report of a run over the first n records says of them. */
  ghost predicate Reports(c: Cipher, oldKey: string, newKey: string, apply: bool, s: seq<Stored>, world: World,
                          stat: Stat, n: nat)
  {
    && n <= |s|
    && stat.encrypted == HowMany(n, EncryptedAt(s)) && stat.plaintext == HowMany(n, PlainAt(s))
    && stat.migrated == HowMany(n, MigratedAt(c, oldKey, apply, s, world.fate))
    && stat.skipped == HowMany(n, SkippedAt(c, oldKey, newKey, s))
    && forall i: nat :: i in stat.failures <==> i < n && Fails(c, oldKey, newKey, apply, s[i], world.fate(i))
  }

  lemma ReportsNone(c: Cipher, oldKey: string, newKey: string, apply: bool, s: seq<Stored>, world: World)
    ensures Reports(c, oldKey, newKey, apply, s, world, Stat(0, 0, 0, 0, []), 0)
  {
  }

  lemma ReportsNext(c: Cipher, oldKey: string, newKey: string, apply: bool, s: seq<Stored>, world: World,
                    stat: Stat, r: Stat, n: nat)
    requires Reports(c, oldKey, newKey, apply, s, world, stat, n) && n < |s|
    requires r.encrypted == stat.encrypted + if TakesPart(s[n]) && IsEncrypted(s[n].text) then 1 else 0
    requires r.plaintext == stat.plaintext + if TakesPart(s[n]) && !IsEncrypted(s[n].text) then 1 else 0
    requires r.migrated == stat.migrated + if OpensOld(c, oldKey, s[n]) && (apply ==> Good(world.fate(n))) then 1 else 0
    requires r.skipped == stat.skipped + if OnlyNew(c, oldKey, newKey, s[n]) then 1 else 0
    requires r.failures == stat.failures + if Fails(c, oldKey, newKey, apply, s[n], world.fate(n)) then [n] else []
    ensures Reports(c, oldKey, newKey, apply, s, world, r, n + 1)
  {
    hide Fails;
    hide OpensOld;
    hide OnlyNew;
    hide IsEncrypted;
    hide Good;
  }

  /** What takes part is one of three. */
  lemma OneOfFour(c: Cipher, oldKey: string, newKey: string, s: Stored)
    ensures !TakesPart(s) ==>
              !OpensOld(c, oldKey, s) && !OnlyNew(c, oldKey, newKey, s) && !Locked(c, oldKey, newKey, s)
    ensures OpensOld(c, oldKey, s) ==> !OnlyNew(c, oldKey, newKey, s) && !Locked(c, oldKey, newKey, s)
    ensures OnlyNew(c, oldKey, newKey, s) ==> !Locked(c, oldKey, newKey, s)
    ensures TakesPart(s) ==> OpensOld(c, oldKey, s) || OnlyNew(c, oldKey, newKey, s) || Locked(c, oldKey, newKey, s)
    ensures forall apply, fate :: Fails(c, oldKey, newKey, apply, s, fate) <==>
              Locked(c, oldKey, newKey, s) || (apply && OpensOld(c, oldKey, s) && !Good(fate))
  {
    hide Open;
  }

  lemma OneStep(c: Cipher, oldKey: string, newKey: string, apply: bool, s: Stored, t: Stored, nonce: nat, fate: Fate)
    requires Authentic(c) && oldKey != newKey
    requires t != s ==> apply && fate.landed && OpensOld(c, oldKey, s)
    requires apply && fate.landed && OpensOld(c, oldKey, s) ==>
               t == Text("enc:v1:" + c.enc(newKey, Open(c, oldKey, s.text).value, nonce))
    ensures StoredStep(c, oldKey, newKey, s, t)
    ensures apply && !Fails(c, oldKey, newKey, apply, s, fate) ==> Done(c, oldKey, newKey, s, t)
  {
    hide Open;
    hide UnderNew;
    hide Authentic;
    hide IsEncrypted;
    hide Payload;
    if OpensOld(c, oldKey, s) {
      var m := Open(c, oldKey, s.text).value;
      NewText(c, oldKey, newKey, m, nonce);
      MakeStep(c, oldKey, newKey, s.text, m, nonce);
      StepNotEmpty(c, oldKey, newKey, s.text, PREFIX + c.enc(newKey, m, nonce));
    }
    if OnlyNew(c, oldKey, newKey, s) { OpenOnlyNew(c, oldKey, newKey, s.text); }
  }

  lemma OpenOnlyNew(c: Cipher, oldKey: string, newKey: string, t: string)
    requires Open(c, oldKey, t).None? && Open(c, newKey, t).Some?
    ensures UnderNew(c, newKey, t, Open(c, newKey, t).value)
  {
  }

  lemma StepsNext(c: Cipher, oldKey: string, newKey: string, before: seq<Stored>, now: seq<Stored>, next: seq<Stored>,
                  i: nat)
    requires Steps(c, oldKey, newKey, before, now) && i < |before| && |next| == |now|
    requires StoredStep(c, oldKey, newKey, before[i], next[i])
    requires forall j | 0 <= j < |now| && j != i :: next[j] == now[j]
    ensures Steps(c, oldKey, newKey, before, next)
  {
    hide StoredStep;
  }

  lemma OpenCases(c: Cipher, key: string, t: string)
    ensures Open(c, key, t) == if IsEncrypted(t) then c.dec(key, Payload(t)) else Some(t)
  {
  }

  lemma SameSteps(c: Cipher, oldKey: string, newKey: string, s: seq<Stored>)
    ensures Steps(c, oldKey, newKey, s, s)
  {
    hide Open;
  }

  // ---------------------------------------------------------------- runs and reruns

  lemma StepsTwice(c: Cipher, oldKey: string, newKey: string, a: seq<Stored>, b: seq<Stored>, d: seq<Stored>)
    requires Authentic(c) && oldKey != newKey && Steps(c, oldKey, newKey, a, b) && Steps(c, oldKey, newKey, b, d)
    ensures Steps(c, oldKey, newKey, a, d)
  {
    hide Step;
    hide Authentic;
    forall i | 0 <= i < |a| ensures StoredStep(c, oldKey, newKey, a[i], d[i]) {
      assert StoredStep(c, oldKey, newKey, a[i], b[i]) && StoredStep(c, oldKey, newKey, b[i], d[i]);
      if a[i].Text? && a[i].text != "" {
        StepNotEmpty(c, oldKey, newKey, a[i].text, b[i].text);
        StepTwice(c, oldKey, newKey, a[i].text, b[i].text, d[i].text);
      }
    }
  }

  /** What a later run finishes was the secret at the very start; what neither key read at the start is
      the text it was, and a failure of the later run. */
  lemma Resumes(c: Cipher, oldKey: string, newKey: string, start: Stored, halfway: Stored, end: Stored)
    requires Authentic(c) && oldKey != newKey && StoredStep(c, oldKey, newKey, start, halfway)
    ensures Done(c, oldKey, newKey, halfway, end) ==> Done(c, oldKey, newKey, start, end)
    ensures Locked(c, oldKey, newKey, start) <==> Locked(c, oldKey, newKey, halfway)
    ensures Locked(c, oldKey, newKey, start) ==> halfway == start
  {
    hide UnderNew;
    hide Authentic;
    hide Step;
    if start.Text? && start.text != "" {
      StepKeepsSecret(c, oldKey, newKey, start.text, halfway.text);
      StepNotEmpty(c, oldKey, newKey, start.text, halfway.text);
      if Secret(c, oldKey, newKey, start.text).None? {
        LockedStays(c, oldKey, newKey, start.text, halfway.text);
      }
    }
  }

  lemma LockedStays(c: Cipher, oldKey: string, newKey: string, before: string, after: string)
    requires Secret(c, oldKey, newKey, before).None? && Step(c, oldKey, newKey, before, after)
    ensures after == before
  {
    hide IsEncrypted;
    hide Payload;
  }

  /** Stopped anywhere any number of times and run to the end at last, with no failure left: every secret
      there was is under the new key. A run that is not stopped and whose writes all land and are answered gets
      there, unless there is a secret that neither key opens. */
  method RunUntilDone(users: Users, c: Cipher, oldKey: string, newKey: string, runs: seq<World>)
    returns (finished: bool)
    requires Authentic(c) && oldKey != newKey
    modifies users
    ensures Steps(c, oldKey, newKey, old(users.secrets), users.secrets)
    ensures finished ==> forall i | 0 <= i < |users.secrets| ::
            Done(c, oldKey, newKey, old(users.secrets)[i], users.secrets[i])
    ensures forall i | 0 <= i < |users.secrets| && Locked(c, oldKey, newKey, old(users.secrets)[i]) ::
              !finished && users.secrets[i] == old(users.secrets)[i]
    ensures (exists world :: world in runs && Smooth(world, |old(users.secrets)|)) ==>
              finished || exists i | 0 <= i < |old(users.secrets)| :: Locked(c, oldKey, newKey, old(users.secrets)[i])
  {
    hide *;
    ghost var start := users.secrets;
    finished := false;
    SameSteps(c, oldKey, newKey, start);
    for k := 0 to |runs|
      invariant |users.secrets| == |start| && Steps(c, oldKey, newKey, start, users.secrets) && !finished
      invariant forall j | 0 <= j < k && Smooth(runs[j], |start|) ::
                  exists i | 0 <= i < |start| :: Locked(c, oldKey, newKey, start[i])
    {
      ghost var halfway := users.secrets;
      var stat, stopped := users.MigrateAll(c, oldKey, newKey, true, runs[k]);
      StepsTwice(c, oldKey, newKey, start, halfway, users.secrets);
      if !stopped && stat.failures == [] {
        NoneFailed(c, oldKey, newKey, halfway, runs[k], stat);
        FinishedAll(c, oldKey, newKey, start, halfway, users.secrets);
        finished := true;
        return;
      }
      if Smooth(runs[k], |start|) { SomeLocked(c, oldKey, newKey, start, halfway, runs[k], stat, stopped); }
    }
    LockedAll(c, oldKey, newKey, start, users.secrets);
  }

  /** A run that nothing stops and in which every write lands and is answered. */
  ghost predicate Smooth(world: World, n: nat) {
    world.until >= n && forall i | 0 <= i < n :: Good(world.fate(i))
  }

  lemma NoneFailed(c: Cipher, oldKey: string, newKey: string, s: seq<Stored>, world: World, stat: Stat)
    requires Reports(c, oldKey, newKey, true, s, world, stat, |s|) && stat.failures == []
    ensures forall i | 0 <= i < |s| :: !Locked(c, oldKey, newKey, s[i])
  {
    hide Locked;
    hide HowMany;
    forall i | 0 <= i < |s| ensures !Locked(c, oldKey, newKey, s[i]) {
      assert i !in stat.failures;
      assert !Fails(c, oldKey, newKey, true, s[i], world.fate(i));
    }
  }

  lemma SomeLocked(c: Cipher, oldKey: string, newKey: string, start: seq<Stored>, halfway: seq<Stored>, world: World,
                   stat: Stat, stopped: bool)
    requires Authentic(c) && oldKey != newKey && Steps(c, oldKey, newKey, start, halfway)
    requires Smooth(world, |halfway|) && (stopped <==> world.until < |halfway|) && (stopped || stat.failures != [])
    requires Reports(c, oldKey, newKey, true, halfway, world, stat, if stopped then world.until else |halfway|)
    ensures exists i | 0 <= i < |start| :: Locked(c, oldKey, newKey, start[i])
  {
    hide Locked;
    hide HowMany;
    hide StoredStep;
    hide Authentic;
    var i := stat.failures[0];
    assert i in stat.failures && Good(world.fate(i));
    Resumes(c, oldKey, newKey, start[i], halfway[i], halfway[i]);
  }

  lemma FinishedAll(c: Cipher, oldKey: string, newKey: string, start: seq<Stored>, halfway: seq<Stored>,
                    end: seq<Stored>)
    requires Authentic(c) && oldKey != newKey && Steps(c, oldKey, newKey, start, halfway) && |end| == |halfway|
    requires forall i | 0 <= i < |end| ::
             Done(c, oldKey, newKey, halfway[i], end[i]) && !Locked(c, oldKey, newKey, halfway[i])
    ensures |end| == |start| && forall i | 0 <= i < |end| ::
            Done(c, oldKey, newKey, start[i], end[i]) && !Locked(c, oldKey, newKey, start[i])
  {
    hide Done;
    hide Locked;
    hide Authentic;
    hide StoredStep;
    forall i | 0 <= i < |end| ensures Done(c, oldKey, newKey, start[i], end[i]) && !Locked(c, oldKey, newKey, start[i])
    {
      assert StoredStep(c, oldKey, newKey, start[i], halfway[i]);
      Resumes(c, oldKey, newKey, start[i], halfway[i], end[i]);
    }
  }

  lemma LockedAll(c: Cipher, oldKey: string, newKey: string, start: seq<Stored>, end: seq<Stored>)
    requires Authentic(c) && oldKey != newKey && Steps(c, oldKey, newKey, start, end)
    ensures |end| == |start| && forall i | 0 <= i < |end| && Locked(c, oldKey, newKey, start[i]) :: end[i] == start[i]
  {
    hide Done;
    hide Locked;
    hide Authentic;
    hide StoredStep;
    forall i | 0 <= i < |end| && Locked(c, oldKey, newKey, start[i]) ensures end[i] == start[i] {
      assert StoredStep(c, oldKey, newKey, start[i], end[i]);
      Resumes(c, oldKey, newKey, start[i], end[i], end[i]);
    }
  }
}
