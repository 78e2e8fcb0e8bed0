/** Encrypting the PII columns of a collection, back-filling their search keys, and moving them to a new
    master key. */
module PiiEncryption {
  import opened Texts
  import opened Wrappers

  /** Authenticated encryption bound to a row and a field, the keyed search functions, and the
      normalisation of e-mail addresses. */
  datatype Crypto = Crypto(
    enc: (string, string, string, string, nat) -> string,
    dec: (string, string, string, string) -> Option<string>,
    searchKey: (string, string) -> string,
    grams: (string, string) -> seq<string>,
    normal: string -> string)

  const V1 := "enc.v1."
  const V2 := "enc.v2."

  predicate IsCipher(s: string) {
    StartsWith(s, V1) || StartsWith(s, V2)
  }

  predicate IsBase64(c: char) {
    'A' <= c <= 'Z' || 'a' <= c <= 'z' || '0' <= c <= '9' || c == '+' || c == '/'
  }

  lemma Base64Means(c: char)
    ensures IsBase64(c) <==>
            c in "ABCDEFGHIJKLMNOPQRSTUVWXYZ" || c in "abcdefghijklmnopqrstuvwxyz" || c in "0123456789+/"
  {
    CapitalLetters(c);
    SmallLetters(c);
    if '0' <= c <= '9' { assert "0123456789+/"[c as int - 48] == c; }
    assert "0123456789+/"[10] == '+' && "0123456789+/"[11] == '/';
  }

  /** Up to two padding characters at the end come off. */
  function Unpadded(s: string): string {
    if s != "" && s[|s| - 1] == '=' then
      var t := s[..|s| - 1];
      if t != "" && t[|t| - 1] == '=' then t[..|t| - 1] else t
    else s
  }

  /** What encryption takes for a ciphertext already: version, 16 characters of IV, a dot, data. */
  predicate Shaped(s: string) {
    IsCipher(s) && |s| >= 24 && s[23] == '.' && (forall i | 7 <= i < 23 :: IsBase64(s[i]))
    && Unpadded(s[24..]) != "" && forall i | 0 <= i < |Unpadded(s[24..])| :: IsBase64(Unpadded(s[24..])[i])
  }

  /** The parts of such a text: after the version an IV of 16 characters, a dot, and data that may be padded. */
  ghost predicate Parts(s: string, version: string, iv: string, data: string, padding: string) {
    && version in {"enc.v1.", "enc.v2."} && |iv| == 16 && data != "" && padding in {"", "=", "=="}
    && (forall i | 0 <= i < |iv| :: IsBase64(iv[i])) && (forall i | 0 <= i < |data| :: IsBase64(data[i]))
    && s == version + iv + "." + data + padding
  }

  lemma ShapedMeans(s: string)
    ensures Shaped(s) <==> exists version, iv, data, padding :: Parts(s, version, iv, data, padding)
  {
    if Shaped(s) { ShapedHasParts(s); }
    forall version, iv, data, padding | Parts(s, version, iv, data, padding) ensures Shaped(s) {
      PartsAreShaped(s, version, iv, data, padding);
    }
  }

  lemma ShapedHasParts(s: string)
    requires Shaped(s)
    ensures exists version, iv, data, padding :: Parts(s, version, iv, data, padding)
  {
    hide IsBase64;
    var data := Unpadded(s[24..]);
    var padding := s[24 + |data|..];
    assert s[24..] == data + padding;
    assert s[23..] == "." + (data + padding);
    assert s[7..] == s[7..23] + s[23..];
    assert s == s[..7] + (s[7..23] + ("." + (data + padding)));
    Assembled(s[..7], s[7..23], data, padding);
    forall i | 0 <= i < 16 ensures IsBase64(s[7..23][i]) {
      assert s[7..23][i] == s[7 + i];
    }
    PaddingOf(s[24..]);
    assert padding == s[24..][|data|..];
    assert Parts(s, s[..7], s[7..23], data, padding);
  }

  lemma PaddingOf(t: string)
    ensures Unpadded(t) <= t && t[|Unpadded(t)|..] in {"", "=", "=="}
  {
    var rest := t[|Unpadded(t)|..];
    assert rest == "" || rest == "=" || rest == "==";
  }

  lemma Assembled(a: string, b: string, c: string, d: string)
    ensures a + (b + ("." + (c + d))) == a + b + "." + c + d
  {
  }

  lemma PartsAreShaped(s: string, version: string, iv: string, data: string, padding: string)
    requires Parts(s, version, iv, data, padding)
    ensures Shaped(s)
  {
    assert !IsBase64('=');
    hide IsBase64;
    assert s[..7] == version && s[24..] == data + padding && s[23] == '.';
    assert forall i | 7 <= i < 23 :: s[i] == iv[i - 7];
    UnpaddedOf(data, padding);
    hide Unpadded;
  }

  lemma UnpaddedOf(data: string, padding: string)
    requires data != "" && data[|data| - 1] != '=' && padding in {"", "=", "=="}
    ensures Unpadded(data + padding) == data
  {
  }

  /** What the cipher guarantees: the right key opens a v2 text in its place, any other key does not; a
      ciphertext has the v2 prefix; a plaintext is shorter than its ciphertext. Nothing is asked about a
      ciphertext moved to another place. */
  ghost predicate Sound(c: Crypto) {
    && (forall k, id, f, p, n :: c.dec(k, c.enc(k, id, f, p, n), id, f) == Some(p))
    && (forall k, q, id, f, p, n :: k != q ==> c.dec(q, c.enc(k, id, f, p, n), id, f) == None)
    && (forall k, id, f, p, n :: StartsWith(c.enc(k, id, f, p, n), V2))
    && (forall k, s, id, f :: c.dec(k, s, id, f).Some? ==> |c.dec(k, s, id, f).value| < |s|)
  }

  /** How the program encrypts: nothing and what looks like a ciphertext is passed through. */
  function Encrypt(c: Crypto, key: string, id: string, field: string, plain: string, nonce: nat): string {
    if plain == "" || Shaped(plain) then plain else c.enc(key, id, field, plain, nonce)
  }

  /** How everyone reads: what has no version prefix is plain text. */
  function Read(c: Crypto, key: string, id: string, field: string, s: string): Option<string> {
    if IsCipher(s) then c.dec(key, s, id, field) else Some(s)
  }

  // ---------------------------------------------------------------- rows

  /** A managed column with the search key and the n-grams stored for it. */
  datatype Column = Column(stored: string, key: Option<string>, grams: Option<seq<string>>)

  datatype Row = Row(id: string, columns: map<string, Column>)

  datatype Spec = Spec(hasKey: bool, hasGrams: bool, normalize: bool)

  /** The managed columns by path, and the columns that are to be plain. */
  datatype Target = Target(fields: map<string, Spec>, selfHeal: set<string>)

  /** Both the default mode and --encrypt are Full. */
  datatype Mode = Full | KeysOnly | Rotate

  datatype Keys = Keys(current: string, former: string)

  datatype Result =
    | Nothing | SkipEncrypted
    | Corrupt
    | Update(column: Column, kind: Kind)

  /** Keys alone, an old ciphertext to a new one, anything else that is encrypted, and back to plain text. */
  datatype Kind = Backfill | Upgrade | Encryption | Healing

  function Normalized(c: Crypto, spec: Spec, s: string): string {
    if spec.normalize then c.normal(s) else s
  }

  /** The normalised plain text of a stored value: by the former key when rotating, else by the current one. */
  function PlaintextOf(c: Crypto, keys: Keys, mode: Mode, id: string, field: string, spec: Spec,
                       stored: string): Option<string>
  {
    match Read(c, if mode.Rotate? then keys.former else keys.current, id, field, stored)
    case None => None
    case Some(p) => Some(Normalized(c, spec, p))
  }

  /** The column with the search key and n-grams of the plain text. */
  function WithKeys(c: Crypto, keys: Keys, spec: Spec, col: Column, plain: string): Column {
    col.(key := if spec.hasKey then Some(c.searchKey(keys.current, plain)) else col.key,
         grams := if spec.hasGrams then Some(c.grams(keys.current, plain)) else col.grams)
  }

  function ResolveKeysOnly(c: Crypto, keys: Keys, id: string, field: string, spec: Spec, col: Column): Result {
    if !spec.hasKey && !spec.hasGrams then Nothing
    else match PlaintextOf(c, keys, KeysOnly, id, field, spec, col.stored)
      case None => Corrupt
      case Some(plain) =>
        if WithKeys(c, keys, spec, col, plain) == col then Nothing
        else Update(WithKeys(c, keys, spec, col, plain), Backfill)
  }

  function ResolveFieldUpdate(c: Crypto, keys: Keys, mode: Mode, id: string, field: string, spec: Spec, col: Column,
                              nonce: nat): Result
  {
    if col.stored == "" then Nothing
    else if mode.KeysOnly? then ResolveKeysOnly(c, keys, id, field, spec, col)
    else if StartsWith(col.stored, V2) && !mode.Rotate? then SkipEncrypted
    else match PlaintextOf(c, keys, mode, id, field, spec, col.stored)
      case None => Corrupt
      case Some(plain) =>
        Update(WithKeys(c, keys, spec, col, plain).(stored := Encrypt(c, keys.current, id, field, plain, nonce)),
               if StartsWith(col.stored, V1) && !mode.Rotate? then Upgrade else Encryption)
  }

  /** A column that is to be plain: a v1 ciphertext is decrypted; v2, bound to a row, cannot be here. */
  function ResolveSelfHeal(c: Crypto, keys: Keys, id: string, field: string, col: Column): Result {
    if !IsCipher(col.stored) then Nothing
    else if StartsWith(col.stored, V2) then Corrupt
    else match c.dec(keys.current, col.stored, id, field)
      case None => Corrupt
      case Some(plain) => Update(col.(stored := plain), Healing)
  }

  function Resolve(c: Crypto, keys: Keys, mode: Mode, target: Target, row: Row, path: string, nonce: nat): Result {
    if path !in row.columns then Nothing
    else if path in target.fields then ResolveFieldUpdate(c, keys, mode, row.id, path, target.fields[path],
                                                          row.columns[path], nonce)
    else if path in target.selfHeal then ResolveSelfHeal(c, keys, row.id, path, row.columns[path])
    else Nothing
  }

  /** What becomes of each column of a row. */
  function Results(c: Crypto, keys: Keys, mode: Mode, target: Target, row: Row, nonces: string -> nat): string -> Result
  {
    path => Resolve(c, keys, mode, target, row, path, nonces(path))
  }

  function Changes(paths: set<string>, results: string -> Result): map<string, Column> {
    map path | path in paths && results(path).Update? :: results(path).column
  }

  function Broken(paths: set<string>, results: string -> Result): set<string> {
    set path | path in paths && results(path).Corrupt?
  }

  /** All changes of one row, in one $set. */
  function UpdateOf(c: Crypto, keys: Keys, mode: Mode, target: Target, row: Row,
                    nonces: string -> nat): map<string, Column>
  {
    Changes(row.columns.Keys, Results(c, keys, mode, target, row, nonces))
  }

  /** The columns of a row that are reported as not decryptable. */
  function CorruptOf(c: Crypto, keys: Keys, mode: Mode, target: Target, row: Row, nonces: string -> nat): set<string> {
    Broken(row.columns.Keys, Results(c, keys, mode, target, row, nonces))
  }

  function Rewritten(c: Crypto, keys: Keys, mode: Mode, target: Target, row: Row, nonces: string -> nat): Row {
    row.(columns := row.columns + UpdateOf(c, keys, mode, target, row, nonces))
  }

  function Writes(c: Crypto, keys: Keys, mode: Mode, target: Target, rows: seq<Row>, nonces: nat -> string -> nat): nat
  {
    if rows == [] then 0
    else
      var k := |rows| - 1;
      Writes(c, keys, mode, target, rows[..k], nonces) +
      if UpdateOf(c, keys, mode, target, rows[k], nonces(k)) != map[] then 1 else 0
  }

  // ---------------------------------------------------------------- the scan

  datatype Stats = Stats(plaintextRows: nat, aadUpgraded: nat, encryptedRows: nat, keysBackfilled: nat)

  function Counted(stats: Stats, r: Result): Stats {
    match r
    case Update(_, Backfill) => stats.(keysBackfilled := stats.keysBackfilled + 1)
    case Update(_, Upgrade) => stats.(aadUpgraded := stats.aadUpgraded + 1)
    case Update(_, Encryption) => stats.(plaintextRows := stats.plaintextRows + 1)
    case SkipEncrypted => stats.(encryptedRows := stats.encryptedRows + 1)
    case _ => stats
  }

  ghost function Sum(s: Stats, t: Stats): Stats {
    Stats(s.plaintextRows + t.plaintextRows, s.aadUpgraded + t.aadUpgraded, s.encryptedRows + t.encryptedRows,
          s.keysBackfilled + t.keysBackfilled)
  }

  /** The columns that are rewritten in one way, and those skipped as encrypted. */
  ghost function OfKind(paths: set<string>, results: string -> Result, kind: Kind): set<string> {
    set p | p in paths && results(p).Update? && results(p).kind == kind
  }

  ghost function Skipped(paths: set<string>, results: string -> Result): set<string> {
    set p | p in paths && results(p).SkipEncrypted?
  }

  /** How many columns of each kind there are. */
  ghost function StatsOf(paths: set<string>, results: string -> Result): Stats {
    Stats(|OfKind(paths, results, Encryption)|, |OfKind(paths, results, Upgrade)|, |Skipped(paths, results)|,
          |OfKind(paths, results, Backfill)|)
  }

  ghost function TotalStats(c: Crypto, keys: Keys, mode: Mode, target: Target, rows: seq<Row>,
                            nonces: nat -> string -> nat): Stats
  {
    if rows == [] then Stats(0, 0, 0, 0)
    else
      var k := |rows| - 1;
      Sum(TotalStats(c, keys, mode, target, rows[..k], nonces),
          StatsOf(rows[k].columns.Keys, Results(c, keys, mode, target, rows[k], nonces(k))))
  }

  lemma OneCounted(done: set<string>, path: string, results: string -> Result, stats: Stats)
    requires path !in done
    ensures Sum(stats, StatsOf(done + {path}, results)) == Counted(Sum(stats, StatsOf(done, results)), results(path))
  {
    var all, r := done + {path}, results(path);
    assert Skipped(all, results) == Skipped(done, results) + if r.SkipEncrypted? then {path} else {};
    OneOfKind(done, path, results, Encryption);
    OneOfKind(done, path, results, Upgrade);
    OneOfKind(done, path, results, Backfill);
    hide OfKind;
  }

  lemma OneOfKind(done: set<string>, path: string, results: string -> Result, kind: Kind)
    requires path !in done
    ensures |OfKind(done + {path}, results, kind)| ==
            |OfKind(done, results, kind)| + if results(path).Update? && results(path).kind == kind then 1 else 0
  {
    var before, after := OfKind(done, results, kind), OfKind(done + {path}, results, kind);
    if results(path).Update? && results(path).kind == kind {
      assert after == before + {path} && path !in before;
    } else {
      assert after == before;
    }
  }

  /** The columns of one row, one by one. */
  method ScanRow(paths: set<string>, results: string -> Result, stats: Stats)
    returns (update: map<string, Column>, corrupt: set<string>, counted: Stats)
    ensures update == Changes(paths, results) && corrupt == Broken(paths, results)
    ensures counted == Sum(stats, StatsOf(paths, results))
  {
    hide *;
    update, corrupt, counted := map[], {}, stats;
    var rest := paths;
    NoneSorted(results);
    NoneCounted(results, stats);
    assert paths - rest == {};
    while rest != {}
      invariant rest <= paths && update == Changes(paths - rest, results) && corrupt == Broken(paths - rest, results)
      invariant counted == Sum(stats, StatsOf(paths - rest, results))
      decreases |rest|
    {
      var path :| path in rest;
      OneSorted(paths - rest, path, results);
      OneCounted(paths - rest, path, results, stats);
      assert paths - (rest - {path}) == (paths - rest) + {path};
      rest := rest - {path};
      var r := results(path);
      counted := Counted(counted, r);
      if r.Update? {
        update := update[path := r.column];
      } else if r.Corrupt? {
        corrupt := corrupt + {path};
      }
    }
    assert paths - rest == paths;
  }

  lemma NoneCounted(results: string -> Result, stats: Stats)
    ensures Sum(stats, StatsOf({}, results)) == stats
  {
  }

  lemma NoneSorted(results: string -> Result)
    ensures Changes({}, results) == map[] && Broken({}, results) == {}
  {
  }

  lemma OneSorted(done: set<string>, path: string, results: string -> Result)
    ensures Changes(done + {path}, results) ==
            if results(path).Update? then Changes(done, results)[path := results(path).column]
              else Changes(done, results)
    ensures Broken(done + {path}, results) == if results(path).Corrupt? then Broken(done, results) + {path}
            else Broken(done, results)
  {
  }

  class Collection {
    var rows: seq<Row>

    /** Every row: sort its columns out one by one, then write all changes at once. */
    method ScanAndRewrite(c: Crypto, keys: Keys, mode: Mode, target: Target, apply: bool, nonces: nat -> string -> nat)
      returns (stats: Stats, corrupt: seq<set<string>>, rewritten: nat)
      modifies this
      ensures |corrupt| == |rows| == |old(rows)|
      ensures forall i | 0 <= i < |rows| ::
                rows[i] == if apply then Rewritten(c, keys, mode, target, old(rows)[i], nonces(i)) else old(rows)[i]
      ensures forall i | 0 <= i < |rows| :: corrupt[i] == CorruptOf(c, keys, mode, target, old(rows)[i], nonces(i))
      ensures rewritten == Writes(c, keys, mode, target, old(rows), nonces)
      ensures stats == TotalStats(c, keys, mode, target, old(rows), nonces)
    {
      hide *;
      ghost var before := rows;
      stats, corrupt, rewritten := Stats(0, 0, 0, 0), [], 0;
      assert before[..0] == [];
      NoWrites(c, keys, mode, target, nonces);
      for i := 0 to |rows|
        invariant |corrupt| == i && |rows| == |before| && forall j | i <= j < |rows| :: rows[j] == before[j]
        invariant forall j | 0 <= j < i ::
                  rows[j] == if apply then Rewritten(c, keys, mode, target, before[j], nonces(j)) else before[j]
        invariant forall j | 0 <= j < i :: corrupt[j] == CorruptOf(c, keys, mode, target, before[j], nonces(j))
        invariant rewritten == Writes(c, keys, mode, target, before[..i], nonces)
        invariant stats == TotalStats(c, keys, mode, target, before[..i], nonces)
      {
        var row := rows[i];
        RowParts(c, keys, mode, target, before, nonces, i);
        var update, broken;
        update, broken, stats := ScanRow(row.columns.Keys, Results(c, keys, mode, target, row, nonces(i)), stats);
        corrupt := corrupt + [broken];
        if update != map[] {
          rewritten := rewritten + 1;
          if apply {
            rows := rows[i := row.(columns := row.columns + update)];
          }
        }
      }
      assert before[..|before|] == before;
    }
  }

  lemma NoWrites(c: Crypto, keys: Keys, mode: Mode, target: Target, nonces: nat -> string -> nat)
    ensures Writes(c, keys, mode, target, [], nonces) == 0
    ensures TotalStats(c, keys, mode, target, [], nonces) == Stats(0, 0, 0, 0)
  {
  }

  lemma RowParts(c: Crypto, keys: Keys, mode: Mode, target: Target, rows: seq<Row>, nonces: nat -> string -> nat,
                 i: nat)
    requires i < |rows|
    ensures var update := Changes(rows[i].columns.Keys, Results(c, keys, mode, target, rows[i], nonces(i)));
            && Rewritten(c, keys, mode, target, rows[i], nonces(i)) == rows[i].(columns := rows[i].columns + update)
            && (update == map[] ==> Rewritten(c, keys, mode, target, rows[i], nonces(i)) == rows[i])
            && Writes(c, keys, mode, target, rows[..i + 1], nonces) ==
               Writes(c, keys, mode, target, rows[..i], nonces) + if update != map[] then 1 else 0
    ensures CorruptOf(c, keys, mode, target, rows[i], nonces(i)) ==
            Broken(rows[i].columns.Keys, Results(c, keys, mode, target, rows[i], nonces(i)))
    ensures TotalStats(c, keys, mode, target, rows[..i + 1], nonces) ==
            Sum(TotalStats(c, keys, mode, target, rows[..i], nonces),
                StatsOf(rows[i].columns.Keys, Results(c, keys, mode, target, rows[i], nonces(i))))
  {
    hide Changes;
    hide Broken;
    hide Results;
    hide StatsOf;
    hide Sum;
    assert rows[..i + 1][..i] == rows[..i];
    assert rows[i].columns + map[] == rows[i].columns;
  }

  // ---------------------------------------------------------------- what a run leaves in a column

  /** A column after the run is its update, or as it was. */
  lemma ColumnAfter(c: Crypto, keys: Keys, mode: Mode, target: Target, row: Row, nonces: string -> nat, path: string)
    requires path in row.columns
    ensures path in Rewritten(c, keys, mode, target, row, nonces).columns
    ensures var r := Resolve(c, keys, mode, target, row, path, nonces(path));
            Rewritten(c, keys, mode, target, row, nonces).columns[path] == if r.Update? then r.column
              else row.columns[path]
    ensures Rewritten(c, keys, mode, target, row, nonces).id == row.id
    ensures Rewritten(c, keys, mode, target, row, nonces).columns.Keys == row.columns.Keys
  {
    hide Resolve;
  }

  /** An encrypted value reads back as the plain text, except exactly when the plain text itself has the
      shape of a ciphertext: it is then stored as it is and can not be read as what it was. */
  lemma EncryptReads(c: Crypto, key: string, id: string, field: string, plain: string, nonce: nat)
    requires Sound(c)
    ensures Read(c, key, id, field, Encrypt(c, key, id, field, plain, nonce)) == Some(plain) <==> !Shaped(plain)
  {
    if Shaped(plain) {
      assert Encrypt(c, key, id, field, plain, nonce) == plain;
      assert c.dec(key, plain, id, field).Some? ==> |c.dec(key, plain, id, field).value| < |plain|;
    }
  }

  /** Such a text: it comes out of the program unencrypted, and no reader gets it back. */
  lemma LooksEncrypted(c: Crypto, key: string, id: string, field: string, nonce: nat)
    requires Sound(c)
    ensures var p := "enc.v2.AAAAAAAAAAAAAAAA.A";
            Encrypt(c, key, id, field, p, nonce) == p && Read(c, key, id, field, p) != Some(p)
  {
    var p := "enc.v2.AAAAAAAAAAAAAAAA.A";
    assert p[..7] == V2 && p[24..] == "A" && Unpadded("A") == "A";
    EncryptReads(c, key, id, field, p, nonce);
  }

  /** The keys stored with a column are those of the plain text under the current key, and where it has none to
      store, what was there. */
  ghost predicate KeysMatch(c: Crypto, keys: Keys, spec: Spec, before: Column, col: Column, plain: string) {
    && col.key == (if spec.hasKey then Some(c.searchKey(keys.current, plain)) else before.key)
    && col.grams == (if spec.hasGrams then Some(c.grams(keys.current, plain)) else before.grams)
  }

  /** A managed column that takes part in a full run or a rotation: what could be decrypted is now under the
      current key, as its normalised plain text and with that text's keys, written together; what could not
      is exactly as it was and is reported. */
  lemma FullColumn(c: Crypto, keys: Keys, mode: Mode, target: Target, row: Row, nonces: string -> nat, path: string)
    requires Sound(c) && !mode.KeysOnly? && path in row.columns && path in target.fields
    requires row.columns[path].stored != "" && (mode.Rotate? || !StartsWith(row.columns[path].stored, V2))
    ensures var after := Rewritten(c, keys, mode, target, row, nonces).columns;
            var spec, before := target.fields[path], row.columns[path];
            path in after &&
            match PlaintextOf(c, keys, mode, row.id, path, spec, before.stored)
            case None => after[path] == before && path in CorruptOf(c, keys, mode, target, row, nonces)
            case Some(plain) =>
              && (Read(c, keys.current, row.id, path, after[path].stored) == Some(plain) <==> !Shaped(plain))
              && KeysMatch(c, keys, spec, before, after[path], plain)
              && (!Shaped(plain) && plain != "" ==> StartsWith(after[path].stored, V2))
              && (Shaped(plain) || plain == "" ==> after[path].stored == plain)
  {
    hide Shaped;
    hide PlaintextOf;
    ColumnAfter(c, keys, mode, target, row, nonces, path);
    var spec, before := target.fields[path], row.columns[path];
    match PlaintextOf(c, keys, mode, row.id, path, spec, before.stored)
    case None =>
    case Some(plain) => EncryptReads(c, keys.current, row.id, path, plain, nonces(path));
  }

  /** A run for keys alone leaves every managed column's value as it was; what can be decrypted and has keys
      to fill has matching ones. */
  lemma KeysOnlyColumn(c: Crypto, keys: Keys, target: Target, row: Row, nonces: string -> nat, path: string)
    requires path in row.columns && path in target.fields
    ensures var after := Rewritten(c, keys, KeysOnly, target, row, nonces).columns;
            var spec, before := target.fields[path], row.columns[path];
            && path in after && after[path].stored == before.stored
            && (before.stored != "" ==>
                  match PlaintextOf(c, keys, KeysOnly, row.id, path, spec, before.stored)
                  case None => after[path] == before
                  case Some(plain) => KeysMatch(c, keys, spec, before, after[path], plain))
  {
    hide PlaintextOf;
    ColumnAfter(c, keys, KeysOnly, target, row, nonces, path);
  }

  /** A column that is to be plain, in every mode: without a cipher prefix it is as it was, an old text that
      the current key opens is its plain text again, and anything else is as it was and reported. */
  lemma HealColumn(c: Crypto, keys: Keys, mode: Mode, target: Target, row: Row, nonces: string -> nat, path: string)
    requires path in row.columns && path in target.selfHeal && path !in target.fields
    ensures var before, corrupt := row.columns[path], CorruptOf(c, keys, mode, target, row, nonces);
            var after := Rewritten(c, keys, mode, target, row, nonces).columns;
            path in after &&
            if !StartsWith(before.stored, "enc.v1.") && !StartsWith(before.stored, "enc.v2.") then
              after[path] == before && path !in corrupt
            else if StartsWith(before.stored, "enc.v1.") && c.dec(keys.current, before.stored, row.id, path).Some? then
              && after[path].stored == c.dec(keys.current, before.stored, row.id, path).value
              && after[path].key == before.key && after[path].grams == before.grams && path !in corrupt
            else after[path] == before && path in corrupt
  {
    OneVersion();
    hide StartsWith;
    ColumnAfter(c, keys, mode, target, row, nonces, path);
  }

  /** A managed column that has nothing to do is as it was: an empty one, and in a full run one that is
      encrypted in the new way already. */
  lemma SkippedColumn(c: Crypto, keys: Keys, mode: Mode, target: Target, row: Row, nonces: string -> nat, path: string)
    requires path in row.columns && path in target.fields
    requires row.columns[path].stored == "" || (mode.Full? && StartsWith(row.columns[path].stored, "enc.v2."))
    ensures var after := Rewritten(c, keys, mode, target, row, nonces).columns;
            path in after && after[path] == row.columns[path]
  {
    hide StartsWith;
    ColumnAfter(c, keys, mode, target, row, nonces, path);
  }

  /** Reported are exactly the texts with a cipher prefix that had to be opened, and were not: by the former key
      in a rotation, by the current key otherwise; and of the columns that are to be plain the new ones too. */
  lemma CorruptMeans(c: Crypto, keys: Keys, mode: Mode, target: Target, row: Row, nonces: string -> nat, path: string)
    ensures path in CorruptOf(c, keys, mode, target, row, nonces) <==>
            path in row.columns &&
            var stored := row.columns[path].stored;
            if path in target.fields then
              && (StartsWith(stored, "enc.v1.") || (StartsWith(stored, "enc.v2.") && !mode.Full?))
              && (mode.KeysOnly? ==> target.fields[path].hasKey || target.fields[path].hasGrams)
              && c.dec(if mode.Rotate? then keys.former else keys.current, stored, row.id, path).None?
            else
              && path in target.selfHeal && (StartsWith(stored, "enc.v1.") || StartsWith(stored, "enc.v2."))
              && (StartsWith(stored, "enc.v1.") ==> c.dec(keys.current, stored, row.id, path).None?)
  {
    OneVersion();
    PrefixedIsSome();
    hide StartsWith;
  }

  lemma PrefixedIsSome()
    ensures !StartsWith("", "enc.v1.") && !StartsWith("", "enc.v2.")
  {
  }

  /** What a managed column counts as. */
  lemma CountedMeans(c: Crypto, keys: Keys, mode: Mode, target: Target, row: Row, path: string, nonce: nat)
    requires path in row.columns
    ensures var r, stored := Resolve(c, keys, mode, target, row, path, nonce), row.columns[path].stored;
            var old1, old2 := StartsWith(stored, "enc.v1."), StartsWith(stored, "enc.v2.");
            var opens := c.dec(if mode.Rotate? then keys.former else keys.current, stored, row.id, path).Some?;
            && (r.Update? && r.kind == Backfill <==>
                  && path in target.fields && mode.KeysOnly? && stored != ""
                  && var plain := PlaintextOf(c, keys, mode, row.id, path, target.fields[path], stored);
                     plain.Some? && !KeysMatch(c, keys, target.fields[path], row.columns[path], row.columns[path],
                                               plain.value))
            && (r.Update? && r.kind == Upgrade <==> path in target.fields && mode.Full? && old1 && opens)
            && (r.Update? && r.kind == Encryption <==>
                  && path in target.fields && !mode.KeysOnly? && stored != ""
                  && ((!old1 && !old2) || (mode.Rotate? && opens)))
            && (r.SkipEncrypted? <==> path in target.fields && mode.Full? && old2)
  {
    OneVersion();
    PrefixedIsSome();
    hide StartsWith;
  }

  /** A column outside the target is left alone by every run. */
  lemma OtherColumn(c: Crypto, keys: Keys, mode: Mode, target: Target, row: Row, nonces: string -> nat, path: string)
    requires path in row.columns && path !in target.fields && path !in target.selfHeal
    ensures path in Rewritten(c, keys, mode, target, row, nonces).columns
    ensures Rewritten(c, keys, mode, target, row, nonces).columns[path] == row.columns[path]
  {
    ColumnAfter(c, keys, mode, target, row, nonces, path);
  }

  // ---------------------------------------------------------------- a second run

  /** A text that the next run takes for an old ciphertext and can open. */
  predicate Reopens(c: Crypto, key: string, id: string, field: string, s: string) {
    StartsWith(s, V1) && c.dec(key, s, id, field).Some?
  }

  /** A column that the run after this one writes again: its plain text, stored as it is, is itself an old
      ciphertext that the current key opens. */
  predicate Loops(c: Crypto, keys: Keys, mode: Mode, target: Target, row: Row, path: string)
    requires path in row.columns
  {
    var stored := row.columns[path].stored;
    if path in target.fields then
      && mode.Full? && stored != "" && !StartsWith(stored, V2)
      && var p := PlaintextOf(c, keys, mode, row.id, path, target.fields[path], stored);
         p.Some? && Shaped(p.value) && Reopens(c, keys.current, row.id, path, p.value)
    else
      && path in target.selfHeal && StartsWith(stored, V1)
      && var p := c.dec(keys.current, stored, row.id, path);
         p.Some? && Reopens(c, keys.current, row.id, path, p.value)
  }

  lemma FullTwiceColumn(c: Crypto, keys: Keys, target: Target, row: Row, path: string, n: nat, m: nat)
    requires Sound(c) && path in row.columns && path in target.fields
    ensures var r := ResolveFieldUpdate(c, keys, Full, row.id, path, target.fields[path], row.columns[path], n);
            var col := if r.Update? then r.column else row.columns[path];
            ResolveFieldUpdate(c, keys, Full, row.id, path, target.fields[path], col, m).Update? <==>
            Loops(c, keys, Full, target, row, path)
  {
    hide Shaped;
    ShapedIsCipher();
    OneVersion();
  }

  lemma ShapedIsCipher()
    ensures forall s :: Shaped(s) ==> IsCipher(s) && s != ""
  {
  }

  lemma OneVersion()
    ensures forall s :: StartsWith(s, V1) ==> !StartsWith(s, V2)
  {
    forall s | StartsWith(s, V1) ensures !StartsWith(s, V2) {
      assert s[..7][5] == '1' && V2[5] == '2';
    }
  }

  lemma KeysTwiceColumn(c: Crypto, keys: Keys, target: Target, row: Row, path: string, n: nat, m: nat)
    requires path in row.columns && path in target.fields
    ensures var r := ResolveFieldUpdate(c, keys, KeysOnly, row.id, path, target.fields[path], row.columns[path], n);
            var col := if r.Update? then r.column else row.columns[path];
            !ResolveFieldUpdate(c, keys, KeysOnly, row.id, path, target.fields[path], col, m).Update?
  {
    hide PlaintextOf;
  }

  lemma HealTwiceColumn(c: Crypto, keys: Keys, mode: Mode, target: Target, row: Row, path: string)
    requires path in row.columns && path !in target.fields && path in target.selfHeal
    ensures var r := ResolveSelfHeal(c, keys, row.id, path, row.columns[path]);
            ResolveSelfHeal(c, keys, row.id, path, if r.Update? then r.column else row.columns[path]).Update? <==>
            Loops(c, keys, mode, target, row, path)
  {
    OneVersion();
    hide StartsWith;
  }

  /** Without rotation, a second run of the same mode writes exactly the columns that loop. */
  lemma SecondRunWrites(c: Crypto, keys: Keys, mode: Mode, target: Target, row: Row, nonces: string -> nat,
                        later: string -> nat)
    requires Sound(c) && !mode.Rotate?
    ensures UpdateOf(c, keys, mode, target, Rewritten(c, keys, mode, target, row, nonces), later).Keys ==
            set path | path in row.columns && Loops(c, keys, mode, target, row, path)
  {
    hide ResolveFieldUpdate;
    hide ResolveSelfHeal;
    hide PlaintextOf;
    hide Shaped;
    hide Sound;
    hide Rewritten;
    var next := Rewritten(c, keys, mode, target, row, nonces);
    forall path | path in row.columns
      ensures Resolve(c, keys, mode, target, next, path, later(path)).Update? <==>
              Loops(c, keys, mode, target, row, path)
    {
      ColumnAfter(c, keys, mode, target, row, nonces, path);
      if path in target.fields {
        if mode.Full? {
          FullTwiceColumn(c, keys, target, row, path, nonces(path), later(path));
        } else {
          KeysTwiceColumn(c, keys, target, row, path, nonces(path), later(path));
        }
      } else if path in target.selfHeal {
        HealTwiceColumn(c, keys, mode, target, row, path);
      }
    }
    hide Loops;
    NoColumns(c, keys, mode, target, row, nonces);
  }

  lemma NoColumns(c: Crypto, keys: Keys, mode: Mode, target: Target, row: Row, nonces: string -> nat)
    ensures Rewritten(c, keys, mode, target, row, nonces).columns.Keys == row.columns.Keys
  {
    hide Resolve;
  }

  /** So a second run over the collection writes nothing if and only if no column of any row loops. */
  lemma SecondRunWritesNothing(c: Crypto, keys: Keys, mode: Mode, target: Target, rows: seq<Row>, next: seq<Row>,
                               nonces: nat -> string -> nat, later: nat -> string -> nat)
    requires Sound(c) && !mode.Rotate? && |next| == |rows|
    requires forall i | 0 <= i < |rows| :: next[i] == Rewritten(c, keys, mode, target, rows[i], nonces(i))
    ensures Writes(c, keys, mode, target, next, later) == 0 <==>
            forall i, path | 0 <= i < |rows| && path in rows[i].columns :: !Loops(c, keys, mode, target, rows[i], path)
  {
    hide *;
    NothingWritten(c, keys, mode, target, next, later);
    forall i | 0 <= i < |rows|
      ensures UpdateOf(c, keys, mode, target, next[i], later(i)) == map[] <==>
              forall path | path in rows[i].columns :: !Loops(c, keys, mode, target, rows[i], path)
    {
      SecondRunWrites(c, keys, mode, target, rows[i], nonces(i), later(i));
      var update := UpdateOf(c, keys, mode, target, next[i], later(i));
      assert update == map[] <==> update.Keys == {};
      assert forall path :: path in update.Keys <==>
                            path in rows[i].columns && Loops(c, keys, mode, target, rows[i], path);
    }
  }

  lemma {:induction false} NothingWritten(c: Crypto, keys: Keys, mode: Mode, target: Target, rows: seq<Row>,
                                          nonces: nat -> string -> nat)
    ensures Writes(c, keys, mode, target, rows, nonces) == 0 <==>
            forall i | 0 <= i < |rows| :: UpdateOf(c, keys, mode, target, rows[i], nonces(i)) == map[]
  {
    hide UpdateOf;
    if rows != [] {
      var init := rows[..|rows| - 1];
      NothingWritten(c, keys, mode, target, init, nonces);
      assert forall i | 0 <= i < |init| :: init[i] == rows[i];
    }
  }

  // ---------------------------------------------------------------- a row that is written twice

  /** A text in which the end can be seen. */
  function Marked(s: string): (t: string)
    ensures |t| == 2 * |s| + 1
  {
    if s == "" then "0" else ['1', s[0]] + Marked(s[1..])
  }

  lemma {:induction false} MarkedUnique(a: string, b: string, x: string, y: string)
    requires Marked(a) + x == Marked(b) + y
    ensures a == b && x == y
    decreases |a|
  {
    var s, t := Marked(a) + x, Marked(b) + y;
    assert s[0] == (if a == "" then '0' else '1') && t[0] == (if b == "" then '0' else '1');
    if a == "" {
      assert s[1..] == x && t[1..] == y;
    } else {
      assert s[1] == a[0] && t[1] == b[0];
      assert s[2..] == Marked(a[1..]) + x && t[2..] == Marked(b[1..]) + y;
      MarkedUnique(a[1..], b[1..], x, y);
      assert a == [a[0]] + a[1..] && b == [b[0]] + b[1..];
    }
  }

  function Place(key: string, id: string, field: string): string {
    V2 + (Marked(key) + (Marked(id) + Marked(field)))
  }

  function NormalEmail(s: string): string {
    Lower(Trim(s))
  }

  /** A cipher that hides nothing and keeps every law; it opens every old text. */
  function ClearCrypto(): Crypto {
    Crypto((k, id, f, p, n) => Place(k, id, f) + p,
           (k, s, id, f) =>
             if StartsWith(s, Place(k, id, f)) then Some(s[|Place(k, id, f)|..])
             else if StartsWith(s, V1) then Some("") else None,
           (k, p) => p, (k, p) => [p],
           NormalEmail)
  }

  lemma PlaceUnique(k: string, q: string, id: string, f: string, p: string)
    requires StartsWith(Place(k, id, f) + p, Place(q, id, f))
    ensures k == q
  {
    var s, rest := Place(k, id, f) + p, (Place(k, id, f) + p)[|Place(q, id, f)|..];
    assert s == Place(q, id, f) + rest;
    assert s[7..] == Marked(k) + (Marked(id) + Marked(f) + p);
    assert s[7..] == Marked(q) + (Marked(id) + Marked(f) + rest);
    MarkedUnique(k, q, Marked(id) + Marked(f) + p, Marked(id) + Marked(f) + rest);
  }

  lemma PlaceStarts(k: string, id: string, f: string, p: string)
    ensures StartsWith(Place(k, id, f) + p, V2) && !StartsWith(Place(k, id, f) + p, V1)
    ensures StartsWith(Place(k, id, f) + p, Place(k, id, f)) && (Place(k, id, f) + p)[|Place(k, id, f)|..] == p
  {
    var s := Place(k, id, f) + p;
    assert s[..7] == V2;
    OneVersion();
  }

  lemma OldIsNotHere(s: string, k: string, id: string, f: string)
    requires StartsWith(s, V1)
    ensures !StartsWith(s, Place(k, id, f))
  {
    var here := Place(k, id, f);
    assert s[..7][5] == '1' && here[..7] == V2 && here[5] == '2';
  }

  lemma ClearIsSound()
    ensures Sound(ClearCrypto())
  {
    var c := ClearCrypto();
    hide NormalEmail;
    hide Place;
    hide StartsWith;
    forall k, id, f, p, n ensures c.dec(k, c.enc(k, id, f, p, n), id, f) == Some(p)
      && StartsWith(c.enc(k, id, f, p, n), V2)
    {
      PlaceStarts(k, id, f, p);
    }
    forall k, q, id, f, p, n | k != q ensures c.dec(q, c.enc(k, id, f, p, n), id, f) == None {
      PlaceStarts(k, id, f, p);
      if StartsWith(Place(k, id, f) + p, Place(q, id, f)) { PlaceUnique(k, q, id, f, p); }
    }
    forall k, s, id, f | c.dec(k, s, id, f).Some? ensures |c.dec(k, s, id, f).value| < |s| {
      Shorter(k, s, id, f);
    }
  }

  lemma Shorter(k: string, s: string, id: string, f: string)
    requires ClearCrypto().dec(k, s, id, f).Some?
    ensures |ClearCrypto().dec(k, s, id, f).value| < |s|
  {
    hide NormalEmail;
  }

  /** What looks like an old ciphertext, and an address that is it with a space in front. */
  const OLD := "enc.v1.aaaaaaaaaaaaaaaa.a"
  const SPACED := " enc.v1.aaaaaaaaaaaaaaaa.a"

  lemma OldIsShaped()
    ensures Shaped(OLD) && StartsWith(OLD, V1) && !IsCipher(SPACED)
    ensures SPACED == [' '] + OLD && OLD[0] == 'e' && OLD[|OLD| - 1] == 'a'
  {
    assert OLD[..7] == V1 && OLD[24..] == "a" && Unpadded("a") == "a";
    assert SPACED[..7][0] == ' ' && V1[0] == 'e' && V2[0] == 'e';
  }

  lemma OldIsNormal()
    ensures NormalEmail(SPACED) == OLD
  {
    OldIsShaped();
    assert forall i | 0 <= i < |OLD| :: !('A' <= OLD[i] <= 'Z');
    hide Trim;
    hide Lower;
    TrimSpace(OLD);
    LowerAlready(OLD);
  }

  function AddressRow(): Row {
    Row("1", map["email" := Column(SPACED, None, None)])
  }

  const ADDRESSES := Target(map["email" := Spec(false, false, true)], {})

  /** The first run stores that address without the space, and the second opens that and writes again. */
  lemma WrittenTwice(nonces: string -> nat, later: string -> nat)
    ensures var c, keys := ClearCrypto(), Keys("k", "");
            && Sound(c)
            && "email" in UpdateOf(c, keys, Full, ADDRESSES, Rewritten(c, keys, Full, ADDRESSES, AddressRow(), nonces),
                                   later)
  {
    var c, keys := ClearCrypto(), Keys("k", "");
    ClearIsSound();
    AddressLoops();
    hide *;
    SecondRunWrites(c, keys, Full, ADDRESSES, AddressRow(), nonces, later);
    assert "email" in UpdateOf(c, keys, Full, ADDRESSES, Rewritten(c, keys, Full, ADDRESSES, AddressRow(), nonces),
                               later).Keys;
  }

  lemma AddressLoops()
    ensures "email" in AddressRow().columns
    ensures Loops(ClearCrypto(), Keys("k", ""), Full, ADDRESSES, AddressRow(), "email")
  {
    OldIsShaped();
    OldIsNotHere(OLD, "k", "1", "email");
    OldIsNormal();
    hide NormalEmail;
    hide Shaped;
    hide Place;
    hide StartsWith;
    assert ClearCrypto().normal(SPACED) == OLD;
    assert ClearCrypto().dec("k", OLD, "1", "email") == Some("");
  }

  /** A rotation run again leaves a row that was rotated as it is, and reports it: the former key no longer
      opens it. */
  lemma RotatedAgain(c: Crypto, keys: Keys, target: Target, row: Row, nonces: string -> nat, later: string -> nat,
                     path: string)
    requires Sound(c) && keys.current != keys.former && path in row.columns && path in target.fields
             && row.columns[path].stored != ""
    requires var p := PlaintextOf(c, keys, Rotate, row.id, path, target.fields[path], row.columns[path].stored);
             p.Some? && p.value != "" && !Shaped(p.value)
    ensures var next := Rewritten(c, keys, Rotate, target, row, nonces);
            && path in CorruptOf(c, keys, Rotate, target, next, later)
            && path in Rewritten(c, keys, Rotate, target, next, later).columns
            && Rewritten(c, keys, Rotate, target, next, later).columns[path] == next.columns[path]
  {
    hide Shaped;
    ColumnAfter(c, keys, Rotate, target, row, nonces, path);
    var next := Rewritten(c, keys, Rotate, target, row, nonces);
    ColumnAfter(c, keys, Rotate, target, next, later, path);
    RotatedText(c, keys, row.id, path, PlaintextOf(c, keys, Rotate, row.id, path, target.fields[path],
                                                   row.columns[path].stored).value, nonces(path));
  }

  lemma RotatedText(c: Crypto, keys: Keys, id: string, field: string, plain: string, nonce: nat)
    requires Sound(c) && keys.current != keys.former && plain != "" && !Shaped(plain)
    ensures var t := Encrypt(c, keys.current, id, field, plain, nonce);
            t != "" && Read(c, keys.former, id, field, t) == None
  {
    hide Shaped;
  }
}
