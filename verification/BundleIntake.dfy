/** Taking an offline bundle in: extract what the manifest names into a staging directory, verify, and make
    the bundle visible by one rename. */
module BundleIntake {
  import opened BundlePaths
  import opened Texts
  import opened Wrappers

  datatype Node = File(content: string) | Directory | Special

  /** An archive entry as listed; a directory's name can end in slashes. */
  datatype Entry = Entry(name: string, node: Node)

  /** A directory's contents by path below it. */
  type Tree = map<string, Node>

  /** One image of a manifest, with the checks that do not concern names settled. */
  datatype Image = Image(role: string, file: string, sound: bool)

  datatype Outcome =
    | Success | DryRun | NotSettled | SignatureFailed | ArchiveInvalid | TargetExists | ExtractFailed | VerifyFailed
      | PromoteFailed

  const MAX_ENTRIES: nat := 32
  const MANIFEST := "manifest.json"
  const REQUIRED: seq<string> := [MANIFEST, "manifest.sig", "SHA256SUMS"]
  const ROLES: set<string> := {"app"}

  function NormalizeEntry(name: string): string {
    if name != "" && name[|name| - 1] == SLASH then NormalizeEntry(name[..|name| - 1]) else name
  }

  predicate Listed(entries: seq<Entry>, name: string) {
    exists i | 0 <= i < |entries| :: NormalizeEntry(entries[i].name) == name
  }

  /** The archive's listing passes: few enough entries, plain files and directories only, safe names, and
      the fixed files there. */
  predicate ListingOk(entries: seq<Entry>) {
    && 0 < |entries| <= MAX_ENTRIES
    && (forall i | 0 <= i < |entries| ::
        !entries[i].node.Special? && AssertSafeRelativePath(NormalizeEntry(entries[i].name)).Some?)
    && (forall k | 0 <= k < |REQUIRED| :: Listed(entries, REQUIRED[k]))
  }

  /** The name without the slashes at its end. */
  lemma {:induction false} NormalizeMeans(name: string, n: string)
    ensures NormalizeEntry(name) == n <==>
            StartsWith(name, n) && (n == "" || n[|n| - 1] != '/') && forall i | |n| <= i < |name| :: name[i] == '/'
  {
    if name != "" && name[|name| - 1] == '/' {
      var shorter := name[..|name| - 1];
      NormalizeMeans(shorter, n);
      assert |n| < |name| ==> name[..|n|] == shorter[..|n|];
      if StartsWith(name, n) && |n| == |name| { assert n == name; }
    } else {
      if StartsWith(name, n) && |n| < |name| { assert name[|name| - 1] != '/'; }
      if StartsWith(name, n) && |n| == |name| { assert n == name; }
      assert name[..|name|] == name;
    }
  }

  ghost predicate Has(entries: seq<Entry>, name: string) {
    exists e :: e in entries && NormalizeEntry(e.name) == name
  }

  lemma HasListed(entries: seq<Entry>)
    ensures forall name :: Listed(entries, name) <==> Has(entries, name)
  {
    hide NormalizeEntry;
    forall name ensures Listed(entries, name) <==> Has(entries, name) {
      if e :| e in entries && NormalizeEntry(e.name) == name {
        var i :| 0 <= i < |entries| && entries[i] == e;
      }
    }
  }

  /** What of an archive is accepted before anything is extracted. */
  lemma ListingMeans(entries: seq<Entry>)
    ensures ListingOk(entries) <==>
            && entries != [] && |entries| <= 32
            && (forall e | e in entries :: !e.node.Special? && AssertSafeRelativePath(NormalizeEntry(e.name)).Some?)
            && Has(entries, "manifest.json") && Has(entries, "manifest.sig") && Has(entries, "SHA256SUMS")
  {
    hide NormalizeEntry;
    hide AssertSafeRelativePath;
    HasListed(entries);
    assert REQUIRED[0] == "manifest.json" && REQUIRED[1] == "manifest.sig" && REQUIRED[2] == "SHA256SUMS";
  }

  // ---------------------------------------------------------------- the manifest

  predicate IsTar(file: string) {
    |file| >= 4 && file[|file| - 4..] == ".tar"
  }

  predicate ImageOk(m: Image) {
    m.sound && m.role in ROLES && AssertSafeRelativePath(m.file).Some? && IsTar(AssertSafeRelativePath(m.file).value)
  }

  /** An image passes when everything but its names does, its role is the application's, and its file is a path
      that is safe in a bundle and ends in the suffix of an image archive. */
  lemma ImageMeans(m: Image)
    ensures ImageOk(m) <==>
            m.sound && m.role == "app" &&
            exists stem :: AssertSafeRelativePath(m.file) == Some(stem + ".tar")
  {
    hide AssertSafeRelativePath;
    if ImageOk(m) {
      var v := AssertSafeRelativePath(m.file).value;
      assert v == v[..|v| - 4] + ".tar";
    }
    if stem :| AssertSafeRelativePath(m.file) == Some(stem + ".tar") {
      assert (stem + ".tar")[|stem|..] == ".tar";
    }
  }

  function FileOf(m: Image): string {
    match AssertSafeRelativePath(m.file) case Some(v) => v case None => ""
  }

  function Roles(images: seq<Image>): (r: seq<string>)
    ensures |r| == |images| && forall i | 0 <= i < |r| :: r[i] == images[i].role
  {
    seq(|images|, i requires 0 <= i < |images| => images[i].role)
  }

  function Files(images: seq<Image>): (r: seq<string>)
    ensures |r| == |images| && forall i | 0 <= i < |r| :: r[i] == FileOf(images[i])
  {
    seq(|images|, i requires 0 <= i < |images| => FileOf(images[i]))
  }

  /** Image k passes, and neither its role nor its file was declared before. */
  ghost predicate Fresh(images: seq<Image>, k: nat)
    requires k < |images|
  {
    ImageOk(images[k]) && images[k].role !in Roles(images[..k]) && FileOf(images[k]) !in Files(images[..k])
  }

  /** There are images, and every one passes: no role and no file is declared twice. */
  ghost predicate ImagesOk(images: seq<Image>) {
    images != [] && forall k: nat | k < |images| :: Fresh(images, k)
  }

  lemma DeclaredNext(images: seq<Image>, k: nat)
    requires k < |images|
    ensures Roles(images[..k + 1]) == Roles(images[..k]) + [images[k].role]
    ensures Files(images[..k + 1]) == Files(images[..k]) + [FileOf(images[k])]
  {
    hide FileOf;
  }

  lemma NotFresh(images: seq<Image>, k: nat)
    requires k < |images| && !Fresh(images, k)
    ensures !ImagesOk(images)
  {
    hide Fresh;
  }

  /** The declared files, or a refusal at the first image that does not pass. */
  method ParseImages(images: seq<Image>) returns (files: Option<seq<string>>)
    ensures files.Some? <==> ImagesOk(images)
    ensures files.Some? ==> files.value == Files(images)
  {
    hide ImageOk;
    hide FileOf;
    hide Roles;
    hide Files;
    if images == [] { return None; }
    var seenRoles: set<string>, seenFiles: set<string> := {}, {};
    var out: seq<string> := [];
    assert images[..0] == [] && Files([]) == [] && Roles([]) == [];
    for k := 0 to |images|
      invariant out == Files(images[..k])
      invariant seenRoles == (set r | r in Roles(images[..k])) && seenFiles == (set f | f in Files(images[..k]))
      invariant forall i: nat | i < k :: Fresh(images, i)
    {
      var m := images[k];
      if !ImageOk(m) || m.role in seenRoles || FileOf(m) in seenFiles {
        NotFresh(images, k);
        return None;
      }
      DeclaredNext(images, k);
      seenRoles, seenFiles := seenRoles + {m.role}, seenFiles + {FileOf(m)};
      out := out + [FileOf(m)];
    }
    assert images[..|images|] == images;
    files := Some(out);
  }

  // ---------------------------------------------------------------- extraction

  /** Extracting a member takes the entry of that name and, for a directory, everything below it. */
  predicate Takes(member: string, name: string) {
    name == member || StartsWith(name, member + [SLASH])
  }

  /** What the archive has under a name; the last entry wins. */
  function NodeAt(entries: seq<Entry>, p: string): Option<Node> {
    if entries == [] then None
    else if NormalizeEntry(entries[|entries| - 1].name) == p then Some(entries[|entries| - 1].node)
    else NodeAt(entries[..|entries| - 1], p)
  }

  predicate Taken(members: seq<string>, name: string) {
    exists k | 0 <= k < |members| :: Takes(members[k], name)
  }

  function Extracted(entries: seq<Entry>, members: seq<string>): (t: Tree)
    ensures forall p :: p in t <==> Taken(members, p) && NodeAt(entries, p).Some?
    ensures forall p | p in t :: NodeAt(entries, p) == Some(t[p])
  {
    if entries == [] then map[]
    else
      var e := entries[|entries| - 1];
      var before := Extracted(entries[..|entries| - 1], members);
      if Taken(members, NormalizeEntry(e.name)) then before[NormalizeEntry(e.name) := e.node] else before
  }

  /** What is extracted: the named members and what lies below them, each as the last entry of its name has it. */
  lemma ExtractedMeans(entries: seq<Entry>, members: seq<string>, p: string, n: Node)
    ensures p in Extracted(entries, members) && Extracted(entries, members)[p] == n <==>
            && (p in members || exists m, rest :: m in members && p == m + "/" + rest)
            && exists k: nat :: LastEntry(entries, p, k) && entries[k].node == n
  {
    hide Extracted;
    TakenMeans(members, p);
    NodeAtMeans(entries, p, n);
    hide NodeAt;
    hide Taken;
    hide LastEntry;
  }

  ghost predicate LastEntry(entries: seq<Entry>, p: string, k: nat) {
    && k < |entries| && NormalizeEntry(entries[k].name) == p
    && forall i | k < i < |entries| :: NormalizeEntry(entries[i].name) != p
  }

  lemma TakenMeans(members: seq<string>, p: string)
    ensures Taken(members, p) <==> p in members || exists m, rest :: m in members && p == m + "/" + rest
  {
    if Taken(members, p) {
      var k :| 0 <= k < |members| && Takes(members[k], p);
      if p != members[k] {
        var m := members[k];
        assert p == p[..|m| + 1] + p[|m| + 1..] && p[..|m| + 1] == m + "/";
        assert m in members && p == m + "/" + p[|m| + 1..];
      }
    }
    if p in members {
      var k :| 0 <= k < |members| && members[k] == p;
      assert Takes(members[k], p);
    }
    if m, rest :| m in members && p == m + "/" + rest {
      var k :| 0 <= k < |members| && members[k] == m;
      assert p[..|m| + 1] == m + "/" && Takes(members[k], p);
    }
  }

  lemma {:induction false} NodeAtMeans(entries: seq<Entry>, p: string, n: Node)
    ensures NodeAt(entries, p) == Some(n) <==> exists k: nat :: LastEntry(entries, p, k) && entries[k].node == n
  {
    hide NormalizeEntry;
    if entries != [] {
      var last := |entries| - 1;
      NodeAtMeans(entries[..last], p, n);
      if NormalizeEntry(entries[last].name) == p {
        assert LastEntry(entries, p, last);
        assert forall k | LastEntry(entries, p, k) :: k == last;
      } else {
        forall k: nat ensures LastEntry(entries, p, k) <==> LastEntry(entries[..last], p, k) {
          if LastEntry(entries[..last], p, k) {
            assert forall i | k < i < last :: entries[..last][i] == entries[i];
          }
        }
      }
    }
  }

  /** No file stands where a directory is needed. */
  predicate NoFileAbove(t: Tree) {
    forall p, q | p in t && q in t && t[p].File? :: !StartsWith(q, p + [SLASH])
  }

  /** What a bundle that was taken in holds: exactly the fixed files and the declared ones, each a plain file as
      in the archive. */
  ghost predicate JustNamed(t: Tree, entries: seq<Entry>, files: seq<string>) {
    && (forall p :: p in t <==> p in REQUIRED || p in files)
    && (forall p | p in t :: t[p].File? && NodeAt(entries, p) == Some(t[p]))
  }

  lemma StagedIsNamed(first: Tree, tree: Tree, entries: seq<Entry>, files: seq<string>)
    requires first == Extracted(entries, [MANIFEST]) && tree == first + Extracted(entries, REQUIRED + files)
    requires NoFileAbove(tree) && forall k | 0 <= k < |REQUIRED + files| ::
             (REQUIRED + files)[k] in tree && tree[(REQUIRED + files)[k]].File?
    requires MANIFEST in first
    ensures JustNamed(tree, entries, files) && MANIFEST in tree && tree[MANIFEST] == first[MANIFEST]
  {
    hide StartsWith;
    var members := REQUIRED + files;
    assert members[0] == MANIFEST;
    forall p | p in tree ensures p in members {
      if p in first {
        var k :| 0 <= k < |[MANIFEST]| && Takes([MANIFEST][k], p);
        assert members[0] in tree;
      } else {
        var k :| 0 <= k < |members| && Takes(members[k], p);
        assert members[k] in tree;
      }
    }
    forall p | p in members ensures p in tree && tree[p].File? {
      var k :| 0 <= k < |members| && members[k] == p;
      assert members[k] in tree;
    }
    forall p | p in tree ensures NodeAt(entries, p) == Some(tree[p]) {
    }
  }

  /** Every member is there as a plain file, and no file stands in the way of another. */
  ghost predicate LandsWell(t: Tree, members: seq<string>) {
    NoFileAbove(t) && forall k | 0 <= k < |members| :: members[k] in t && t[members[k]].File?
  }

  // ---------------------------------------------------------------- the bundle root

  /** The importer's checks on a bundle directory, and the manifest's images. */
  datatype Checks = Checks(importer: Tree -> bool, images: string -> Option<seq<Image>>)

  /** What an intake meets: whether the archive can be read, has settled and is signed well, whether its tools do
      what they are asked to, and what a failed extraction leaves. */
  datatype World = World(readable: bool, settled: bool, signed: bool, first: bool, second: bool, hardened: bool,
                         renamed: bool, consumed: bool, left: Tree)

  /** The files that the archive's own manifest declares, if it lands and passes. */
  ghost function Declared(c: Checks, entries: seq<Entry>): Option<seq<string>> {
    var t := Extracted(entries, [MANIFEST]);
    if !LandsWell(t, [MANIFEST]) then None
    else
      assert [MANIFEST][0] in t;
      match c.images(t[MANIFEST].content)
      case None => None
      case Some(images) => if ImagesOk(images) then Some(Files(images)) else None
  }

  /** What both extractions together leave. */
  ghost function Complete(entries: seq<Entry>, files: seq<string>): Tree {
    Extracted(entries, [MANIFEST]) + Extracted(entries, REQUIRED + files)
  }

  ghost predicate AllListed(entries: seq<Entry>, files: seq<string>) {
    forall f | f in files :: Has(entries, f)
  }

  lemma AllListedMeans(entries: seq<Entry>, files: seq<string>)
    ensures AllListed(entries, files) <==> !exists k | 0 <= k < |files| :: !Listed(entries, files[k])
  {
    HasListed(entries);
    hide Has;
    hide Listed;
    assert forall k | 0 <= k < |files| :: files[k] in files;
  }

  /** The archive's manifest passes and all it declares is listed. */
  ghost predicate Sorted(c: Checks, entries: seq<Entry>) {
    Declared(c, entries).Some? && AllListed(entries, Declared(c, entries).value)
  }

  /** And lands. */
  ghost predicate Lands(c: Checks, entries: seq<Entry>) {
    && Sorted(c, entries)
    && LandsWell(Complete(entries, Declared(c, entries).value), REQUIRED + Declared(c, entries).value)
  }

  /** And the importer passes it. */
  ghost predicate Passes(c: Checks, entries: seq<Entry>) {
    Lands(c, entries) && c.importer(Complete(entries, Declared(c, entries).value))
  }

  class Root {
    /** The bundles in sight, by directory name. */
    var bundles: map<string, Tree>
    /** The staging directory, whose name no scan looks at. */
    var staging: Option<Tree>
    var inbox: set<string>
    /** Everything the bundles in sight have ever been. */
    ghost var shown: seq<map<string, Tree>>

    /** Extract the members into the staging directory and look at each where it landed. */
    method ExtractNamedMembers(entries: seq<Entry>, members: seq<string>, done: bool, left: Tree) returns (ok: bool)
      requires members != []
      modifies `staging
      ensures staging.Some?
      ensures var tree := (if old(staging).Some? then old(staging).value else map[]) + Extracted(entries, members);
              (ok <==> done && LandsWell(tree, members)) && (ok ==> staging.value == tree)
    {
      hide *;
      var tree := (if staging.Some? then staging.value else map[]) + Extracted(entries, members);
      LandsWellMeans(tree, members);
      if !done || !NoFileAbove(tree) {
        staging := Some(left);
        return false;
      }
      staging := Some(tree);
      for k := 0 to |members|
        invariant forall i | 0 <= i < k :: members[i] in tree && tree[members[i]].File?
      {
        if members[k] !in tree || !tree[members[k]].File? { return false; }
      }
      ok := true;
    }

    method Cleanup()
      modifies `staging
      ensures staging.None?
    {
      staging := None;
    }

    /** Two extractions, the second of exactly what the first one's manifest names, and the importer's
        checks on the result. */
    method ExtractAndVerify(c: Checks, dirName: string, entries: seq<Entry>, w: World)
      returns (r: Outcome, files: seq<string>)
      requires staging.None?
      modifies `staging
      ensures r.Success? || r.TargetExists? || r.ExtractFailed? || r.ArchiveInvalid? || r.VerifyFailed?
      ensures !r.Success? ==> staging.None?
      ensures r.TargetExists? <==> dirName in bundles
      ensures r.ArchiveInvalid? <==>
                dirName !in bundles && w.first && Declared(c, entries).Some? && !Sorted(c, entries)
      ensures r.Success? || r.VerifyFailed? <==>
                dirName !in bundles && w.first && w.second && w.hardened && Lands(c, entries)
      ensures r.Success? ==> Passes(c, entries)
      ensures r.VerifyFailed? ==> !Passes(c, entries)
      ensures r.Success? ==> staging.Some? && Vetted(c, entries, staging.value)
    {
      hide Extracted;
      hide NoFileAbove;
      hide AssertSafeRelativePath;
      hide AllListed;
      hide ImagesOk;
      files := [];
      if dirName in bundles { return TargetExists, files; }
      assert [MANIFEST][0] == MANIFEST && map[] + Extracted(entries, [MANIFEST]) == Extracted(entries, [MANIFEST]);
      var ok := ExtractNamedMembers(entries, [MANIFEST], w.first, w.left);
      if !ok { Cleanup(); return ExtractFailed, files; }
      ghost var first := staging.value;
      var images := c.images(staging.value[MANIFEST].content);
      if images.None? { Cleanup(); return ExtractFailed, files; }
      var parsed := ParseImages(images.value);
      if parsed.None? { Cleanup(); return ExtractFailed, files; }
      files := parsed.value;
      AllListedMeans(entries, files);
      if exists k | 0 <= k < |files| :: !Listed(entries, files[k]) {
        Cleanup();
        return ArchiveInvalid, files;
      }
      var members := REQUIRED + files;
      ok := ExtractNamedMembers(entries, members, w.second, w.left);
      if !ok { Cleanup(); return ExtractFailed, files; }
      if !w.hardened { Cleanup(); return ExtractFailed, files; }
      StagedIsNamed(first, staging.value, entries, files);
      if !c.importer(staging.value) { Cleanup(); return VerifyFailed, files; }
      r := Success;
    }

    /** The one rename that makes a bundle visible. */
    method Promote(dirName: string, renamed: bool) returns (ok: bool)
      requires staging.Some?
      modifies `bundles, `staging, `shown
      ensures ok == renamed
      ensures ok ==>
                && bundles == old(bundles)[dirName := old(staging).value] && staging.None?
                && shown == old(shown) + [bundles]
      ensures !ok ==> bundles == old(bundles) && staging == old(staging) && shown == old(shown)
    {
      ok := renamed;
      if ok {
        bundles, staging := bundles[dirName := staging.value], None;
        shown := shown + [bundles];
      }
    }

    /** One archive, from its checks to its bundle. Whatever fails on the way is cleaned up; each outcome has just
        one reason, the first that there is. */
    method IntakeOne(c: Checks, archive: string, dirName: string, entries: seq<Entry>, apply: bool, w: World)
      returns (r: Outcome)
      requires staging.None?
      modifies this
      ensures staging.None?
      ensures !r.Success? ==> bundles == old(bundles) && shown == old(shown) && inbox == old(inbox)
      ensures r.Success? ==>
                && apply && dirName !in old(bundles) && dirName in bundles
                && bundles == old(bundles)[dirName := bundles[dirName]]
                && inbox == if w.consumed then old(inbox) - {archive} else old(inbox)
      ensures r.Success? ==>
                ListingOk(entries) && Vetted(c, entries, bundles[dirName]) && shown == old(shown) + [bundles]
      ensures r.NotSettled? <==> w.readable && !w.settled
      ensures r.SignatureFailed? <==> w.readable && w.settled && !w.signed
      ensures r.DryRun? <==> Admitted(entries, w) && !apply
      ensures r.TargetExists? <==> Admitted(entries, w) && apply && dirName in old(bundles)
      ensures r.ArchiveInvalid? <==>
                || !w.readable || (w.settled && w.signed && !ListingOk(entries))
                || (Admitted(entries, w) && apply && dirName !in old(bundles) && w.first && Declared(c, entries).Some?
                    && !Sorted(c, entries))
      ensures r.Success? || r.PromoteFailed? || r.VerifyFailed? <==>
                && Admitted(entries, w) && apply && dirName !in old(bundles)
                && w.first && w.second && w.hardened && Lands(c, entries)
      ensures r.Success? ==> Passes(c, entries) && w.renamed
      ensures r.PromoteFailed? ==> Passes(c, entries) && !w.renamed
      ensures r.VerifyFailed? ==> !Passes(c, entries)
    {
      hide *;
      AdmittedMeans(entries, w);
      if !w.readable { return ArchiveInvalid; }
      if !w.settled { return NotSettled; }
      if !w.signed { return SignatureFailed; }
      if !ListingOk(entries) { return ArchiveInvalid; }
      if !apply { return DryRun; }
      var files;
      r, files := ExtractAndVerify(c, dirName, entries, w);
      if !r.Success? { return; }
      var promoted := Promote(dirName, w.renamed);
      if !promoted {
        Cleanup();
        return PromoteFailed;
      }
      if w.consumed { inbox := inbox - {archive}; }
      r := Success;
    }
  }

  /** An archive that is looked into. */
  ghost predicate Admitted(entries: seq<Entry>, w: World) {
    w.readable && w.settled && w.signed && ListingOk(entries)
  }

  lemma AdmittedMeans(entries: seq<Entry>, w: World)
    ensures Admitted(entries, w) <==> w.readable && w.settled && w.signed && ListingOk(entries)
  {
  }

  lemma LandsWellMeans(t: Tree, members: seq<string>)
    ensures LandsWell(t, members) <==>
            NoFileAbove(t) && forall k | 0 <= k < |members| :: members[k] in t && t[members[k]].File?
  {
  }

  /** A tree that may become visible: it holds just the files its own manifest names, with the fixed ones,
      and the importer passes it. */
  ghost predicate Vetted(c: Checks, entries: seq<Entry>, t: Tree) {
    && c.importer(t)
    && MANIFEST in t && t[MANIFEST].File?
    && var images := c.images(t[MANIFEST].content);
       images.Some? && ImagesOk(images.value)
       && JustNamed(t, entries, Files(images.value))
  }
}
