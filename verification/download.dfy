/** `downloadRepository`: resolve the ref, download the archive, stage it in
    the destination, and lift the content of its single top-level folder
    into the destination. */
module Download {
  import opened Wrappers
  import opened Errors
  import opened Refs
  import opened DefaultBranch
  import opened Archive
  import opened FileSystem

  /** How a download ended, with the filesystem as it was left: a failure
      rolls nothing back. */
  datatype Outcome = Succeeded(fs: FS) | Failed(error: Error, fs: FS)

  /** The archive file name: `.tar.gz` on every platform, zip downloads included. */
  function ArchiveFileName(id: Name): (n: Name)
    ensures n != id
  {
    id + ".tar.gz"
  }

  /** Copy on Windows, move elsewhere. */
  function ModeFor(platform: Platform): (m: Mode)
    ensures m == Copy <==> platform == Windows
  {
    if platform == Windows then Copy else Move
  }

  /** Nothing exists at or below the two scratch paths a fresh id names. */
  predicate Fresh(fs: FS, dest: Path, id: Name)
  {
    forall q :: q in fs ==> !(dest + [id] <= q) && !(dest + [ArchiveFileName(id)] <= q)
  }

  /** The default branch is looked up only when neither a ref nor a commit
      was given; otherwise the ref is kept as it is. */
  function ResolveRef(ref: string, commit: string, repo: string, lookup: LookupOutcome): (r: Result<string, Error>)
    ensures ref != "" || commit != "" ==> r == Success(ref)
    ensures ref == "" && commit == "" ==> r == GetDefaultBranch(lookup, repo)
    ensures r.Success? ==> TargetRef(r.value, commit) != ""
  {
    if ref == "" && commit == "" then GetDefaultBranch(lookup, repo) else Success(ref)
  }

  /** The element of a one-element set. */
  function TheOnly(s: set<Name>): (x: Name)
    requires |s| == 1
    ensures s == {x}
  {
    var x :| x in s;
    assert s == {x} by {
      assert |s - {x}| == 0;
    }
    x
  }

  /** Two different entries of one directory share no path. */
  lemma {:induction false} SiblingsDisjoint(dir: Path, a: Name, b: Name, q: Path)
    requires a != b
    ensures !(dir + [a] <= q && dir + [b] <= q)
  {
    if dir + [a] <= q {
      assert q[|dir|] == (dir + [a])[|dir|] == a;
    }
  }

  /** Staging seen at one path `q` that is not below both the scratch
      directory and the archive file. */
  lemma UnpackedAt(fs: FS, scratch: Path, archive: Path, tree: FS, q: Path)
    requires !(scratch <= q && archive <= q)
    ensures var r := RemoveTree(Graft(fs[scratch := Directory], scratch, tree), archive);
            && (q == scratch ==> q in r && r[q] == Directory)
            && (scratch < q ==> (q in r <==> q in fs || q[|scratch|..] in tree))
            && (scratch < q && q in r && q[|scratch|..] in tree ==> r[q] == tree[q[|scratch|..]])
            && (!(scratch <= q) && q in r ==> q in fs && r[q] == fs[q])
            && (!(scratch <= q) && q in fs && !(archive <= q) ==> q in r)
  {
  }

  /** What staging leaves behind: `dest/<id>` holding the unpacked tree,
      the archive file gone, everything else as it was. */
  function Unpacked(fs: FS, dest: Path, id: Name, tree: FS): (r: FS)
    ensures IsDir(r, dest + [id]) && dest + [ArchiveFileName(id)] !in r
    ensures forall q :: dest + [id] < q ==> (q in r <==> q in fs || q[|dest| + 1..] in tree)
    ensures forall q :: q in r && dest + [id] < q && q[|dest| + 1..] in tree ==> r[q] == tree[q[|dest| + 1..]]
    ensures forall q :: q in r && !(dest + [id] <= q) ==> q in fs && r[q] == fs[q]
    ensures forall q :: q in fs && !(dest + [id] <= q) && !(dest + [ArchiveFileName(id)] <= q) ==> q in r
  {
    var scratch := dest + [id];
    var archive := dest + [ArchiveFileName(id)];
    var r := RemoveTree(Graft(fs[scratch := Directory], scratch, tree), archive);
    forall q
      ensures q == scratch ==> q in r && r[q] == Directory
      ensures scratch < q ==> (q in r <==> q in fs || q[|dest| + 1..] in tree)
      ensures scratch < q && q in r && q[|dest| + 1..] in tree ==> r[q] == tree[q[|dest| + 1..]]
      ensures !(scratch <= q) && q in r ==> q in fs && r[q] == fs[q]
      ensures !(scratch <= q) && q in fs && !(archive <= q) ==> q in r
    {
      SiblingsDisjoint(dest, id, ArchiveFileName(id), q);
      UnpackedAt(fs, scratch, archive, tree, q);
    }
    r
  }

  /** The archive's content never survives staging: writing it first and
      removing it later leaves the same filesystem as never writing it. */
  lemma ArchiveLeavesNoTrace(fs: FS, dest: Path, id: Name, data: Bytes, tree: FS)
    ensures var scratch := dest + [id];
            var archive := dest + [ArchiveFileName(id)];
            RemoveTree(Graft(fs[archive := File(data)][scratch := Directory], scratch, tree), archive)
            == RemoveTree(Graft(fs[scratch := Directory], scratch, tree), archive)
  {
    var scratch := dest + [id];
    var archive := dest + [ArchiveFileName(id)];
    var made1 := fs[archive := File(data)][scratch := Directory];
    var made2 := fs[scratch := Directory];
    assert made1 == made2[archive := File(data)] by {
      SiblingsDisjoint(dest, id, ArchiveFileName(id), archive);
    }
    RemoveAfterGraft(made2, archive, File(data), scratch, tree);
  }

  /** Write the archive to the file `archive`, create the sibling directory
      `scratch`, extract the archive there and delete the archive file. */
  function StageAt(fs: FS, archive: Path, scratch: Path, data: Bytes, tree: FS): (out: Outcome)
    requires archive != [] && scratch != [] && archive != scratch
    requires Parent(archive) == Parent(scratch)
    ensures out.Succeeded? <==>
              && IsDir(fs, Parent(archive))
              && !IsDir(fs, archive)
              && !(scratch in fs && fs[scratch].File?)
    ensures out.Failed? && !IsDir(fs, Parent(archive)) ==> out.fs == fs
    ensures out.Succeeded? ==> out.fs == RemoveTree(Graft(fs[archive := File(data)][scratch := Directory], scratch, tree), archive)
  {
    match WriteFile(fs, archive, data)
    case Failure(e) => Failed(e, fs)
    case Success(written) =>
      if scratch in fs && fs[scratch].File? then
        Failed(NotADirectory(scratch), written)
      else
        MakeChildDirectory(written, scratch);
        var made := written[scratch := Directory];
        match Extract(made, archive, scratch, tree)
        case Failure(e) => Failed(e, made)
        case Success(extracted) => Succeeded(RemoveTree(extracted, archive))
  }

  /** Write the archive to `dest/<id>.tar.gz`, create `dest/<id>`, extract
      the archive there and delete the archive file. */
  function Stage(fs: FS, dest: Path, id: Name, data: Bytes, tree: FS): (out: Outcome)
    ensures out.Succeeded? <==>
              && IsDir(fs, dest)
              && !IsDir(fs, dest + [ArchiveFileName(id)])
              && !(dest + [id] in fs && fs[dest + [id]].File?)
    ensures out.Failed? && !IsDir(fs, dest) ==> out.fs == fs
    ensures out.Succeeded? ==> out.fs == Unpacked(fs, dest, id, tree)
  {
    var archive := dest + [ArchiveFileName(id)];
    var scratch := dest + [id];
    assert Parent(archive) == dest && Parent(scratch) == dest;
    ArchiveLeavesNoTrace(fs, dest, id, data, tree);
    StageAt(fs, archive, scratch, data, tree)
  }

  /** Require exactly one top-level entry in `dest/<id>`, move or copy each
      entry of that folder to `dest`, and remove `dest/<id>`. */
  function LiftContent(staged: FS, dest: Path, id: Name, platform: Platform): (out: Outcome)
    ensures |Children(staged, dest + [id])| != 1 ==> out == Failed(AssertionFailed(ExactlyOneMessage), staged)
    ensures out.Succeeded? <==>
              && |Children(staged, dest + [id])| == 1
              && IsDir(staged, dest + [id, TheOnly(Children(staged, dest + [id]))])
    ensures out.Failed? ==> out.fs == staged
    ensures out.Succeeded? ==> forall q :: q in out.fs ==> !(dest + [id] <= q)
  {
    var scratch := dest + [id];
    var entries := Children(staged, scratch);
    if |entries| != 1 then Failed(AssertionFailed(ExactlyOneMessage), staged)
    else
      var content := scratch + [TheOnly(entries)];
      assert content == dest + [id, TheOnly(entries)];
      if !IsDir(staged, content) then Failed(NotADirectory(content), staged)
      else
        var relocated := Relocate(staged, content, dest, Children(staged, content), ModeFor(platform));
        Succeeded(RemoveTree(relocated, scratch))
  }

  /** The filesystem half of `downloadRepository`, from the archive bytes on. */
  function Materialize(fs: FS, dest: Path, id: Name, data: Bytes, tree: FS, platform: Platform): (out: Outcome)
    ensures !IsDir(fs, dest) ==> out.Failed? && out.fs == fs
    ensures out.Succeeded? ==> forall q :: q in out.fs ==> !(dest + [id] <= q)
  {
    match Stage(fs, dest, id, data, tree)
    case Failed(e, left) => Failed(e, left)
    case Succeeded(staged) => LiftContent(staged, dest, id, platform)
  }

  /** `downloadRepository` for one attempt of each wrapped call: `lookup` is
      the metadata lookup's outcome, `fetch` the archive endpoint, `id` the
      generated unique id and `tree` what the archive unpacks to. */
  function DownloadRepository(fs: FS, owner: string, repo: string, ref: string, commit: string, dest: Path,
                              platform: Platform, lookup: LookupOutcome, fetch: ArchiveRequest -> HttpOutcome,
                              id: Name, tree: FS): (out: Outcome)
    ensures ResolveRef(ref, commit, repo, lookup).Failure? ==>
              out == Failed(ResolveRef(ref, commit, repo, lookup).error, fs)
    ensures ResolveRef(ref, commit, repo, lookup).Success? &&
            DownloadArchive(owner, repo, ResolveRef(ref, commit, repo, lookup).value, commit, platform, fetch).Failure? ==>
              out == Failed(DownloadArchive(owner, repo, ResolveRef(ref, commit, repo, lookup).value, commit, platform, fetch).error, fs)
    ensures out.Succeeded? ==> forall q :: q in out.fs ==> !(dest + [id] <= q)
  {
    match ResolveRef(ref, commit, repo, lookup)
    case Failure(e) => Failed(e, fs)
    case Success(target) =>
      match DownloadArchive(owner, repo, target, commit, platform, fetch)
      case Failure(e) => Failed(e, fs)
      case Success(data) => Materialize(fs, dest, id, data, tree, platform)
  }

  /** With a ref or a commit given, the metadata lookup is never consulted:
      the whole download is the same whatever that lookup would return. */
  lemma ExplicitRefSkipsLookup(fs: FS, owner: string, repo: string, ref: string, commit: string, dest: Path,
                               platform: Platform, lookup1: LookupOutcome, lookup2: LookupOutcome,
                               fetch: ArchiveRequest -> HttpOutcome, id: Name, tree: FS)
    requires ref != "" || commit != ""
    ensures DownloadRepository(fs, owner, repo, ref, commit, dest, platform, lookup1, fetch, id, tree)
         == DownloadRepository(fs, owner, repo, ref, commit, dest, platform, lookup2, fetch, id, tree)
  {
  }

  /** The lookup decides the ref exactly when neither a ref nor a commit was
      given: only then do two different default branches resolve differently. */
  lemma LookupConsultedIff(ref: string, commit: string, repo: string)
    ensures ref == "" && commit == "" <==>
            ResolveRef(ref, commit, repo, Found("main")) != ResolveRef(ref, commit, repo, Found("dev"))
  {
    if ref == "" && commit == "" {
      assert NormalizeRef("main")[11] != NormalizeRef("dev")[11];
    }
  }

  /** The destination after a successful download, compared with `before`:
      each entry `c` of the archive's top-level folder `top` sits at
      `dest/c` with its whole subtree, and every path outside those entries
      is exactly as it was, so no scratch file or directory remains. */
  ghost predicate Materialized(before: FS, after: FS, dest: Path, tree: FS, top: Name)
  {
    var entries := Children(tree, [top]);
    && (forall q :: InEntry(dest, entries, q) ==> (q in after <==> [top] + q[|dest|..] in tree))
    && (forall q :: InEntry(dest, entries, q) && q in after ==> after[q] == tree[[top] + q[|dest|..]])
    && (forall q :: !InEntry(dest, entries, q) ==> (q in after <==> q in before))
    && (forall q :: !InEntry(dest, entries, q) && q in after ==> after[q] == before[q])
  }

  /** The layout determines the destination completely. */
  lemma MaterializedDetermined(before: FS, after1: FS, after2: FS, dest: Path, tree: FS, top: Name)
    requires Materialized(before, after1, dest, tree, top)
    requires Materialized(before, after2, dest, tree, top)
    ensures after1 == after2
  {
    assert after1.Keys == after2.Keys;
  }

  /** The archive unpacks to exactly one top-level folder `top`, and the
      fresh id clashes with none of that folder's entries. */
  predicate SingleFolder(tree: FS, top: Name, id: Name)
  {
    && Children(tree, []) == {top}
    && [top] in tree && tree[[top]].Directory?
    && id !in Children(tree, [top])
  }

  /** The staged scratch directory holds exactly the archive's tree, and
      every path outside it is as it was. */
  lemma StagedScratch(fs: FS, dest: Path, id: Name, tree: FS)
    requires Fresh(fs, dest, id)
    ensures var staged := Unpacked(fs, dest, id, tree);
            var scratch := dest + [id];
            && (forall q :: scratch < q ==> (q in staged <==> q[|scratch|..] in tree))
            && (forall q :: q in staged && scratch < q ==> staged[q] == tree[q[|scratch|..]])
            && (forall q :: !(scratch <= q) ==> (q in staged <==> q in fs))
            && (forall q :: q in staged && !(scratch <= q) ==> staged[q] == fs[q])
  {
    var staged := Unpacked(fs, dest, id, tree);
    var scratch := dest + [id];
    var archive := dest + [ArchiveFileName(id)];
    forall q | scratch < q
      ensures q in staged <==> q[|scratch|..] in tree
      ensures q in staged ==> staged[q] == tree[q[|scratch|..]]
    {
      assert q !in fs;
      assert q[|scratch|..] == q[|dest| + 1..];
    }
    forall q | !(scratch <= q) && q in fs
      ensures q in staged
    {
      assert !(archive <= q);
    }
  }

  /** After staging, `dest/<id>` lists only `top`, which is a directory
      listing the entries the archive's top-level folder has. */
  lemma {:induction false} StagedSingleFolder(fs: FS, dest: Path, id: Name, tree: FS, top: Name)
    requires Fresh(fs, dest, id)
    requires SingleFolder(tree, top, id)
    ensures var staged := Unpacked(fs, dest, id, tree);
            && Children(staged, dest + [id]) == {top}
            && IsDir(staged, dest + [id, top])
            && Children(staged, dest + [id] + [top]) == Children(tree, [top])
  {
    var scratch := dest + [id];
    var staged := Unpacked(fs, dest, id, tree);
    StagedScratch(fs, dest, id, tree);
    var content := scratch + [top];
    assert scratch < content && content[|scratch|..] == [top];
    assert content in staged && staged[content] == tree[[top]];
    assert content == dest + [id, top];
    assert scratch + [] == scratch;
    ChildrenMatchTree(staged, scratch, tree, []);
    ChildrenMatchTree(staged, scratch, tree, [top]);
  }

  /** A staged directory listing one folder `top` has that folder's
      entries relocated. */
  lemma LiftSingleFolder(staged: FS, dest: Path, id: Name, platform: Platform, top: Name)
    requires Children(staged, dest + [id]) == {top}
    requires IsDir(staged, dest + [id, top])
    ensures LiftContent(staged, dest, id, platform)
         == Succeeded(RemoveTree(Relocate(staged, dest + [id] + [top], dest,
                                          Children(staged, dest + [id] + [top]), ModeFor(platform)), dest + [id]))
  {
    assert TheOnly(Children(staged, dest + [id])) == top;
    assert dest + [id] + [top] == dest + [id, top];
  }

  /** With a fresh id and a single top-level folder, the download's local
      half succeeds and relocates that folder's entries. */
  lemma {:induction false} MaterializeSucceeds(fs: FS, dest: Path, id: Name, data: Bytes, tree: FS, platform: Platform, top: Name)
    requires IsDir(fs, dest) && Fresh(fs, dest, id)
    requires SingleFolder(tree, top, id)
    ensures Materialize(fs, dest, id, data, tree, platform)
         == Succeeded(RemoveTree(Relocate(Unpacked(fs, dest, id, tree), dest + [id] + [top], dest,
                                          Children(tree, [top]), ModeFor(platform)), dest + [id]))
  {
    var scratch := dest + [id];
    var archive := dest + [ArchiveFileName(id)];
    var staged := Unpacked(fs, dest, id, tree);
    assert scratch !in fs && archive !in fs;
    assert Stage(fs, dest, id, data, tree) == Succeeded(staged);
    assert Materialize(fs, dest, id, data, tree, platform) == LiftContent(staged, dest, id, platform);
    StagedSingleFolder(fs, dest, id, tree, top);
    LiftSingleFolder(staged, dest, id, platform, top);
  }

  /** On success the destination holds the content of the archive's single
      top-level folder and nothing else changes, on every platform. */
  lemma {:induction false} MaterializeLayout(fs: FS, dest: Path, id: Name, data: Bytes, tree: FS, platform: Platform, top: Name)
    requires IsDir(fs, dest) && Fresh(fs, dest, id)
    requires SingleFolder(tree, top, id)
    ensures var out := Materialize(fs, dest, id, data, tree, platform);
            out.Succeeded? && Materialized(fs, out.fs, dest, tree, top)
    ensures var out := Materialize(fs, dest, id, data, tree, platform);
            ArchiveFileName(id) !in Children(tree, [top]) ==> dest + [ArchiveFileName(id)] !in out.fs
  {
    var scratch := dest + [id];
    var staged := Unpacked(fs, dest, id, tree);
    var entries := Children(tree, [top]);
    var mode := ModeFor(platform);
    MaterializeSucceeds(fs, dest, id, data, tree, platform, top);
    StagedScratch(fs, dest, id, tree);
    assert Beside(scratch, dest, entries);
    var out := RemoveTree(Relocate(staged, scratch + [top], dest, entries, mode), scratch);
    forall q
      ensures InEntry(dest, entries, q) ==> (q in out <==> [top] + q[|dest|..] in tree)
      ensures InEntry(dest, entries, q) && q in out ==> out[q] == tree[[top] + q[|dest|..]]
      ensures !InEntry(dest, entries, q) ==> (q in out <==> q in fs)
      ensures !InEntry(dest, entries, q) && q in out ==> out[q] == fs[q]
    {
      LiftedFromScratch(fs, staged, scratch, top, dest, tree, mode, q);
    }
    if ArchiveFileName(id) !in entries {
      var archive := dest + [ArchiveFileName(id)];
      assert archive[|dest|] == ArchiveFileName(id);
      assert !InEntry(dest, entries, archive) && archive !in fs;
    }
  }

  /** An archive without exactly one top-level entry fails the assertion
      before anything is relocated: only the extraction directory was added. */
  lemma {:induction false} WrongEntryCountFails(fs: FS, dest: Path, id: Name, data: Bytes, tree: FS, platform: Platform)
    requires IsDir(fs, dest) && Fresh(fs, dest, id)
    requires |Children(tree, [])| != 1
    ensures var out := Materialize(fs, dest, id, data, tree, platform);
            && out == Failed(AssertionFailed(ExactlyOneMessage), out.fs)
            && (forall q :: !(dest + [id] <= q) ==> (q in out.fs <==> q in fs))
            && (forall q :: q in out.fs && !(dest + [id] <= q) ==> out.fs[q] == fs[q])
  {
    var scratch := dest + [id];
    var archive := dest + [ArchiveFileName(id)];
    var staged := Unpacked(fs, dest, id, tree);
    assert scratch !in fs && archive !in fs;
    assert Stage(fs, dest, id, data, tree) == Succeeded(staged);
    StagedScratch(fs, dest, id, tree);
    ChildrenMatchTree(staged, scratch, tree, []);
    assert scratch + [] == scratch;
    forall q | !(scratch <= q) && q in fs
      ensures q in staged
    {
      assert !(archive <= q);
    }
  }

  /** A successful download, on any platform, leaves the destination laid
      out as `Materialized` describes. */
  lemma SuccessfulDownloadLayout(fs: FS, owner: string, repo: string, ref: string, commit: string, dest: Path,
                                 platform: Platform, lookup: LookupOutcome, fetch: ArchiveRequest -> HttpOutcome,
                                 id: Name, tree: FS, top: Name)
    requires ResolveRef(ref, commit, repo, lookup).Success?
    requires DownloadArchive(owner, repo, ResolveRef(ref, commit, repo, lookup).value, commit, platform, fetch).Success?
    requires IsDir(fs, dest) && Fresh(fs, dest, id)
    requires SingleFolder(tree, top, id)
    ensures var out := DownloadRepository(fs, owner, repo, ref, commit, dest, platform, lookup, fetch, id, tree);
            out.Succeeded? && Materialized(fs, out.fs, dest, tree, top)
    ensures var out := DownloadRepository(fs, owner, repo, ref, commit, dest, platform, lookup, fetch, id, tree);
            ArchiveFileName(id) !in Children(tree, [top]) ==> dest + [ArchiveFileName(id)] !in out.fs
  {
    var target := ResolveRef(ref, commit, repo, lookup).value;
    var data := DownloadArchive(owner, repo, target, commit, platform, fetch).value;
    MaterializeLayout(fs, dest, id, data, tree, platform, top);
  }

  /** Copying on Windows and moving elsewhere end in the same destination.
      Both runs take the one `tree`: the zipball and the tarball are assumed
      to unpack to the same content, although their bytes differ. */
  lemma PlatformsAgree(fs: FS, owner: string, repo: string, ref: string, commit: string, dest: Path,
                       lookup: LookupOutcome, fetch: ArchiveRequest -> HttpOutcome, id: Name, tree: FS, top: Name)
    requires ResolveRef(ref, commit, repo, lookup).Success?
    requires DownloadArchive(owner, repo, ResolveRef(ref, commit, repo, lookup).value, commit, Windows, fetch).Success?
    requires DownloadArchive(owner, repo, ResolveRef(ref, commit, repo, lookup).value, commit, NonWindows, fetch).Success?
    requires IsDir(fs, dest) && Fresh(fs, dest, id)
    requires SingleFolder(tree, top, id)
    ensures DownloadRepository(fs, owner, repo, ref, commit, dest, Windows, lookup, fetch, id, tree)
         == DownloadRepository(fs, owner, repo, ref, commit, dest, NonWindows, lookup, fetch, id, tree)
  {
    SuccessfulDownloadLayout(fs, owner, repo, ref, commit, dest, Windows, lookup, fetch, id, tree, top);
    SuccessfulDownloadLayout(fs, owner, repo, ref, commit, dest, NonWindows, lookup, fetch, id, tree, top);
    MaterializedDetermined(fs,
      DownloadRepository(fs, owner, repo, ref, commit, dest, Windows, lookup, fetch, id, tree).fs,
      DownloadRepository(fs, owner, repo, ref, commit, dest, NonWindows, lookup, fetch, id, tree).fs,
      dest, tree, top);
  }
}
