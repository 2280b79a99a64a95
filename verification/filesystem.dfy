/** An abstract filesystem and the operations the snapshot download performs
    on it: writing a file, creating directories, unpacking an archive,
    recursive removal, listing a directory, and moving or copying entries. */
module FileSystem {
  import opened Wrappers
  import opened Errors

  datatype Node = File(data: Bytes) | Directory

  /** Every existing path mapped to what is stored there. */
  type FS = map<Path, Node>

  /** How an entry is relocated: copied (on Windows) or moved (elsewhere). */
  datatype Mode = Copy | Move

  /** `p` is an existing directory; the root always is. */
  predicate IsDir(fs: FS, p: Path)
  {
    p == [] || (p in fs && fs[p].Directory?)
  }

  function Parent(p: Path): Path
    requires p != []
  {
    p[..|p| - 1]
  }

  /** `q` lies strictly inside the entry `base/n` for one of the `names`, or is that entry. */
  predicate InEntry(base: Path, names: set<Name>, q: Path)
  {
    |base| < |q| && base <= q && q[|base|] in names
  }

  /** `io.rmRF`: remove `p` and everything below it; a missing path is not an error. */
  function RemoveTree(fs: FS, p: Path): (r: FS)
    ensures forall q :: q in r <==> q in fs && !(p <= q)
    ensures forall q :: q in r ==> r[q] == fs[q]
  {
    map q | q in fs && !(p <= q) :: fs[q]
  }

  /** `fs.promises.writeFile`: create or overwrite the file `p`, whose parent
      directory must exist. */
  function WriteFile(fs: FS, p: Path, data: Bytes): (r: Result<FS, Error>)
    ensures r.Success? <==> !IsDir(fs, p) && IsDir(fs, Parent(p))
    ensures r.Success? ==> r.value == fs[p := File(data)]
    ensures r.Failure? && IsDir(fs, p) ==> r.error == IsADirectory(p)
  {
    if IsDir(fs, p) then Failure(IsADirectory(p))
    else if IsDir(fs, Parent(p)) then Success(fs[p := File(data)])
    else if Parent(p) in fs then Failure(NotADirectory(Parent(p)))
    else Failure(NotFound(Parent(p)))
  }

  /** `io.mkdirP`: make `p` a directory, creating missing ancestors on the way. */
  function MakeDirectories(fs: FS, p: Path): (r: Result<FS, Error>)
    decreases |p|
    ensures r.Success? ==> IsDir(r.value, p)
    ensures r.Success? ==> forall q :: q in fs ==> q in r.value && r.value[q] == fs[q]
    ensures r.Success? ==> forall q :: q in r.value && q !in fs ==> q <= p && r.value[q] == Directory
    ensures r.Failure? ==> r.error.NotADirectory? && r.error.path <= p && r.error.path in fs && fs[r.error.path].File?
  {
    if IsDir(fs, p) then Success(fs)
    else if p in fs then Failure(NotADirectory(p))
    else
      match MakeDirectories(fs, Parent(p))
      case Failure(e) => Failure(e)
      case Success(made) => Success(made[p := Directory])
  }

  /** `io.mkdirP` of a path whose parent is a directory and which is not a
      file creates exactly that one directory. */
  lemma MakeChildDirectory(fs: FS, p: Path)
    requires p != [] && IsDir(fs, Parent(p))
    requires !(p in fs && fs[p].File?)
    ensures MakeDirectories(fs, p) == Success(fs[p := Directory])
  {
    if p in fs {
      assert fs[p := Directory] == fs;
    }
  }

  /** Sequence facts behind re-rooting: a path below `from` moved below `to`
      keeps its part relative to the root, and moving it back restores it. */
  lemma RebaseBack(from: Path, to: Path, p: Path)
    requires from <= p
    ensures to <= to + p[|from|..] && (to + p[|from|..])[|to|..] == p[|from|..]
    ensures from + p[|from|..] == p
  {
  }

  /** Every path in `fs` below `from`, re-rooted below `to`; the building
      block of grafting, copying and moving a subtree. */
  function Rebase(fs: FS, from: Path, to: Path): (r: FS)
    ensures forall q :: q in r <==> to <= q && from + q[|to|..] in fs
    ensures forall q :: q in r ==> r[q] == fs[from + q[|to|..]]
  {
    forall p1, p2 | from <= p1 && from <= p2 && to + p1[|from|..] == to + p2[|from|..]
      ensures p1 == p2
    {
      RebaseBack(from, to, p1);
      RebaseBack(from, to, p2);
    }
    var r := map p | p in fs && from <= p :: to + p[|from|..] := fs[p];
    forall q | to <= q && from + q[|to|..] in fs
      ensures q in r && r[q] == fs[from + q[|to|..]]
    {
      RebaseBack(from, to, from + q[|to|..]);
      assert to + q[|to|..] == q;
    }
    forall q | q in r
      ensures to <= q && from + q[|to|..] in fs
    {
      var p :| p in fs && from <= p && to + p[|from|..] == q;
      RebaseBack(from, to, p);
    }
    r
  }

  /** `tree`, whose paths are relative, written below `base`. */
  function Graft(fs: FS, base: Path, tree: FS): (r: FS)
    ensures forall q :: q in r <==> q in fs || (base < q && q[|base|..] in tree)
    ensures forall q :: q in r ==> r[q] == if base < q && q[|base|..] in tree then tree[q[|base|..]] else fs[q]
  {
    forall r1, r2 | base + r1 == base + r2
      ensures r1 == r2
    {
      RebaseBack([], base, r1);
      RebaseBack([], base, r2);
    }
    var added := map rel | rel in tree && rel != [] :: base + rel := tree[rel];
    forall q | base < q && q[|base|..] in tree
      ensures q in added && added[q] == tree[q[|base|..]]
    {
      assert base + q[|base|..] == q;
    }
    forall q | q in added
      ensures base < q && q[|base|..] in tree
    {
      var rel :| rel in tree && rel != [] && base + rel == q;
      RebaseBack([], base, rel);
    }
    fs + added
  }

  /** Grafting below `base` never touches a path `a` outside it, so what was
      written at `a` beforehand is gone once `a` is removed. */
  lemma RemoveAfterGraft(fs: FS, a: Path, n: Node, base: Path, tree: FS)
    requires !(base < a)
    ensures RemoveTree(Graft(fs[a := n], base, tree), a) == RemoveTree(Graft(fs, base, tree), a)
  {
    var g1 := Graft(fs[a := n], base, tree);
    var g2 := Graft(fs, base, tree);
    var r1 := RemoveTree(g1, a);
    var r2 := RemoveTree(g2, a);
    forall q | !(a <= q)
      ensures q in g1 <==> q in g2
      ensures q in g1 ==> g1[q] == g2[q]
    {
      assert q != a;
    }
    assert r1.Keys == r2.Keys;
  }

  /** `extractTar` / `extractZip` of the archive file `archive` into `dir`;
      `tree` is what the archive unpacks to, with paths relative to `dir`. */
  function Extract(fs: FS, archive: Path, dir: Path, tree: FS): (r: Result<FS, Error>)
    ensures r.Success? <==> archive in fs && fs[archive].File?
    ensures r.Success? ==> forall rel :: rel in tree && rel != [] ==> dir + rel in r.value && r.value[dir + rel] == tree[rel]
    ensures r.Success? ==> forall q :: q in r.value && !(dir < q) ==> q in fs && r.value[q] == fs[q]
    ensures r.Success? ==> forall q :: q in fs && !(dir < q) ==> q in r.value && r.value[q] == fs[q]
    ensures r.Success? ==> forall q :: q in r.value && dir < q ==> q in fs || q[|dir|..] in tree
    ensures r.Success? ==> forall q :: q in fs && dir < q && q[|dir|..] !in tree ==> q in r.value && r.value[q] == fs[q]
  {
    if archive in fs && fs[archive].File? then
      assert forall rel :: rel in tree && rel != [] ==> dir < dir + rel && (dir + rel)[|dir|..] == rel;
      Success(Graft(fs, dir, tree))
    else Failure(NotFound(archive))
  }

  /** `fs.promises.readdir`: the names of the entries directly inside `dir`. */
  function Children(fs: FS, dir: Path): (names: set<Name>)
    ensures forall x :: x in names <==> dir + [x] in fs
  {
    var names := set q | q in fs && |q| == |dir| + 1 && dir <= q :: q[|dir|];
    assert forall x :: dir + [x] in fs ==> x in names by {
      forall x | dir + [x] in fs
        ensures x in names
      {
        assert (dir + [x])[|dir|] == x;
      }
    }
    assert forall x :: x in names ==> dir + [x] in fs by {
      forall x | x in names
        ensures dir + [x] in fs
      {
        var q :| q in fs && |q| == |dir| + 1 && dir <= q && q[|dir|] == x;
        assert q == dir + [x];
      }
    }
    names
  }

  /** One `io.mv` (Move) or recursive `io.cp` (Copy) of the entry `from` to
      `to`: whatever was at `to` is replaced by the subtree at `from`, which
      a move also removes. */
  function Transfer(fs: FS, from: Path, to: Path, mode: Mode): (r: FS)
    ensures forall q :: q in r <==>
              || (to <= q && from + q[|to|..] in fs)
              || (!(to <= q) && q in fs && (mode == Copy || !(from <= q)))
    ensures forall q :: q in r ==> r[q] == if to <= q then fs[from + q[|to|..]] else fs[q]
  {
    var kept := map q | q in fs && !(to <= q) && (mode == Copy || !(from <= q)) :: fs[q];
    kept + Rebase(fs, from, to)
  }

  /** Every entry `src/n`, for `n` in `names`, relocated at once to `dst/n`
      with its subtree, replacing whatever was at `dst/n`; a move also
      removes the sources. */
  function Relocate(fs: FS, src: Path, dst: Path, names: set<Name>, mode: Mode): (r: FS)
    ensures forall q :: q in r <==>
              || (InEntry(dst, names, q) && src + q[|dst|..] in fs)
              || (!InEntry(dst, names, q) && q in fs && (mode == Copy || !InEntry(src, names, q)))
    ensures forall q :: q in r ==> r[q] == if InEntry(dst, names, q) then fs[src + q[|dst|..]] else fs[q]
  {
    var kept := map q | q in fs && !InEntry(dst, names, q) && (mode == Copy || !InEntry(src, names, q)) :: fs[q];
    var rebased := Rebase(fs, src, dst);
    kept + map q | q in rebased && InEntry(dst, names, q) :: rebased[q]
  }

  /** `inner` lies inside `dst` under a name that is none of `names`: the
      extraction directory sits in the destination beside the relocated entries. */
  predicate Beside(inner: Path, dst: Path, names: set<Name>)
  {
    |dst| < |inner| && dst <= inner && inner[|dst|] !in names
  }

  /** Relocating no entry changes nothing. */
  lemma RelocateNothing(fs: FS, src: Path, dst: Path, mode: Mode)
    ensures Relocate(fs, src, dst, {}, mode) == fs
  {
    var r := Relocate(fs, src, dst, {}, mode);
    assert forall q :: !InEntry(dst, {}, q) && !InEntry(src, {}, q);
    assert r.Keys == fs.Keys;
  }

  /** A path inside the new target `dst/c` is filled from `src/c` in both orders. */
  lemma OneMoreInsideNewEntry(fs: FS, src: Path, dst: Path, done: set<Name>, c: Name, mode: Mode, q: Path)
    requires c !in done
    requires Beside(src, dst, done + {c})
    requires dst + [c] <= q
    ensures var b := Transfer(Relocate(fs, src, dst, done, mode), src + [c], dst + [c], mode);
            var want := Relocate(fs, src, dst, done + {c}, mode);
            (q in b <==> q in want) && (q in b ==> b[q] == want[q])
  {
    var p := src + q[|dst|..];
    assert q[|dst|] == c;
    assert InEntry(dst, done + {c}, q);
    assert (src + [c]) + q[|dst + [c]|..] == p;
    assert p[|dst|] == src[|dst|];
    assert !InEntry(dst, done, p);
    assert p[|src|] == c;
    assert !InEntry(src, done, p);
  }

  /** A path inside an earlier target `dst/n` is left alone by the new step. */
  lemma OneMoreInsideEarlierEntry(fs: FS, src: Path, dst: Path, done: set<Name>, c: Name, mode: Mode, q: Path)
    requires c !in done
    requires Beside(src, dst, done + {c})
    requires InEntry(dst, done, q)
    ensures var b := Transfer(Relocate(fs, src, dst, done, mode), src + [c], dst + [c], mode);
            var want := Relocate(fs, src, dst, done + {c}, mode);
            (q in b <==> q in want) && (q in b ==> b[q] == want[q])
  {
    assert q[|dst|] != c;
    assert !(dst + [c] <= q);
    assert !(src + [c] <= q);
  }

  /** A path outside every target keeps its node, unless a move took it away. */
  lemma OneMoreOutsideEntries(fs: FS, src: Path, dst: Path, done: set<Name>, c: Name, mode: Mode, q: Path)
    requires c !in done
    requires Beside(src, dst, done + {c})
    requires !InEntry(dst, done + {c}, q)
    ensures var b := Transfer(Relocate(fs, src, dst, done, mode), src + [c], dst + [c], mode);
            var want := Relocate(fs, src, dst, done + {c}, mode);
            (q in b <==> q in want) && (q in b ==> b[q] == want[q])
  {
    assert !InEntry(dst, done, q);
    assert !(dst + [c] <= q);
    assert src + [c] <= q <==> InEntry(src, {c}, q);
    assert InEntry(src, done + {c}, q) <==> InEntry(src, done, q) || InEntry(src, {c}, q);
  }

  /** Each path agrees between one more step and relocating all entries together. */
  lemma OneMoreAt(fs: FS, src: Path, dst: Path, done: set<Name>, c: Name, mode: Mode, q: Path)
    requires c !in done
    requires Beside(src, dst, done + {c})
    ensures var b := Transfer(Relocate(fs, src, dst, done, mode), src + [c], dst + [c], mode);
            var want := Relocate(fs, src, dst, done + {c}, mode);
            (q in b <==> q in want) && (q in b ==> b[q] == want[q])
  {
    if dst + [c] <= q {
      OneMoreInsideNewEntry(fs, src, dst, done, c, mode, q);
    } else if InEntry(dst, done, q) {
      OneMoreInsideEarlierEntry(fs, src, dst, done, c, mode, q);
    } else {
      assert !InEntry(dst, done + {c}, q);
      OneMoreOutsideEntries(fs, src, dst, done, c, mode, q);
    }
  }

  /** One more `io.mv` / `io.cp` after relocating the entries `done` gives
      the relocation of `done` and the new entry together. */
  lemma RelocateOneMore(fs: FS, src: Path, dst: Path, done: set<Name>, c: Name, mode: Mode)
    requires c !in done
    requires Beside(src, dst, done + {c})
    ensures Transfer(Relocate(fs, src, dst, done, mode), src + [c], dst + [c], mode)
         == Relocate(fs, src, dst, done + {c}, mode)
  {
    var b := Transfer(Relocate(fs, src, dst, done, mode), src + [c], dst + [c], mode);
    var want := Relocate(fs, src, dst, done + {c}, mode);
    forall q
      ensures q in b <==> q in want
      ensures q in b ==> b[q] == want[q]
    {
      OneMoreAt(fs, src, dst, done, c, mode, q);
    }
    assert b.Keys == want.Keys;
  }

  /** The names a directory listing shows. */
  function Listed(listing: seq<Name>): set<Name>
  {
    set n | n in listing
  }

  /** The names listed before position `i + 1` are those before `i` and the
      `i`-th, which a listing without repetition has not shown earlier. */
  lemma ListedSoFar(listing: seq<Name>, i: nat)
    requires i < |listing|
    requires forall j, k :: 0 <= j < k < |listing| ==> listing[j] != listing[k]
    ensures Listed(listing[..i + 1]) == Listed(listing[..i]) + {listing[i]}
    ensures listing[i] !in Listed(listing[..i])
    ensures Listed(listing[..i + 1]) <= Listed(listing)
  {
    assert listing[..i + 1] == listing[..i] + [listing[i]];
  }

  /** The `for` loop over a directory listing: each listed entry is moved
      (or copied) in turn. In whatever order the listing comes, the result
      is the relocation of all of them at once. */
  method MoveEntries(fs: FS, src: Path, dst: Path, listing: seq<Name>, mode: Mode) returns (out: FS)
    requires forall i, j :: 0 <= i < j < |listing| ==> listing[i] != listing[j]
    requires Beside(src, dst, Listed(listing))
    ensures out == Relocate(fs, src, dst, Listed(listing), mode)
  {
    RelocateNothing(fs, src, dst, mode);
    out := fs;
    var i := 0;
    ghost var done: set<Name> := {};
    assert listing[..0] == [];
    while i < |listing|
      invariant 0 <= i <= |listing|
      invariant done == Listed(listing[..i])
      invariant out == Relocate(fs, src, dst, done, mode)
      decreases |listing| - i
    {
      var name := listing[i];
      ListedSoFar(listing, i);
      RelocateOneMore(fs, src, dst, done, name, mode);
      out := Transfer(out, src + [name], dst + [name], mode);
      done := done + {name};
      i := i + 1;
    }
    assert listing[..i] == listing;
  }

  /** Once the scratch directory holding the sources is removed, copying and
      moving leave the same filesystem. */
  lemma CopyAndMoveAgree(fs: FS, src: Path, dst: Path, names: set<Name>, scratch: Path)
    requires scratch <= src
    requires Beside(scratch, dst, names)
    ensures RemoveTree(Relocate(fs, src, dst, names, Copy), scratch)
         == RemoveTree(Relocate(fs, src, dst, names, Move), scratch)
  {
    var viaCopy := RemoveTree(Relocate(fs, src, dst, names, Copy), scratch);
    var viaMove := RemoveTree(Relocate(fs, src, dst, names, Move), scratch);
    forall q
      ensures q in viaCopy <==> q in viaMove
      ensures q in viaCopy ==> viaCopy[q] == viaMove[q]
    {
      if !(scratch <= q) {
        assert !(src <= q);
      }
    }
    assert viaCopy.Keys == viaMove.Keys;
  }

  /** A directory whose paths strictly below `base` are exactly those of
      `tree` lists, at every depth, the names `tree` lists. */
  lemma ChildrenMatchTree(fs: FS, base: Path, tree: FS, rel: Path)
    requires forall q :: base < q ==> (q in fs <==> q[|base|..] in tree)
    ensures Children(fs, base + rel) == Children(tree, rel)
  {
    forall x
      ensures x in Children(fs, base + rel) <==> x in Children(tree, rel)
    {
      var q := base + rel + [x];
      assert base < q;
      assert q[|base|..] == rel + [x];
    }
  }

  /** Relocating the entries of `content`, which lies in the scratch
      directory, and then removing the scratch directory: each target
      `dst/n` holds what `content/n` held, the scratch directory is gone and
      every other path is untouched. */
  lemma LiftLayout(staged: FS, scratch: Path, content: Path, dst: Path, names: set<Name>, mode: Mode, q: Path)
    requires scratch <= content
    requires Beside(scratch, dst, names)
    ensures var out := RemoveTree(Relocate(staged, content, dst, names, mode), scratch);
            && (InEntry(dst, names, q) ==> (q in out <==> content + q[|dst|..] in staged))
            && (InEntry(dst, names, q) && q in out ==> out[q] == staged[content + q[|dst|..]])
            && (!InEntry(dst, names, q) && !(scratch <= q) ==> (q in out <==> q in staged))
            && (!InEntry(dst, names, q) && !(scratch <= q) && q in out ==> out[q] == staged[q])
            && (scratch <= q ==> q !in out)
  {
    if InEntry(dst, names, q) {
      assert q[|dst|] != scratch[|dst|];
      assert !(scratch <= q);
    }
    if InEntry(content, names, q) {
      assert scratch <= q;
    }
  }

  /** One path after the entries of the folder `scratch/top`, whose
      scratch directory holds exactly `tree`, are lifted into `dst` and the
      scratch directory is removed: inside a lifted entry it holds what the
      tree holds below `top`, and elsewhere what `before` held. */
  lemma LiftedFromScratch(before: FS, staged: FS, scratch: Path, top: Name, dst: Path, tree: FS, mode: Mode, q: Path)
    requires Beside(scratch, dst, Children(tree, [top]))
    requires forall p :: scratch < p ==> (p in staged <==> p[|scratch|..] in tree)
    requires forall p :: p in staged && scratch < p ==> staged[p] == tree[p[|scratch|..]]
    requires forall p :: !(scratch <= p) ==> (p in staged <==> p in before)
    requires forall p :: p in staged && !(scratch <= p) ==> staged[p] == before[p]
    requires forall p :: p in before ==> !(scratch <= p)
    ensures var entries := Children(tree, [top]);
            var out := RemoveTree(Relocate(staged, scratch + [top], dst, entries, mode), scratch);
            && (InEntry(dst, entries, q) ==> (q in out <==> [top] + q[|dst|..] in tree))
            && (InEntry(dst, entries, q) && q in out ==> out[q] == tree[[top] + q[|dst|..]])
            && (!InEntry(dst, entries, q) ==> (q in out <==> q in before))
            && (!InEntry(dst, entries, q) && q in out ==> out[q] == before[q])
  {
    var entries := Children(tree, [top]);
    var content := scratch + [top];
    LiftLayout(staged, scratch, content, dst, entries, mode, q);
    if InEntry(dst, entries, q) {
      var moved := content + q[|dst|..];
      assert scratch < moved;
      assert moved[|scratch|..] == [top] + q[|dst|..];
    }
  }
}
