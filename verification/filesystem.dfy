/** An abstract filesystem: entries keyed by path, and the whole-subtree
    operations the repair script performs through `fs-extra` (rename, recursive
    copy, recursive removal) and through the external commands (writing one
    file, unpacking a tree into a folder). */
module FileSystem {
  import opened Paths

  newtype Byte = b: int | 0 <= b < 256
  type Bytes = seq<Byte>

  datatype Entry = File(data: Bytes) | Dir

  /** Entries keyed by path: absolute paths for the disk, paths relative to a
      folder for a subtree lifted out of it. */
  type Tree = map<Path, Entry>

  /** Nothing exists at or below `dir`: what `mkdtemp` guarantees of the name it
      picks. */
  predicate Fresh(fs: Tree, dir: Path) {
    forall p :: p in fs ==> !(dir <= p)
  }

  /** The two trees hold the same entries everywhere outside `dir`. */
  ghost predicate AgreeOutside(a: Tree, b: Tree, dir: Path) {
    forall p :: !(dir <= p) ==> (p in a <==> p in b) && (p in a ==> a[p] == b[p])
  }

  /** The entries at and below `dir`, keyed relative to `dir`. */
  function Subtree(fs: Tree, dir: Path): (t: Tree)
    ensures forall r {:trigger r in t} :: r in t ==> dir + r in fs && t[r] == fs[dir + r]
  {
    var rel := set p | p in fs && dir <= p :: p[|dir|..];
    forall r | r in rel
      ensures dir + r in fs
    {
      var p :| p in fs && dir <= p && r == p[|dir|..];
      assert p == dir + r;
    }
    map r | r in rel :: fs[dir + r]
  }

  lemma AgreeTrans(a: Tree, b: Tree, c: Tree, dir: Path)
    requires AgreeOutside(a, b, dir) && AgreeOutside(b, c, dir)
    ensures AgreeOutside(a, c, dir)
  {
  }

  /** Agreement outside a folder implies agreement outside any folder that
      contains it. */
  lemma AgreeWithin(a: Tree, b: Tree, inner: Path, dir: Path)
    requires dir <= inner && AgreeOutside(a, b, inner)
    ensures AgreeOutside(a, b, dir)
  {
    forall p | p in a && inner <= p
      ensures dir <= p
    {
      assert p[..|dir|] == inner[..|dir|];
    }
    forall p | p in b && inner <= p
      ensures dir <= p
    {
      assert p[..|dir|] == inner[..|dir|];
    }
  }

  lemma AgreeWrite(fs: Tree, p: Path, e: Entry, dir: Path)
    requires dir <= p
    ensures AgreeOutside(fs, fs[p := e], dir)
  {
  }

  lemma FreshWrite(fs: Tree, dir: Path, p: Path, e: Entry)
    requires Fresh(fs, dir) && !(dir <= p)
    ensures Fresh(fs[p := e], dir)
  {
  }

  /** The same write on both sides keeps two trees in agreement. */
  lemma AgreeBothWrite(a: Tree, b: Tree, p: Path, e: Entry, dir: Path)
    requires AgreeOutside(a, b, dir)
    ensures AgreeOutside(a[p := e], b[p := e], dir)
  {
  }

  /** Every entry at or below `dir` appears in its subtree. */
  lemma SubtreeHas(fs: Tree, dir: Path, p: Path)
    requires p in fs && dir <= p
    ensures p[|dir|..] in Subtree(fs, dir)
  {
  }

  /** Everything at or below `dir` deleted (`fs.removeSync`). */
  function RemoveTree(fs: Tree, dir: Path): (r: Tree)
    ensures forall p {:trigger p in r} :: p in r <==> p in fs && !(dir <= p)
    ensures forall p {:trigger r[p]} :: p in r ==> r[p] == fs[p]
    ensures Fresh(r, dir)
    ensures AgreeOutside(fs, r, dir)
  {
    map p | p in fs && !(dir <= p) :: fs[p]
  }

  /** The relative tree `t` laid over the disk at `dst`: entries of `t` replace
      whatever was at their place, everything else stays. */
  function Graft(fs: Tree, t: Tree, dst: Path): (r: Tree)
    ensures forall p {:trigger p in r} :: p in r <==> p in fs || (dst <= p && p[|dst|..] in t)
    ensures forall p {:trigger r[p]} :: p in r && dst <= p && p[|dst|..] in t ==> r[p] == t[p[|dst|..]]
    ensures forall p {:trigger r[p]} :: p in r && !(dst <= p && p[|dst|..] in t) ==> r[p] == fs[p]
    ensures AgreeOutside(fs, r, dst)
  {
    var lifted := set r | r in t :: dst + r;
    assert forall r | r in t :: (dst + r)[|dst|..] == r;
    assert forall p | p in lifted :: dst <= p && p[|dst|..] in t;
    forall p | dst <= p && p[|dst|..] in t
      ensures p in lifted
    {
      assert p == dst + p[|dst|..];
    }
    map p | p in fs.Keys + lifted :: if dst <= p && p[|dst|..] in t then t[p[|dst|..]] else fs[p]
  }

  /** `fs.copy(src, dst, {recursive: true})`: the subtree at `src` merged into
      `dst`. */
  function Copy(fs: Tree, src: Path, dst: Path): (r: Tree)
    ensures AgreeOutside(fs, r, dst)
    ensures forall k :: k in Subtree(fs, src) ==> dst + k in r && r[dst + k] == Subtree(fs, src)[k]
  {
    var t := Subtree(fs, src);
    assert forall k | k in t :: dst <= dst + k && (dst + k)[|dst|..] == k;
    Graft(fs, t, dst)
  }

  /** `fs.rename(src, dst)`: the subtree at `src` moves to `dst`, replacing
      whatever was there. */
  function Move(fs: Tree, src: Path, dst: Path): (r: Tree)
    ensures src in fs ==> dst in r && r[dst] == fs[src]
  {
    var t := Subtree(fs, src);
    if src in fs then
      SubtreeHas(fs, src, src);
      assert src[|src|..] == [] && dst[|dst|..] == [] && src + [] == src;
      var r := Graft(RemoveTree(RemoveTree(fs, src), dst), t, dst);
      assert dst in r;
      r
    else
      Graft(RemoveTree(RemoveTree(fs, src), dst), t, dst)
  }

  /** After a rename between two separate places nothing is left at or below
      the source. */
  lemma MoveEmptiesSource(fs: Tree, src: Path, dst: Path)
    requires Apart(src, dst)
    ensures Fresh(Move(fs, src, dst), src)
  {
  }

  /** Grafting onto a place that holds nothing puts exactly the grafted tree
      there. */
  lemma GraftSubtree(rest: Tree, t: Tree, dst: Path)
    requires Fresh(rest, dst)
    ensures Subtree(Graft(rest, t, dst), dst) == t
  {
    var m := Graft(rest, t, dst);
    var a := Subtree(m, dst);
    forall r | r in a
      ensures r in t && a[r] == t[r]
    {
      var p := dst + r;
      assert p in m && dst <= p && p[|dst|..] == r;
      assert p !in rest;
      assert a[r] == m[p];
    }
    forall r | r in t
      ensures r in a
    {
      var p := dst + r;
      assert p[|dst|..] == r;
      SubtreeHas(m, dst, p);
    }
  }

  /** After a rename the destination holds exactly the source's old subtree. */
  lemma MoveCarriesSubtree(fs: Tree, src: Path, dst: Path)
    ensures Subtree(Move(fs, src, dst), dst) == Subtree(fs, src)
  {
    var rest := RemoveTree(RemoveTree(fs, src), dst);
    assert Move(fs, src, dst) == Graft(rest, Subtree(fs, src), dst);
    GraftSubtree(rest, Subtree(fs, src), dst);
  }

  /** Renaming a path onto itself changes nothing. */
  lemma MoveOntoItself(fs: Tree, p: Path)
    ensures Move(fs, p, p) == fs
  {
    var m := Move(fs, p, p);
    forall x | x in fs && p <= x
      ensures x in m && m[x] == fs[x]
    {
      SubtreeHas(fs, p, x);
      assert p + x[|p|..] == x;
    }
    forall x | x in m
      ensures x in fs
    {
      if p <= x {
        assert p + x[|p|..] == x;
      }
    }
  }

  /** A rename changes nothing outside its source and destination subtrees. */
  lemma MoveLeavesRest(fs: Tree, src: Path, dst: Path, p: Path)
    requires !(src <= p) && !(dst <= p)
    ensures p in Move(fs, src, dst) <==> p in fs
    ensures p in fs ==> Move(fs, src, dst)[p] == fs[p]
  {
  }
  /** A folder that lies inside `b + r` lies inside `b` or contains it. */
  lemma PrefixOfExtension(a: Path, b: Path, r: Path)
    requires a <= b + r
    ensures a <= b || b <= a
  {
    if |a| <= |b| {
      assert a == (b + r)[..|a|] == b[..|a|];
    } else {
      assert b == (b + r)[..|b|] == a[..|b|];
    }
  }

  /** Two trees with nothing inside `dir` that agree outside it are equal. */
  lemma AgreeFreshEqual(a: Tree, b: Tree, dir: Path)
    requires AgreeOutside(a, b, dir) && Fresh(a, dir) && Fresh(b, dir)
    ensures a == b
  {
    assert a.Keys == b.Keys;
  }

  /** A rename into a place apart from `dir` puts nothing inside `dir`. */
  lemma MoveKeepsFresh(fs: Tree, src: Path, dst: Path, dir: Path)
    requires Fresh(fs, dir) && Apart(dir, dst)
    ensures Fresh(Move(fs, src, dst), dir)
  {
    var m := Move(fs, src, dst);
    forall p | p in m
      ensures !(dir <= p)
    {
      if dst <= p {
        assert p == dst + p[|dst|..];
        if dir <= p {
          PrefixOfExtension(dir, dst, p[|dst|..]);
        }
      }
    }
  }

  /** Two trees that agree outside `dir` have the same subtree at any folder
      apart from `dir`. */
  lemma SubtreeAgree(a: Tree, b: Tree, src: Path, dir: Path)
    requires AgreeOutside(a, b, dir) && Apart(dir, src)
    ensures Subtree(a, src) == Subtree(b, src)
  {
    var ta := Subtree(a, src);
    var tb := Subtree(b, src);
    forall r | r in ta || r in tb
      ensures (r in ta <==> r in tb) && (r in ta ==> ta[r] == tb[r])
    {
      var p := src + r;
      if dir <= p {
        PrefixOfExtension(dir, src, r);
      }
      assert p[|src|..] == r;
      if p in a {
        SubtreeHas(a, src, p);
      }
      if p in b {
        SubtreeHas(b, src, p);
      }
    }
  }

  /** Renaming between places apart from `dir` keeps two trees that agree
      outside `dir` in agreement. */
  lemma MoveAgree(a: Tree, b: Tree, src: Path, dst: Path, dir: Path)
    requires AgreeOutside(a, b, dir) && Apart(dir, src) && Apart(dir, dst)
    ensures AgreeOutside(Move(a, src, dst), Move(b, src, dst), dir)
  {
    SubtreeAgree(a, b, src, dir);
  }

  /** Writing outside a folder leaves the folder's subtree as it was. */
  lemma SubtreeWriteOutside(fs: Tree, dir: Path, p: Path, e: Entry)
    requires !(dir <= p)
    ensures Subtree(fs[p := e], dir) == Subtree(fs, dir)
  {
    var a := Subtree(fs[p := e], dir);
    var b := Subtree(fs, dir);
    forall r | r in b
      ensures r in a
    {
      assert (dir + r)[|dir|..] == r;
      SubtreeHas(fs[p := e], dir, dir + r);
    }
  }
}
