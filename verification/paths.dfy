/** Paths as the repair script sees them: the `.sketch` extension test, the
    quarantine ("corrupted") name, and the names of the two working entries
    inside the temporary folder (fix-file.js:14-32). */
module Paths {

  /** One path component. Components never contain the separator. */
  type Name = string

  /** An absolute path, as the list of its components below the root. */
  type Path = seq<Name>

  const SketchExt: string := ".sketch"
  const CorruptedExt: string := ".corrupted.sketch"
  const ZipExt: string := ".zip"

  predicate EndsWith(s: string, suffix: string) {
    |suffix| <= |s| && s[|s| - |suffix|..] == suffix
  }

  function Last(p: Path): Name
    requires |p| > 0
  {
    p[|p| - 1]
  }

  /** Position of the last occurrence of `c` in `s`, or -1 when there is
      none (the C library's `strrchr`, as an index). */
  function LastIndex(s: string, c: char): (i: int)
    ensures -1 <= i < |s|
    ensures i >= 0 ==> s[i] == c
    ensures forall k :: i < k < |s| ==> s[k] != c
  {
    if |s| == 0 then -1
    else if s[|s| - 1] == c then |s| - 1
    else LastIndex(s[..|s| - 1], c)
  }

  /** The extension of a single name, as Node's POSIX `path.extname` computes
      it: from the last dot on, except when that dot is the first character
      (a dot-file such as ".sketch") or the name is "..". */
  function ExtName(name: Name): (e: string)
    ensures e != "" ==> e[0] == '.' && |e| < |name| && EndsWith(name, e)
    ensures forall k :: 0 < k < |e| ==> e[k] != '.'
  {
    var i := LastIndex(name, '.');
    if i <= 0 || name == ".." then "" else name[i..]
  }

  /** `path.extname(file) === '.sketch'` on a path (trailing separators are
      ignored by `extname`, so only the last component matters). */
  predicate HasSketchExt(p: Path) {
    |p| > 0 && ExtName(Last(p)) == SketchExt
  }

  /** A name has the extension exactly when it ends with ".sketch" and has at
      least one character before it. */
  lemma ExtNameIsSketch(name: Name)
    ensures ExtName(name) == SketchExt <==> |name| > |SketchExt| && EndsWith(name, SketchExt)
  {
    var i := LastIndex(name, '.');
    if |name| > |SketchExt| && EndsWith(name, SketchExt) {
      var d := |name| - |SketchExt|;
      assert name[d..] == SketchExt;
      assert name[d] == '.';
      forall k | d < k < |name|
        ensures name[k] != '.'
      {
        assert name[k] == SketchExt[k - d];
      }
      assert i == d;
    }
  }

  /** Any non-empty name followed by ".sketch" has the extension. */
  lemma SketchName(stem: Name)
    requires |stem| > 0
    ensures ExtName(stem + SketchExt) == SketchExt
  {
    var name := stem + SketchExt;
    assert name[|name| - |SketchExt|..] == SketchExt;
    ExtNameIsSketch(name);
  }

  /** `path.basename(file, '.sketch')` of a path that passed the extension
      check: the name of the extraction folder, and of the repaired archive
      once ".zip" is added (fix-file.js:31-32). */
  function BaseStem(p: Path): (stem: Name)
    requires HasSketchExt(p)
    ensures stem + SketchExt == Last(p)
    ensures |stem| > 0
  {
    ExtNameIsSketch(Last(p));
    Last(p)[..|Last(p)| - |SketchExt|]
  }

  /** The quarantine path: the target with its trailing ".sketch" replaced by
      ".corrupted.sketch" (fix-file.js:28). */
  function Quarantine(p: Path): (q: Path)
    requires HasSketchExt(p)
    ensures |q| == |p| && q[..|q| - 1] == p[..|p| - 1]
    ensures Last(q) == BaseStem(p) + CorruptedExt
    ensures q != p
    ensures HasSketchExt(q)
  {
    var stem := BaseStem(p);
    var name := stem + CorruptedExt;
    assert name == (stem + ".corrupted") + SketchExt;
    SketchName(stem + ".corrupted");
    assert |Last(p)| < |name|;
    p[..|p| - 1] + [name]
  }

  /** Two paths neither of which lies inside the other. */
  predicate Apart(a: Path, b: Path) {
    !(a <= b) && !(b <= a)
  }

  /** The quarantine path is a sibling of the target: renaming one never
      touches the other's subtree. */
  lemma QuarantineIsApart(p: Path)
    requires HasSketchExt(p)
    ensures Apart(p, Quarantine(p))
  {
    var q := Quarantine(p);
    assert |p| == |q|;
  }

  /** The text of a path: each component preceded by a separator, and a
      trailing separator when the argument was written with one. */
  function Join(p: Path): string {
    if |p| == 0 then "" else Join(p[..|p| - 1]) + "/" + Last(p)
  }

  function Render(p: Path, trailingSep: bool): string {
    if trailingSep then Join(p) + "/" else Join(p)
  }

  /** The string replacement `file.replace(/\.sketch$/g, '.corrupted.sketch')`
      exactly as written at fix-file.js:28: it acts on the whole argument
      text, and only when that text ends with ".sketch". */
  function ReplaceSketchSuffix(s: string): (r: string)
    ensures EndsWith(s, SketchExt) ==>
              EndsWith(r, CorruptedExt) && r[..|r| - |CorruptedExt|] == s[..|s| - |SketchExt|]
    ensures !EndsWith(s, SketchExt) ==> r == s
  {
    if EndsWith(s, SketchExt) then s[..|s| - |SketchExt|] + CorruptedExt else s
  }

  /** Without a trailing separator the textual replacement and the component
      view agree: the rendered quarantine path is the replaced text. */
  lemma QuarantineMatchesReplacement(p: Path)
    requires HasSketchExt(p)
    ensures ReplaceSketchSuffix(Render(p, false)) == Render(Quarantine(p), false)
  {
    var a := Join(p[..|p| - 1]) + "/";
    var stem := BaseStem(p);
    JoinSketch(p);
    ReplaceAppendedSuffix(a + stem);
    var q := Quarantine(p);
    assert q[..|q| - 1] == p[..|p| - 1];
    assert Join(q) == a + Last(q);
    ConcatAssoc(a, stem, CorruptedExt);
  }

  /** The text of an accepted target ends with its stem and ".sketch". */
  lemma JoinSketch(p: Path)
    requires HasSketchExt(p)
    ensures Join(p) == Join(p[..|p| - 1]) + "/" + BaseStem(p) + SketchExt
  {
    var a := Join(p[..|p| - 1]) + "/";
    var stem := BaseStem(p);
    assert Join(p) == a + Last(p);
    ConcatAssoc(a, stem, SketchExt);
  }

  lemma ConcatAssoc(a: string, b: string, c: string)
    ensures a + (b + c) == a + b + c
  {
  }

  lemma ReplaceAppendedSuffix(s: string)
    ensures ReplaceSketchSuffix(s + SketchExt) == s + CorruptedExt
  {
    var t := s + SketchExt;
    assert t[|t| - |SketchExt|..] == SketchExt;
    assert t[..|t| - |SketchExt|] == s;
  }

  /** As written, an argument with a trailing separator ("report.sketch/",
      which names an existing directory and passes both the existence and the
      extension checks) is left unchanged by the replacement: the quarantine
      path is the target itself. */
  lemma TrailingSeparatorDefeatsReplacement(p: Path)
    requires HasSketchExt(p)
    ensures ReplaceSketchSuffix(Render(p, true)) == Render(p, true)
    ensures Render(Quarantine(p), true) != Render(p, true)
  {
    var s := Render(p, true);
    assert s[|s| - 1] == '/' != SketchExt[|SketchExt| - 1];
    var q := Quarantine(p);
    JoinInjective(p, q);
    assert Render(q, true)[..|Render(q, true)| - 1] == Join(q);
    assert Render(p, true)[..|Render(p, true)| - 1] == Join(p);
  }

  /** Distinct paths whose components contain no separator render as distinct
      text; here it is enough that they differ only in the last component. */
  lemma JoinInjective(p: Path, q: Path)
    requires |p| == |q| > 0 && p[..|p| - 1] == q[..|q| - 1] && Last(p) != Last(q)
    ensures Join(p) != Join(q)
  {
    var a := Join(p[..|p| - 1]) + "/";
    assert Join(p) == a + Last(p);
    assert Join(q) == a + Last(q);
    assert Join(p)[|a|..] == Last(p);
    assert Join(q)[|a|..] == Last(q);
  }

  /** The name Info-ZIP's `zip` gives the archive it is told to write: ".zip"
      is appended when the text after the last separator has no '.'. */
  function ZipName(s: string): string {
    if LastIndex(s, '.') > LastIndex(s, '/') then s else s + ZipExt
  }

  /** The archive `zip -r "<file>"` writes (fix-file.js:101) for an accepted
      target: the target itself, or, when the argument was written with a
      trailing separator, a ".zip" entry inside it. */
  function ZipArchive(p: Path, trailingSep: bool): (z: Path)
    requires HasSketchExt(p)
    ensures p <= z
    ensures z == p <==> !trailingSep
  {
    if trailingSep then p + [ZipExt] else p
  }

  /** The component view of the archive path agrees with `zip`'s rule on the
      rendered argument: a name ending in ".sketch" keeps its name, and a
      trailing separator leaves an empty last name, which gets ".zip". */
  lemma ZipArchiveMatchesZipName(p: Path, trailingSep: bool)
    requires HasSketchExt(p)
    ensures Render(ZipArchive(p, trailingSep), false) == ZipName(Render(p, trailingSep))
  {
    if trailingSep {
      ZipNameAfterSeparator(Join(p));
      var z := p + [ZipExt];
      assert z[..|z| - 1] == p;
    } else {
      JoinSketch(p);
      ZipNameKeepsSketch(Join(p[..|p| - 1]) + "/" + BaseStem(p));
    }
  }

  /** A name ending in ".sketch" has a dot after its last separator. */
  lemma ZipNameKeepsSketch(s: string)
    ensures ZipName(s + SketchExt) == s + SketchExt
  {
    var t := s + SketchExt;
    var d := |s|;
    assert t[d] == '.';
    forall k | d < k < |t|
      ensures t[k] != '.' && t[k] != '/'
    {
      assert t[k] == SketchExt[k - d];
    }
  }

  /** Text ending in a separator has no dot after it. */
  lemma ZipNameAfterSeparator(s: string)
    ensures ZipName(s + "/") == s + "/" + ZipExt
  {
    var t := s + "/";
    assert t[|s|] == '/';
  }
}
