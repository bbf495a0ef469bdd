/** Lexical path arithmetic on component sequences: splitting and joining
    path strings, `simplify`, `relative_path`, `has_root`, and the file-name
    helpers `extension` and `file_stem` of Rust's `Path`.

    An absolute path is the sequence of its components after the root; a
    relative path is its sequence of components. */
module Paths {
  import opened Wrappers

  type Path = seq<string>

  /** Both separators the tool accepts in stored paths. */
  predicate IsSep(c: char) { c == '/' || c == '\\' }

  predicate NoSep(s: string) { forall i :: 0 <= i < |s| ==> !IsSep(s[i]) }

  /** A component that names an entry: not empty, not `.`, not `..`, no separator. */
  predicate IsNormalComponent(c: string) { c != "" && c != "." && c != ".." && NoSep(c) }

  /** A path made of naming components only (what canonical paths are). */
  predicate IsNormal(p: Path) { forall i :: 0 <= i < |p| ==> IsNormalComponent(p[i]) }

  /** The shape `simplify` produces: no empty or `.` component, and `..` only
      in a leading run. */
  predicate IsSimplified(p: Path)
  {
    forall i :: 0 <= i < |p| ==>
      p[i] != "" && p[i] != "." && (p[i] == ".." ==> forall j :: 0 <= j < i ==> p[j] == "..")
  }

  predicate IsPrefix(a: Path, b: Path) { |a| <= |b| && b[..|a|] == a }

  function Parent(p: Path): Path
    requires |p| > 0
  {
    p[..|p| - 1]
  }

  function FileName(p: Path): string
    requires |p| > 0
  {
    p[|p| - 1]
  }

  // ---------------------------------------------------------------------
  // Strings and component sequences

  /** The segments of `s` between separators (at least one, possibly empty). */
  function SplitAll(s: string): (r: seq<string>)
    ensures |r| >= 1
    ensures forall i :: 0 <= i < |r| ==> NoSep(r[i])
  {
    if |s| == 0 then [""]
    else if IsSep(s[0]) then [""] + SplitAll(s[1..])
    else
      var t := SplitAll(s[1..]);
      [[s[0]] + t[0]] + t[1..]
  }

  /** The components of a path string; the empty string has none. */
  function Split(s: string): (r: Path)
    ensures forall i :: 0 <= i < |r| ==> NoSep(r[i])
  {
    if s == "" then [] else SplitAll(s)
  }

  /** A path string with `/` between the components. */
  function Join(p: Path): string
  {
    if |p| == 0 then ""
    else if |p| == 1 then p[0]
    else p[0] + "/" + Join(p[1..])
  }

  /** Components that `Join` can write so that `Split` reads them back. */
  predicate Joinable(p: Path) { forall i :: 0 <= i < |p| ==> p[i] != "" && NoSep(p[i]) }

  /** `has_root`: the string starts with a separator. */
  predicate HasRoot(s: string) { |s| > 0 && IsSep(s[0]) }

  lemma {:induction false} SplitAllPlain(a: string)
    requires NoSep(a)
    ensures SplitAll(a) == [a]
  {
    if |a| > 0 {
      SplitAllPlain(a[1..]);
      assert [a[0]] + a[1..] == a;
    }
  }

  lemma {:induction false} SplitAllSep(a: string, rest: string)
    requires NoSep(a)
    ensures SplitAll(a + "/" + rest) == [a] + SplitAll(rest)
  {
    var s := a + "/" + rest;
    if |a| == 0 {
      assert s[1..] == rest;
    } else {
      assert s[1..] == a[1..] + "/" + rest;
      SplitAllSep(a[1..], rest);
      assert [a[0]] + a[1..] == a;
    }
  }

  lemma {:induction false} JoinNonEmpty(p: Path)
    requires Joinable(p) && |p| > 0
    ensures Join(p) != "" && Join(p)[0] == p[0][0]
  {
  }

  /** Reading back what `Join` wrote gives the same components. */
  lemma {:induction false} SplitJoin(p: Path)
    requires Joinable(p)
    ensures Split(Join(p)) == p
  {
    if |p| == 1 {
      SplitAllPlain(p[0]);
    } else if |p| > 1 {
      JoinNonEmpty(p[1..]);
      SplitAllSep(p[0], Join(p[1..]));
      SplitJoin(p[1..]);
      assert [p[0]] + p[1..] == p;
    }
  }

  // ---------------------------------------------------------------------
  // simplify

  /** One step of lexical simplification. */
  function Push(acc: Path, c: string): Path
  {
    if c == "" || c == "." then acc
    else if c == ".." && |acc| > 0 && acc[|acc| - 1] != ".." then acc[..|acc| - 1]
    else acc + [c]
  }

  /** Every component is free of separators, as `Split` leaves them. */
  predicate AllNoSep(p: Path) { forall i :: 0 <= i < |p| ==> NoSep(p[i]) }

  function SimplifyFrom(acc: Path, p: Path): (r: Path)
    requires IsSimplified(acc)
    ensures IsSimplified(r)
    ensures AllNoSep(acc) && AllNoSep(p) ==> AllNoSep(r)
    decreases |p|
  {
    if p == [] then acc else SimplifyFrom(Push(acc, p[0]), p[1..])
  }

  /** `simplify`: drop empty and `.` components, let `..` cancel the
      component before it, keep the `..` that cancel nothing. */
  function Simplify(p: Path): (r: Path)
    ensures IsSimplified(r)
  {
    SimplifyFrom([], p)
  }

  /** `..` at the root stays at the root. */
  function DropDots(p: Path): (r: Path)
    ensures IsSimplified(p) ==> IsSimplified(r) && (r == [] || r[0] != "..")
    ensures AllNoSep(p) ==> AllNoSep(r)
  {
    if p != [] && p[0] == ".." then DropDots(p[1..]) else p
  }

  /** `simplify` of an absolute path: as `Simplify`, and a `..` with nothing
      left to cancel names the root itself. */
  function AbsSimplify(p: Path): (r: Path)
    ensures AllNoSep(p) ==> IsNormal(r)
  {
    var r := DropDots(Simplify(p));
    assert AllNoSep(p) ==> AllNoSep(r) by {
      if AllNoSep(p) { assert AllNoSep([]); }
    }
    r
  }

  function Dots(n: nat): (r: Path)
    ensures |r| == n && forall i :: 0 <= i < n ==> r[i] == ".."
  {
    seq(n, _ => "..")
  }

  lemma {:induction false} SimplifyFromNormal(acc: Path, q: Path)
    requires IsSimplified(acc) && IsNormal(q)
    ensures SimplifyFrom(acc, q) == acc + q
    decreases |q|
  {
    if q != [] {
      SimplifyFromNormal(acc + [q[0]], q[1..]);
      assert acc + [q[0]] + q[1..] == acc + q;
    }
  }

  lemma {:induction false} SimplifyFromDots(acc: Path, m: nat)
    requires IsNormal(acc) && m <= |acc|
    ensures SimplifyFrom(acc, Dots(m)) == acc[..|acc| - m]
  {
    if m > 0 {
      assert Dots(m)[1..] == Dots(m - 1);
      SimplifyFromDots(acc[..|acc| - 1], m - 1);
      assert acc[..|acc| - 1][..|acc| - 1 - (m - 1)] == acc[..|acc| - m];
    }
  }

  lemma {:induction false} SimplifyFromAppend(acc: Path, p: Path, q: Path)
    requires IsSimplified(acc)
    ensures SimplifyFrom(acc, p + q) == SimplifyFrom(SimplifyFrom(acc, p), q)
    decreases |p|
  {
    if p == [] {
      assert p + q == q;
    } else {
      assert (p + q)[0] == p[0] && (p + q)[1..] == p[1..] + q;
      SimplifyFromAppend(Push(acc, p[0]), p[1..], q);
    }
  }

  /** Simplifying a canonical path changes nothing. */
  lemma SimplifyNormal(p: Path)
    requires IsNormal(p)
    ensures Simplify(p) == p
  {
    SimplifyFromNormal([], p);
  }

  // ---------------------------------------------------------------------
  // relative_path

  function CommonPrefixLen(a: Path, b: Path): (k: nat)
    ensures k <= |a| && k <= |b| && a[..k] == b[..k]
    ensures k < |a| && k < |b| ==> a[k] != b[k]
  {
    if |a| == 0 || |b| == 0 || a[0] != b[0] then 0
    else
      var k := 1 + CommonPrefixLen(a[1..], b[1..]);
      assert a[..k] == [a[0]] + a[1..][..k - 1];
      assert b[..k] == [b[0]] + b[1..][..k - 1];
      k
  }

  /** `relative_path(base, target)`: climb out of `base` to the longest
      common prefix, then descend into the rest of `target`. */
  function RelativePath(base: Path, target: Path): Path
  {
    var k := CommonPrefixLen(base, target);
    Dots(|base| - k) + target[k..]
  }

  /** The contract the move relies on: the relative path, joined onto its
      base and simplified, names the target again. */
  lemma RelativePathResolves(base: Path, target: Path)
    requires IsNormal(base) && IsNormal(target)
    ensures AbsSimplify(base + RelativePath(base, target)) == target
  {
    RelativePathSimplifies(base, target);
    assert target == [] || target[0] != "..";
  }

  lemma RelativePathSimplifies(base: Path, target: Path)
    requires IsNormal(base) && IsNormal(target)
    ensures Simplify(base + RelativePath(base, target)) == target
  {
    var k := CommonPrefixLen(base, target);
    NormalSlices(target, k);
    ClimbThenDescend(base, |base| - k, target[k..]);
    assert base + RelativePath(base, target) == base + Dots(|base| - k) + target[k..];
    assert base[..k] + target[k..] == target;
  }

  /** Pieces of a canonical path are canonical. */
  lemma NormalSlices(p: Path, k: nat)
    requires IsNormal(p) && k <= |p|
    ensures IsNormal(p[..k]) && IsNormal(p[k..])
  {
    assert forall i :: 0 <= i < |p| - k ==> p[k..][i] == p[k + i];
  }

  /** A canonical path is in the shape `simplify` produces. */
  lemma NormalIsSimplified(p: Path)
    requires IsNormal(p)
    ensures IsSimplified(p)
  {
  }

  /** Climbing `m` levels out of a canonical path, then descending into a
      canonical `rest`, simplifies to the shortened path followed by `rest`. */
  lemma ClimbThenDescend(base: Path, m: nat, rest: Path)
    requires IsNormal(base) && m <= |base| && IsNormal(rest)
    ensures Simplify(base + Dots(m) + rest) == base[..|base| - m] + rest
  {
    SimplifyFromAppend([], base + Dots(m), rest);
    Climb(base, m);
    NormalSlices(base, |base| - m);
    NormalIsSimplified(base[..|base| - m]);
    SimplifyFromNormal(base[..|base| - m], rest);
  }

  /** Climbing `m` levels out of a canonical path drops its last `m`
      components. */
  lemma Climb(base: Path, m: nat)
    requires IsNormal(base) && m <= |base|
    ensures Simplify(base + Dots(m)) == base[..|base| - m]
  {
    SimplifyFromAppend([], base, Dots(m));
    SimplifyFromNormal([], base);
    assert [] + base == base;
    SimplifyFromDots(base, m);
  }

  /** The components of a relative path between canonical paths can be
      written out as a string and read back. */
  lemma RelativePathJoinable(base: Path, target: Path)
    requires IsNormal(target)
    ensures Joinable(RelativePath(base, target))
  {
  }

  /** A relative path to a canonical target is already in the shape
      `simplify` produces. */
  lemma RelativePathSimplified(base: Path, target: Path)
    requires IsNormal(target)
    ensures IsSimplified(RelativePath(base, target))
  {
    var k := CommonPrefixLen(base, target);
    var r := RelativePath(base, target);
    forall i | 0 <= i < |r|
      ensures r[i] != "" && r[i] != "." && (r[i] == ".." ==> forall j :: 0 <= j < i ==> r[j] == "..")
    {
      if i >= |base| - k {
        assert r[i] == target[k + i - (|base| - k)];
      }
    }
  }

  lemma {:induction false} SimplifyFromSimplified(acc: Path, q: Path)
    requires IsSimplified(acc) && IsSimplified(acc + q)
    ensures SimplifyFrom(acc, q) == acc + q
    decreases |q|
  {
    if q != [] {
      var c := q[0];
      assert (acc + q)[|acc|] == c;
      assert forall j :: 0 <= j < |acc| ==> (acc + q)[j] == acc[j];
      assert Push(acc, c) == acc + [c];
      assert acc + [c] + q[1..] == acc + q;
      assert IsSimplified(acc + [c]) by {
        assert forall i :: 0 <= i <= |acc| ==> (acc + [c])[i] == (acc + q)[i];
      }
      SimplifyFromSimplified(acc + [c], q[1..]);
    }
  }

  /** Simplifying what is already simplified changes nothing. */
  lemma SimplifySimplified(p: Path)
    requires IsSimplified(p)
    ensures Simplify(p) == p
  {
    assert [] + p == p;
    SimplifyFromSimplified([], p);
  }

  // ---------------------------------------------------------------------
  // Joining a stored path onto a base

  /** `[base, s].iter().collect::<PathBuf>().simplify()` for an absolute
      `base`: a rooted `s` replaces the base, any other is appended to it. */
  function Resolve(base: Path, s: string): (r: Path)
    ensures AllNoSep(base) ==> IsNormal(r)
  {
    var p := (if HasRoot(s) then [] else base) + Split(s);
    assert AllNoSep(base) ==> AllNoSep(p) by {
      assert AllNoSep([]);
    }
    AbsSimplify(p)
  }

  /** What `Join` writes is never rooted. */
  lemma JoinNotRooted(p: Path)
    requires Joinable(p)
    ensures !HasRoot(Join(p))
  {
    if |p| > 0 {
      JoinNonEmpty(p);
    }
  }

  /** The relative path from `base` to a canonical target, written out,
      resolves from `base` to that target. */
  lemma ResolveRelative(base: Path, target: Path)
    requires IsNormal(base) && IsNormal(target)
    ensures Resolve(base, Join(RelativePath(base, target))) == target
  {
    RelativePathJoinable(base, target);
    SplitJoin(RelativePath(base, target));
    JoinNotRooted(RelativePath(base, target));
    RelativePathResolves(base, target);
  }

  /** A canonical path written out behind a separator is rooted and reads
      back, once simplified, as that path. */
  lemma RootedJoin(target: Path)
    requires IsNormal(target)
    ensures HasRoot("/" + Join(target))
    ensures Simplify(Split("/" + Join(target))) == target
  {
    var s := "/" + Join(target);
    assert s[1..] == Join(target);
    if target == [] {
      assert Split(s) == ["", ""];
      assert ["", ""][1..] == [""] && [""][1..] == [];
    } else {
      JoinNonEmpty(target);
      SplitJoin(target);
      assert Split(s) == [""] + target;
      assert ([""] + target)[1..] == target;
      SimplifyFromNormal([], target);
      assert [] + target == target;
    }
  }

  /** A rooted value ignores the base it is resolved from. */
  lemma ResolveRooted(base: Path, target: Path)
    requires IsNormal(target)
    ensures Resolve(base, "/" + Join(target)) == target
  {
    var s := "/" + Join(target);
    RootedJoin(target);
    assert s[1..] == Join(target);
    if target == [] {
      assert Split(s) == ["", ""];
    } else {
      JoinNonEmpty(target);
      SplitJoin(target);
      assert Split(s) == [""] + target;
    }
    assert [] + Split(s) == Split(s);
    assert target == [] || target[0] != "..";
  }

  // ---------------------------------------------------------------------
  // File names

  /** Index of the last `.` in `name`, or -1. */
  function LastDot(name: string): (r: int)
    ensures -1 <= r < |name|
    ensures r >= 0 ==> name[r] == '.'
    ensures forall j :: r < j < |name| ==> name[j] != '.'
  {
    if |name| == 0 then -1
    else if name[|name| - 1] == '.' then |name| - 1
    else LastDot(name[..|name| - 1])
  }

  /** `extension`: what follows the last `.`, unless that dot starts the name. */
  function Extension(name: string): Option<string>
  {
    var i := LastDot(name);
    if i <= 0 then None else Some(name[i + 1..])
  }

  /** `file_stem`: the name without its extension. */
  function FileStem(name: string): string
  {
    var i := LastDot(name);
    if i <= 0 then name else name[..i]
  }

  /** Stem and extension put back together give the name. */
  lemma StemAndExtension(name: string)
    requires Extension(name).Some?
    ensures FileStem(name) + "." + Extension(name).value == name
  {
    var i := LastDot(name);
    assert name == name[..i] + [name[i]] + name[i + 1..];
  }

  /** A name built as `<stem>.csproj` has the `csproj` extension and gives
      back that stem. */
  lemma {:induction false} CsprojName(stem: string)
    requires stem != ""
    ensures Extension(stem + ".csproj") == Some("csproj")
    ensures FileStem(stem + ".csproj") == stem
  {
    var name := stem + ".csproj";
    assert name[|stem|] == '.';
    assert forall j :: |stem| < j < |name| ==> name[j] != '.';
    LastDotIs(name, |stem|);
    assert name[|stem| + 1..] == "csproj";
    assert name[..|stem|] == stem;
  }

  lemma {:induction false} LastDotIs(name: string, k: nat)
    requires k < |name| && name[k] == '.'
    requires forall j :: k < j < |name| ==> name[j] != '.'
    ensures LastDot(name) == k
  {
    if k < |name| - 1 {
      var pre := name[..|name| - 1];
      assert forall j :: k < j < |pre| ==> pre[j] != '.';
      LastDotIs(pre, k);
    }
  }
}
