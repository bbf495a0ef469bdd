/** The outbound relative-path rewrite of the moved project:
    `looks_like_out_of_tree_relative_path` and `try_rewrite_relative_path`. */
module OutOfTree {
  import opened Paths

  /** The substring `..` directly followed by a separator starts at `i`. */
  predicate DotDotSepAt(v: string, i: int)
    requires 0 <= i
  {
    i + 2 < |v| && v[i] == '.' && v[i + 1] == '.' && IsSep(v[i + 2])
  }

  /** The regular expression `\.\.[/\\]` matches somewhere in `v`: scanned
      position by position, as an unanchored search does. */
  predicate LooksOutOfTree(v: string)
  {
    if |v| < 3 then false
    else (v[0] == '.' && v[1] == '.' && IsSep(v[2])) || LooksOutOfTree(v[1..])
  }

  /** The heuristic fires exactly when `../` or `..\` occurs at any position,
      on a component boundary or not. */
  lemma {:induction false} LooksOutOfTreeIff(v: string)
    ensures LooksOutOfTree(v) <==> exists i :: 0 <= i && DotDotSepAt(v, i)
  {
    if |v| >= 3 {
      LooksOutOfTreeIff(v[1..]);
      if v[0] == '.' && v[1] == '.' && IsSep(v[2]) {
        assert DotDotSepAt(v, 0);
      }
      if LooksOutOfTree(v[1..]) {
        var i :| 0 <= i && DotDotSepAt(v[1..], i);
        assert DotDotSepAt(v, i + 1);
      }
      if exists i :: 0 <= i && DotDotSepAt(v, i) {
        var i :| 0 <= i && DotDotSepAt(v, i);
        if i > 0 {
          assert DotDotSepAt(v[1..], i - 1);
        } else {
          assert v[0] == '.' && v[1] == '.' && IsSep(v[2]);
        }
      }
    }
  }

  /** The heuristic is not a parse: a name that merely ends in `..` fires it,
      and a lone `..` does not. */
  lemma LooksOutOfTreeMisfires()
    ensures LooksOutOfTree("v1../x")
    ensures !LooksOutOfTree("..")
  {
    assert DotDotSepAt("v1../x", 2);
    LooksOutOfTreeIff("v1../x");
  }

  /** Where a stored value resolves from the old project directory. */
  function OldResolution(val: string, oldDir: Path): Path
  {
    AbsSimplify(oldDir + Simplify(Split(val)))
  }

  /** The condition under which the value is overwritten. */
  predicate Rewrites(val: string, oldDir: Path, fs: set<Path>)
  {
    LooksOutOfTree(val) && !HasRoot(val) && OldResolution(val, oldDir) in fs
  }

  /** `try_rewrite_relative_path`: the new value and the returned flag. The
      flag starts out true once the heuristic fires, so it is true whether or
      not the value changes. `fs` is the set of paths that exist. */
  function TryRewriteRelativePath(val: string, oldDir: Path, newDir: Path, fs: set<Path>): (r: (string, bool))
    ensures r.1 <==> LooksOutOfTree(val)
    ensures !Rewrites(val, oldDir, fs) ==> r.0 == val
  {
    if !LooksOutOfTree(val) then (val, false)
    else if HasRoot(val) then (val, true)
    else
      var oldAbs := OldResolution(val, oldDir);
      if oldAbs in fs then (Join(RelativePath(newDir, oldAbs)), true)
      else (val, true)
  }

  /** A rewritten value, resolved from the new directory, names the same
      existing path that the old value named from the old directory. */
  lemma RewriteKeepsTarget(val: string, oldDir: Path, newDir: Path, fs: set<Path>)
    requires IsNormal(oldDir) && IsNormal(newDir)
    requires Rewrites(val, oldDir, fs)
    ensures Resolve(newDir, TryRewriteRelativePath(val, oldDir, newDir, fs).0) == OldResolution(val, oldDir)
  {
    assert AllNoSep(oldDir + Simplify(Split(val)));
    ResolveRelative(newDir, OldResolution(val, oldDir));
  }
}
