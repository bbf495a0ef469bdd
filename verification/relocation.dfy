/** One `mv` invocation (`MoveCommand::execute`): resolve the moved
    project and its destination, refuse an existing destination directory
    and nested projects, move with version control, fix the references of
    every other project, then rewrite the moved project's own document.

    The filesystem and version control are values: the project documents
    by path, the set of paths that exist, and the log of `git` commands. */
module Relocation {
  import opened Wrappers
  import opened Paths
  import opened Xml
  import opened OutOfTree
  import References
  import Outbound
  import Identity

  /** What `std::fs::metadata` says the source argument is. */
  datatype SourceKind = IsFile | IsDir | Neither

  /** The panics of `execute`, one per reason. */
  datatype MoveError =
    | NotFileNorDirectory
    | NoProjectInDirectory
    | MoreThanOneProjectInDirectory
    | NoParent
    | NoFileName
    | TargetExists
    | ContainsNestedProjects(nested: seq<Path>)
    | Unreadable(path: Path)

  datatype GitOp = Mv(src: Path, dst: Path) | Add(path: Path)

  datatype Workspace = Workspace(docs: map<Path, Node>, fs: set<Path>, log: seq<GitOp>)

  datatype Plan = Plan(oldDir: Path, oldFile: Path, newDir: Path, newFile: Path)

  predicate Distinct(ps: seq<Path>) { forall i, j :: 0 <= i < j < |ps| ==> ps[i] != ps[j] }

  // ---------------------------------------------------------------------
  // Resolving the two arguments

  /** The moved directory and project file: a file argument is the project
      and its parent the directory; a directory argument must hold exactly
      one project file (`inDir`, as the directory listing finds them). */
  function ResolveSource(source: Path, kind: SourceKind, inDir: seq<Path>): (r: Result<(Path, Path), MoveError>)
    ensures kind == IsFile ==> (r.Ok? <==> |source| > 0) && (r.Ok? ==> r.value == (Parent(source), source))
    ensures kind == IsDir ==> (r.Ok? <==> |inDir| == 1) && (r.Ok? ==> r.value == (source, inDir[0]))
    ensures kind == IsDir && |inDir| > 1 ==> r == Err(MoreThanOneProjectInDirectory)
    ensures kind == Neither ==> r == Err(NotFileNorDirectory)
  {
    match kind
    case IsFile => if |source| == 0 then Err(NoParent) else Ok((Parent(source), source))
    case IsDir =>
      if |inDir| >= 2 then Err(MoreThanOneProjectInDirectory)
      else if |inDir| == 0 then Err(NoProjectInDirectory)
      else Ok((source, inDir[0]))
    case Neither => Err(NotFileNorDirectory)
  }

  /** The destination argument joined onto the working directory (unless it
      is rooted) and simplified. */
  function NewTarget(cwd: Path, to: string): (r: Path)
    ensures AllNoSep(cwd) ==> IsNormal(r)
  {
    var rel := Simplify(Split(to));
    assert AllNoSep(rel) by { assert AllNoSep([]); }
    AbsSimplify((if HasRoot(to) then [] else cwd) + rel)
  }

  /** A destination written relative to the working directory names the
      path it was written for. */
  lemma NewTargetRelative(cwd: Path, target: Path)
    requires IsNormal(cwd) && IsNormal(target)
    ensures NewTarget(cwd, Join(RelativePath(cwd, target))) == target
  {
    var rel := RelativePath(cwd, target);
    RelativePathJoinable(cwd, target);
    SplitJoin(rel);
    JoinNotRooted(rel);
    RelativePathSimplified(cwd, target);
    SimplifySimplified(rel);
    RelativePathResolves(cwd, target);
  }

  /** A rooted destination ignores the working directory. */
  lemma NewTargetRooted(cwd: Path, target: Path)
    requires IsNormal(target)
    ensures NewTarget(cwd, "/" + Join(target)) == target
  {
    RootedJoin(target);
    assert [] + target == target;
    SimplifyNormal(target);
    assert target == [] || target[0] != "..";
  }

  /** The new directory and project file. A target with the `csproj`
      extension is the file itself; any other target is the directory, and
      the file inside it is named after that directory. */
  function Destination(target: Path): (r: Result<(Path, Path), MoveError>)
    ensures r.Ok? <==> |target| > 0 && (Extension(FileName(target)) == Some("csproj") || FileName(target) != "..")
    ensures r.Ok? ==> |r.value.1| > 0 && Parent(r.value.1) == r.value.0
    ensures r.Ok? && Extension(FileName(target)) == Some("csproj") ==> r.value.1 == target
    ensures r.Ok? && Extension(FileName(target)) != Some("csproj") ==>
      && r.value.0 == target
      && (FileName(target) != "" ==>
            Extension(FileName(r.value.1)) == Some("csproj") && FileStem(FileName(r.value.1)) == FileName(target))
    ensures r.Ok? && IsNormal(target) ==> IsNormal(r.value.0) && IsNormal(r.value.1)
  {
    if |target| == 0 then Err(NoFileName)
    else
      var name := FileName(target);
      if Extension(name) == Some("csproj") then Ok((Parent(target), target))
      else if name == ".." then Err(NoFileName)
      else
        var file := target + [name + ".csproj"];
        ProjectFileInDirectory(target);
        Ok((target, file))
  }

  /** The project file created inside a destination directory: its parent
      is that directory and its stem is the directory's name. */
  lemma ProjectFileInDirectory(dir: Path)
    requires |dir| > 0
    ensures Parent(dir + [FileName(dir) + ".csproj"]) == dir
    ensures FileName(dir + [FileName(dir) + ".csproj"]) == FileName(dir) + ".csproj"
    ensures FileName(dir) != "" ==>
      Extension(FileName(dir) + ".csproj") == Some("csproj") && FileStem(FileName(dir) + ".csproj") == FileName(dir)
    ensures IsNormal(dir) ==> IsNormal(dir + [FileName(dir) + ".csproj"])
  {
    var name := FileName(dir);
    var file := dir + [name + ".csproj"];
    assert file[..|file| - 1] == dir;
    if name != "" {
      CsprojName(name);
    }
    if IsNormal(dir) {
      assert IsNormalComponent(dir[|dir| - 1]);
      assert (name + ".csproj")[0] == name[0];
      assert forall i :: 0 <= i < |file| ==> IsNormalComponent(file[i]) by {
        forall i | 0 <= i < |file|
          ensures IsNormalComponent(file[i])
        {
          if i < |dir| { assert file[i] == dir[i]; }
        }
      }
    }
  }

  /** Both arguments resolved. */
  function PlanMove(source: Path, kind: SourceKind, inDir: seq<Path>, cwd: Path, to: string): Result<Plan, MoveError>
  {
    match ResolveSource(source, kind, inDir)
    case Err(e) => Err(e)
    case Ok((oldDir, oldFile)) =>
      match Destination(NewTarget(cwd, to))
      case Err(e) => Err(e)
      case Ok((newDir, newFile)) => Ok(Plan(oldDir, oldFile, newDir, newFile))
  }

  // ---------------------------------------------------------------------
  // The nested-project guard

  /** The discovered projects other than the moved one that lie inside the
      moved directory. */
  function NestedProjects(paths: seq<Path>, oldDir: Path, oldFile: Path): (r: seq<Path>)
    ensures forall i :: 0 <= i < |r| ==> r[i] in paths && IsPrefix(oldDir, r[i]) && r[i] != oldFile
    ensures forall i :: 0 <= i < |paths| && IsPrefix(oldDir, paths[i]) && paths[i] != oldFile ==> paths[i] in r
  {
    if paths == [] then []
    else
      var rest := NestedProjects(paths[1..], oldDir, oldFile);
      assert forall i :: 1 <= i < |paths| ==> paths[i] == paths[1..][i - 1];
      if IsPrefix(oldDir, paths[0]) && paths[0] != oldFile then [paths[0]] + rest else rest
  }

  // ---------------------------------------------------------------------
  // Moving with version control

  /** Where a path lies after `git mv src dst`. */
  function MovePath(p: Path, src: Path, dst: Path): (r: Path)
    ensures IsPrefix(src, p) ==> IsPrefix(dst, r) && r[|dst|..] == p[|src|..]
    ensures !IsPrefix(src, p) ==> r == p
  {
    if IsPrefix(src, p) then dst + p[|src|..] else p
  }

  /** The existing paths after `git mv src dst`. */
  function MovedFs(fs: set<Path>, src: Path, dst: Path): set<Path>
  {
    set p | p in fs :: MovePath(p, src, dst)
  }

  /** The existing paths after both moves of `execute`: the directory, then
      the project file when its name has to change. */
  function FsAfterMove(fs: set<Path>, p: Plan): set<Path>
    requires |p.oldFile| > 0
  {
    var moved := MovedFs(fs, p.oldDir, p.newDir);
    var current := p.newDir + [FileName(p.oldFile)];
    if current != p.newFile then MovedFs(moved, current, p.newFile) else moved
  }

  function MoveOps(p: Plan): seq<GitOp>
    requires |p.oldFile| > 0
  {
    var current := p.newDir + [FileName(p.oldFile)];
    [Mv(p.oldDir, p.newDir)] + (if current != p.newFile then [Mv(current, p.newFile)] else [])
  }

  function Adds(ps: seq<Path>): (r: seq<GitOp>)
    ensures |r| == |ps| && forall i :: 0 <= i < |ps| ==> r[i] == Add(ps[i])
  {
    if ps == [] then [] else [Add(ps[0])] + Adds(ps[1..])
  }

  // ---------------------------------------------------------------------
  // Inbound fixup

  /** The referencing projects whose file is written and staged, in
      discovery order. */
  function InboundStaged(paths: seq<Path>, docs: map<Path, Node>, oldFile: Path, newFile: Path): seq<Path>
    requires forall i :: 0 <= i < |paths| ==> |paths[i]| > 0
  {
    if paths == [] then []
    else
      var p := paths[|paths| - 1];
      InboundStaged(paths[..|paths| - 1], docs, oldFile, newFile)
        + (if p != oldFile && p in docs && References.FixReferences(docs[p], Parent(p), oldFile, newFile).1 then [p] else [])
  }

  /** A referencing project is staged exactly when one of its references
      resolved to the moved project. */
  lemma {:induction false} InboundStagedMembers(paths: seq<Path>, docs: map<Path, Node>, oldFile: Path, newFile: Path, q: Path)
    requires forall i :: 0 <= i < |paths| ==> |paths[i]| > 0
    ensures q in InboundStaged(paths, docs, oldFile, newFile) <==>
      q in paths && q != oldFile && q in docs
      && References.AnyResolvesTo(References.Includes(docs[q]), Parent(q), oldFile)
  {
    if paths != [] {
      var init := paths[..|paths| - 1];
      assert paths == init + [paths[|paths| - 1]];
      InboundStagedMembers(init, docs, oldFile, newFile, q);
    }
  }

  /** What the inbound loop leaves in a referencing project's file. */
  function FixedDoc(p: Path, paths: seq<Path>, docs: map<Path, Node>, oldFile: Path, newFile: Path): Node
    requires p in docs && |p| > 0
  {
    if p in paths && p != oldFile then References.FixReferences(docs[p], Parent(p), oldFile, newFile).0 else docs[p]
  }

  /** Every project in `ps` other than the moved one has a document. */
  predicate Readable(ps: seq<Path>, docs: map<Path, Node>, oldFile: Path)
  {
    forall q :: q in ps && q != oldFile ==> q in docs
  }

  /** How far the inbound loop gets: the index of the first discovered
      project, other than the moved one, that has no document, or the
      number of projects when every one has. */
  function Processed(paths: seq<Path>, docs: map<Path, Node>, oldFile: Path): (n: nat)
    ensures n <= |paths|
    ensures Readable(paths[..n], docs, oldFile)
    ensures n < |paths| ==> paths[n] != oldFile && paths[n] !in docs
  {
    if paths == [] then 0
    else if paths[0] != oldFile && paths[0] !in docs then 0
    else
      var m := Processed(paths[1..], docs, oldFile);
      assert paths[..m + 1] == [paths[0]] + paths[1..][..m];
      m + 1
  }

  /** A loop that has read the first `k` projects without a failure stops
      at `k` exactly when the project at `k` has no document. */
  lemma ProcessedStops(paths: seq<Path>, docs: map<Path, Node>, oldFile: Path, k: nat)
    requires k <= |paths| && Readable(paths[..k], docs, oldFile)
    ensures k <= Processed(paths, docs, oldFile)
    ensures k < |paths| && paths[k] != oldFile && paths[k] !in docs ==> Processed(paths, docs, oldFile) == k
  {
    var n := Processed(paths, docs, oldFile);
    if k < n {
      assert paths[..n][k] == paths[k];
    }
  }

  /** When every project is readable the loop gets through all of them. */
  lemma ProcessedAll(paths: seq<Path>, docs: map<Path, Node>, oldFile: Path)
    requires Readable(paths[..|paths|], docs, oldFile)
    ensures Processed(paths, docs, oldFile) == |paths|
    ensures !exists i :: 0 <= i < |paths| && paths[i] != oldFile && paths[i] !in docs
  {
    assert paths[..|paths|] == paths;
    ProcessedStops(paths, docs, oldFile, |paths|);
    assert forall i :: 0 <= i < |paths| ==> paths[i] in paths;
  }

  /** The state of the inbound loop once the first `k` discovered projects
      are processed: the document of each of them, the moved project's
      excepted, is its fixed version, every other document is as it was,
      and the edited ones are staged in discovery order. */
  predicate InboundAfter(paths: seq<Path>, k: nat, docs: map<Path, Node>, oldFile: Path, newFile: Path,
                         fixed: map<Path, Node>, staged: seq<Path>)
    requires k <= |paths|
    requires forall i :: 0 <= i < |paths| ==> |paths[i]| > 0
    requires forall p :: p in docs ==> |p| > 0
  {
    && fixed.Keys == docs.Keys
    && (forall q :: q in docs ==> fixed[q] == FixedDoc(q, paths[..k], docs, oldFile, newFile))
    && staged == InboundStaged(paths[..k], docs, oldFile, newFile)
  }

  /** The loop over the discovered projects: every one but the moved
      project is read, fixed, and written back and staged only if edited.
      A project without a document stops the loop; what was written and
      staged before it stays. */
  method FixInbound(paths: seq<Path>, docs: map<Path, Node>, oldFile: Path, newFile: Path)
    returns (fixed: map<Path, Node>, staged: seq<Path>, err: Option<MoveError>)
    requires forall i :: 0 <= i < |paths| ==> |paths[i]| > 0
    requires Distinct(paths)
    requires forall p :: p in docs ==> |p| > 0
    ensures err.Some? <==> exists i :: 0 <= i < |paths| && paths[i] != oldFile && paths[i] !in docs
    ensures err.Some? ==> err.value == Unreadable(paths[Processed(paths, docs, oldFile)])
    ensures InboundAfter(paths, Processed(paths, docs, oldFile), docs, oldFile, newFile, fixed, staged)
  {
    fixed := docs;
    staged := [];
    var k := 0;
    while k < |paths|
      invariant 0 <= k <= |paths|
      invariant InboundAfter(paths, k, docs, oldFile, newFile, fixed, staged)
      invariant Readable(paths[..k], docs, oldFile)
    {
      var p := paths[k];
      if p == oldFile {
        InboundStep(paths, k, docs, fixed, staged, fixed, staged, oldFile, newFile);
        k := k + 1;
        continue;
      }
      if p !in docs {
        ProcessedStops(paths, docs, oldFile, k);
        return fixed, staged, Some(Unreadable(p));
      }
      var (doc, edited) := References.FixReferences(fixed[p], Parent(p), oldFile, newFile);
      InboundStep(paths, k, docs, fixed, staged,
                  if edited then fixed[p := doc] else fixed,
                  if edited then staged + [p] else staged, oldFile, newFile);
      if edited {
        fixed := fixed[p := doc];
        staged := staged + [p];
      }
      k := k + 1;
    }
    ProcessedAll(paths, docs, oldFile);
    err := None;
  }

  /** One more project processed: it is appended to the staged list
      exactly when it was edited. */
  lemma InboundStagedStep(paths: seq<Path>, k: nat, docs: map<Path, Node>, oldFile: Path, newFile: Path)
    requires k < |paths|
    requires forall i :: 0 <= i < |paths| ==> |paths[i]| > 0
    ensures InboundStaged(paths[..k + 1], docs, oldFile, newFile)
      == InboundStaged(paths[..k], docs, oldFile, newFile)
         + (if paths[k] != oldFile && paths[k] in docs
              && References.FixReferences(docs[paths[k]], Parent(paths[k]), oldFile, newFile).1
            then [paths[k]] else [])
  {
    assert paths[..k + 1][..k] == paths[..k];
  }

  /** The loop body keeps both invariants: the processed project's file
      becomes its fixed version, no other file changes, and the project is
      staged exactly when it was edited. */
  lemma InboundStep(paths: seq<Path>, k: nat, docs: map<Path, Node>,
                    current: map<Path, Node>, staged: seq<Path>,
                    next: map<Path, Node>, staged': seq<Path>, oldFile: Path, newFile: Path)
    requires k < |paths| && Distinct(paths)
    requires forall i :: 0 <= i < |paths| ==> |paths[i]| > 0
    requires forall p :: p in docs ==> |p| > 0
    requires paths[k] == oldFile || paths[k] in docs
    requires InboundAfter(paths, k, docs, oldFile, newFile, current, staged)
    requires Readable(paths[..k], docs, oldFile)
    requires paths[k] == oldFile ==> next == current && staged' == staged
    requires paths[k] != oldFile ==>
      var fix := References.FixReferences(current[paths[k]], Parent(paths[k]), oldFile, newFile);
      next == (if fix.1 then current[paths[k] := fix.0] else current)
      && staged' == (if fix.1 then staged + [paths[k]] else staged)
    ensures InboundAfter(paths, k + 1, docs, oldFile, newFile, next, staged')
    ensures Readable(paths[..k + 1], docs, oldFile)
  {
    InboundDocsStep(paths, k, docs, current, next, oldFile, newFile);
    InboundStagedNext(paths, k, docs, current, staged, staged', oldFile, newFile);
    ReadableStep(paths, k, docs, oldFile);
  }

  /** A readable project extends a readable prefix. */
  lemma ReadableStep(paths: seq<Path>, k: nat, docs: map<Path, Node>, oldFile: Path)
    requires k < |paths| && Readable(paths[..k], docs, oldFile)
    requires paths[k] == oldFile || paths[k] in docs
    ensures Readable(paths[..k + 1], docs, oldFile)
  {
    assert paths[..k + 1] == paths[..k] + [paths[k]];
  }

  /** The staged half of `InboundStep`. */
  lemma InboundStagedNext(paths: seq<Path>, k: nat, docs: map<Path, Node>, current: map<Path, Node>,
                          staged: seq<Path>, staged': seq<Path>, oldFile: Path, newFile: Path)
    requires k < |paths| && Distinct(paths)
    requires forall i :: 0 <= i < |paths| ==> |paths[i]| > 0
    requires forall p :: p in docs ==> |p| > 0
    requires paths[k] == oldFile || paths[k] in docs
    requires current.Keys == docs.Keys
    requires paths[k] in docs ==> current[paths[k]] == FixedDoc(paths[k], paths[..k], docs, oldFile, newFile)
    requires staged == InboundStaged(paths[..k], docs, oldFile, newFile)
    requires paths[k] == oldFile ==> staged' == staged
    requires paths[k] != oldFile ==>
      var fix := References.FixReferences(current[paths[k]], Parent(paths[k]), oldFile, newFile);
      staged' == (if fix.1 then staged + [paths[k]] else staged)
    ensures staged' == InboundStaged(paths[..k + 1], docs, oldFile, newFile)
  {
    FixedDocStep(paths, k, docs, oldFile, newFile);
    InboundStagedStep(paths, k, docs, oldFile, newFile);
  }

  /** The document half of `InboundStep`. */
  lemma InboundDocsStep(paths: seq<Path>, k: nat, docs: map<Path, Node>,
                        current: map<Path, Node>, next: map<Path, Node>, oldFile: Path, newFile: Path)
    requires k < |paths| && Distinct(paths)
    requires forall i :: 0 <= i < |paths| ==> |paths[i]| > 0
    requires forall p :: p in docs ==> |p| > 0
    requires paths[k] == oldFile || paths[k] in docs
    requires current.Keys == docs.Keys
    requires forall q :: q in docs ==> current[q] == FixedDoc(q, paths[..k], docs, oldFile, newFile)
    requires paths[k] == oldFile ==> next == current
    requires paths[k] != oldFile ==>
      var fix := References.FixReferences(current[paths[k]], Parent(paths[k]), oldFile, newFile);
      next == (if fix.1 then current[paths[k] := fix.0] else current)
    ensures next.Keys == docs.Keys
    ensures forall q :: q in docs ==> next[q] == FixedDoc(q, paths[..k + 1], docs, oldFile, newFile)
  {
    FixedDocStep(paths, k, docs, oldFile, newFile);
    var p := paths[k];
    forall q | q in docs
      ensures next[q] == FixedDoc(q, paths[..k + 1], docs, oldFile, newFile)
    {
      if q != p {
        assert next[q] == current[q];
      }
    }
  }

  /** One more project processed: only its own file changes. */
  lemma FixedDocStep(paths: seq<Path>, k: nat, docs: map<Path, Node>, oldFile: Path, newFile: Path)
    requires k < |paths| && Distinct(paths)
    requires forall i :: 0 <= i < |paths| ==> |paths[i]| > 0
    requires forall p :: p in docs ==> |p| > 0
    ensures paths[k] !in paths[..k]
    ensures paths[..k + 1][..k] == paths[..k]
    ensures forall q :: q in docs && q != paths[k] ==>
      FixedDoc(q, paths[..k + 1], docs, oldFile, newFile) == FixedDoc(q, paths[..k], docs, oldFile, newFile)
    ensures paths[k] in docs ==>
      FixedDoc(paths[k], paths[..k], docs, oldFile, newFile) == docs[paths[k]]
      && FixedDoc(paths[k], paths[..k + 1], docs, oldFile, newFile)
         == (if paths[k] != oldFile then References.FixReferences(docs[paths[k]], Parent(paths[k]), oldFile, newFile).0 else docs[paths[k]])
  {
    assert paths[..k + 1] == paths[..k] + [paths[k]];
  }

  // ---------------------------------------------------------------------
  // The whole command

  /** What `execute` leaves behind once the move is allowed. Both `git mv`
      commands are done. The other discovered projects are fixed in order
      up to the first one without a document, which is the error; what was
      written and staged before it stays. Success needs every other project
      and the moved project itself to have a document; then the moved file
      is rewritten by the outbound visit and staged if it was edited. After
      a failure the moved file keeps its old content. */
  predicate Relocated(p: Plan, discovered: seq<Path>, ws: Workspace, out: Workspace, err: Option<MoveError>)
    requires |p.oldFile| > 0
    requires forall i :: 0 <= i < |discovered| ==> |discovered[i]| > 0
    requires forall q :: q in ws.docs ==> |q| > 0
  {
    var others := ws.docs - {p.oldFile};
    var n := Processed(discovered, others, p.oldFile);
    && (err.None? <==> Readable(discovered, ws.docs, p.oldFile) && p.oldFile in ws.docs)
    && (n < |discovered| ==> err == Some(Unreadable(discovered[n])))
    && (n == |discovered| && p.oldFile !in ws.docs ==> err == Some(Unreadable(p.newFile)))
    && out.fs == FsAfterMove(ws.fs, p)
    && out.docs.Keys == ws.docs.Keys - {p.oldFile} + (if p.oldFile in ws.docs then {p.newFile} else {})
    && (forall q :: q in ws.docs && q != p.oldFile && q != p.newFile ==>
          out.docs[q] == FixedDoc(q, discovered[..n], ws.docs, p.oldFile, p.newFile))
    && (p.oldFile in ws.docs ==>
          out.docs[p.newFile]
          == if err.None?
             then Outbound.Visit(ws.docs[p.oldFile], FileStem(FileName(p.oldFile)), p.oldDir, p.newDir, FsAfterMove(ws.fs, p)).0
             else ws.docs[p.oldFile])
    && out.log == ws.log + MoveOps(p)
         + Adds(InboundStaged(discovered[..n], others, p.oldFile, p.newFile))
         + (if err.None? && !Outbound.Quiet(ws.docs[p.oldFile]) then [Add(p.newFile)] else [])
  }

  /** `execute`. The discovered projects are canonical paths, each found
      once; the working directory is canonical. A refusal leaves the
      workspace as it was; a failure after the moves (a project file that
      cannot be read) leaves the moves and whatever was written and staged
      before it, as the panic of the tool does. */
  method Execute(source: Path, kind: SourceKind, inDir: seq<Path>, cwd: Path, to: string,
                 discovered: seq<Path>, ws: Workspace)
    returns (out: Workspace, err: Option<MoveError>)
    requires IsNormal(cwd)
    requires forall i :: 0 <= i < |inDir| ==> |inDir[i]| > 0
    requires forall i :: 0 <= i < |discovered| ==> |discovered[i]| > 0 && IsNormal(discovered[i])
    requires Distinct(discovered)
    requires forall p :: p in ws.docs ==> |p| > 0
    ensures PlanMove(source, kind, inDir, cwd, to).Err? ==>
      out == ws && err == Some(PlanMove(source, kind, inDir, cwd, to).error)
    ensures PlanMove(source, kind, inDir, cwd, to).Ok? && PlanMove(source, kind, inDir, cwd, to).value.newDir in ws.fs
            ==> out == ws && err == Some(TargetExists)
    ensures PlanMove(source, kind, inDir, cwd, to).Ok? ==>
      var p := PlanMove(source, kind, inDir, cwd, to).value;
      var nested := NestedProjects(discovered, p.oldDir, p.oldFile);
      p.newDir !in ws.fs && nested != [] ==> out == ws && err == Some(ContainsNestedProjects(nested))
    ensures PlanMove(source, kind, inDir, cwd, to).Ok? ==>
      var p := PlanMove(source, kind, inDir, cwd, to).value;
      p.newDir !in ws.fs && NestedProjects(discovered, p.oldDir, p.oldFile) == [] ==>
      |p.oldFile| > 0 && IsNormal(p.newFile) && Relocated(p, discovered, ws, out, err)
  {
    var plan := PlanMove(source, kind, inDir, cwd, to);
    if plan.Err? {
      return ws, Some(plan.error);
    }
    var p := plan.value;
    var target := NewTarget(cwd, to);
    assert Destination(target) == Ok((p.newDir, p.newFile));
    if p.newDir in ws.fs {
      return ws, Some(TargetExists);
    }
    var nested := NestedProjects(discovered, p.oldDir, p.oldFile);
    if nested != [] {
      return ws, Some(ContainsNestedProjects(nested));
    }
    out, err := Relocate(p, discovered, ws);
  }

  /** The part of `execute` after its refusals: the two `git mv` commands,
      the inbound loop, then the moved project's own file. */
  method Relocate(p: Plan, discovered: seq<Path>, ws: Workspace) returns (out: Workspace, err: Option<MoveError>)
    requires |p.oldFile| > 0
    requires forall i :: 0 <= i < |discovered| ==> |discovered[i]| > 0
    requires Distinct(discovered)
    requires forall q :: q in ws.docs ==> |q| > 0
    ensures Relocated(p, discovered, ws, out, err)
  {
    // The two `git mv` commands.
    var fs := FsAfterMove(ws.fs, p);
    var log := ws.log + MoveOps(p);
    // The project files of the other projects.
    var others := ws.docs - {p.oldFile};
    var docs, staged, failure := FixInbound(discovered, others, p.oldFile, p.newFile);
    log := log + Adds(staged);
    ReadableOthers(discovered, ws.docs, p.oldFile);
    forall q | q in ws.docs && q != p.oldFile && q != p.newFile
      ensures docs[q] == FixedDoc(q, discovered[..Processed(discovered, others, p.oldFile)], ws.docs, p.oldFile, p.newFile)
    {
      assert q in others;
    }
    if failure.Some? {
      if p.oldFile in ws.docs {
        docs := docs[p.newFile := ws.docs[p.oldFile]];
      }
      return Workspace(docs, fs, log), failure;
    }
    // The moved project's own file.
    if p.oldFile !in ws.docs {
      return Workspace(docs, fs, log), Some(Unreadable(p.newFile));
    }
    var name := FileStem(FileName(p.oldFile));
    var (doc, edited) := Outbound.Visit(ws.docs[p.oldFile], name, p.oldDir, p.newDir, fs);
    docs := docs[p.newFile := doc];
    if edited {
      log := log + [Add(p.newFile)];
    }
    out, err := Workspace(docs, fs, log), None;
  }

  /** After a successful move the moved project has its identity: every
      `Project` element of its document has a `RootNamespace`, or has no
      `PropertyGroup` to hold one. When the root is the only `Project`
      element, the document is the root's backfill named after the old
      file's stem, with every visited value rewritten. */
  lemma MovedProjectGetsIdentity(p: Plan, discovered: seq<Path>, ws: Workspace, out: Workspace, err: Option<MoveError>)
    requires |p.oldFile| > 0
    requires forall i :: 0 <= i < |discovered| ==> |discovered[i]| > 0
    requires forall q :: q in ws.docs ==> |q| > 0
    requires Relocated(p, discovered, ws, out, err) && err.None?
    ensures p.oldFile in ws.docs && p.newFile in out.docs
    ensures Outbound.Settled(out.docs[p.newFile])
    ensures var doc := ws.docs[p.oldFile];
            doc.Element? && doc.name == "Project" && Outbound.ProjectAttrsOf(doc.children) == [] ==>
            out.docs[p.newFile]
            == Outbound.RewriteValues(Identity.EnsureRootNamespaceAndAssemblyName(doc, FileStem(FileName(p.oldFile))).0,
                                      p.oldDir, p.newDir, FsAfterMove(ws.fs, p))
  {
    var doc := ws.docs[p.oldFile];
    var stem := FileStem(FileName(p.oldFile));
    Outbound.VisitSettles(doc, stem, p.oldDir, p.newDir, FsAfterMove(ws.fs, p));
    if doc.Element? && doc.name == "Project" && Outbound.ProjectAttrsOf(doc.children) == [] {
      Outbound.VisitProjectRoot(doc, stem, p.oldDir, p.newDir, FsAfterMove(ws.fs, p));
    }
  }

  /** Every project but the moved one has a document, whether or not the
      moved one's is counted. */
  lemma ReadableOthers(ps: seq<Path>, docs: map<Path, Node>, oldFile: Path)
    ensures Readable(ps, docs - {oldFile}, oldFile) <==> Readable(ps, docs, oldFile)
    ensures Processed(ps, docs - {oldFile}, oldFile) == |ps| <==> Readable(ps, docs, oldFile)
  {
    var n := Processed(ps, docs - {oldFile}, oldFile);
    if n == |ps| {
      assert ps[..n] == ps;
    } else {
      assert ps[n] in ps;
    }
  }

  /** Reference integrity after a move: in every other discovered project,
      each `Include` that named the moved project's source path names its new
      path. */
  lemma MoveKeepsReferences(p: Plan, discovered: seq<Path>, docs: map<Path, Node>, q: Path, i: nat)
    requires IsNormal(p.newFile)
    requires q in discovered && q in docs && |q| > 0 && IsNormal(q) && q != p.oldFile
    requires i < |References.Includes(docs[q])|
    requires Resolve(Parent(q), References.Includes(docs[q])[i]) == p.oldFile
    ensures i < |References.Includes(FixedDoc(q, discovered, docs, p.oldFile, p.newFile))|
    ensures Resolve(Parent(q), References.Includes(FixedDoc(q, discovered, docs, p.oldFile, p.newFile))[i])
         == p.newFile
  {
    References.RetargetedReferencesResolveToNewFile(docs[q], Parent(q), p.oldFile, p.newFile, i);
  }
}
