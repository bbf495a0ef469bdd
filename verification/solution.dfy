/** The solution-tree fold of `create_solution`: each project's path,
    relative to the solution directory, is folded component by component
    into nested directory nodes, ending in a project leaf. */
module Solution {
  import opened Wrappers
  import Paths

  /** A component of a relative path, as `Path::components` yields them. */
  datatype Component = Prefix(prefix: string) | RootDir | CurDir | ParentDir | Normal(name: string)

  datatype Node = Directory(nodes: map<string, Node>) | Project(guid: string)

  datatype SlnError = OutsideSolution | UnexpectedComponent | ProjectUsedAsDirectory

  /** A discovered project: its path relative to the solution directory, and its guid. */
  datatype ProjectEntry = ProjectEntry(components: seq<Component>, guid: string)

  // ---------------------------------------------------------------------
  // Specification

  /** Inserting one project below a directory, component by component:
      a `..` or any other non-normal component is fatal; an intermediate
      name is created as an empty directory when absent, kept when it is a
      directory and fatal when it is a project; the final name is bound to
      the project whatever it was bound to before. */
  function Insert(dir: map<string, Node>, comps: seq<Component>, guid: string): Result<map<string, Node>, SlnError>
    decreases |comps|
  {
    if comps == [] then Ok(dir)
    else match comps[0]
      case ParentDir => Err(OutsideSolution)
      case Normal(name) =>
        if |comps| == 1 then Ok(dir[name := Project(guid)])
        else
          var sub := if name in dir then dir[name] else Directory(map[]);
          (match sub
           case Project(_) => Err(ProjectUsedAsDirectory)
           case Directory(nodes) =>
             (match Insert(nodes, comps[1..], guid)
              case Ok(nodes') => Ok(dir[name := Directory(nodes')])
              case Err(e) => Err(e)))
      case _ => Err(UnexpectedComponent)
  }

  /** All projects inserted in order into an initially empty root. */
  function Build(projects: seq<ProjectEntry>): Result<map<string, Node>, SlnError>
  {
    if projects == [] then Ok(map[])
    else match Build(projects[..|projects| - 1])
      case Ok(root) => Insert(root, projects[|projects| - 1].components, projects[|projects| - 1].guid)
      case Err(e) => Err(e)
  }

  /** The node reached by following `names` from `n`. */
  function Lookup(n: Node, names: seq<string>): Option<Node>
    decreases |names|
  {
    if names == [] then Some(n)
    else match n
      case Project(_) => None
      case Directory(m) => if names[0] in m then Lookup(m[names[0]], names[1..]) else None
  }

  predicate AllNormal(comps: seq<Component>) { forall i :: 0 <= i < |comps| ==> comps[i].Normal? }

  function Names(comps: seq<Component>): (r: seq<string>)
    requires AllNormal(comps)
    ensures |r| == |comps| && forall i :: 0 <= i < |comps| ==> r[i] == comps[i].name
  {
    if comps == [] then [] else [comps[0].name] + Names(comps[1..])
  }

  /** Some non-empty prefix of `names`, `names` itself included, leads to
      a project leaf. */
  predicate ProjectOnPrefix(root: map<string, Node>, names: seq<string>)
  {
    exists j :: 1 <= j <= |names| && Lookup(Directory(root), names[..j]).Some?
                                  && Lookup(Directory(root), names[..j]).value.Project?
  }

  /** Neither path is a prefix of the other: they part somewhere. */
  predicate Diverge(q: seq<string>, names: seq<string>) { !Paths.IsPrefix(q, names) && !Paths.IsPrefix(names, q) }

  // ---------------------------------------------------------------------
  // Properties of one insertion

  /** One level of the descent: a project lies on a prefix iff the first
      name is a project, or a directory with a project on a prefix of the
      rest. */
  lemma {:induction false} ProjectOnPrefixStep(dir: map<string, Node>, names: seq<string>)
    requires |names| >= 1
    ensures ProjectOnPrefix(dir, names) <==>
      (names[0] in dir && (dir[names[0]].Project? ||
        ProjectOnPrefix(dir[names[0]].nodes, names[1..])))
  {
    var name := names[0];
    if ProjectOnPrefix(dir, names) {
      var j :| 1 <= j <= |names| && Lookup(Directory(dir), names[..j]).Some? && Lookup(Directory(dir), names[..j]).value.Project?;
      assert names[..j][0] == name && names[..j][1..] == names[1..][..j - 1];
      assert name in dir;
      if j == 1 {
        assert Lookup(Directory(dir), names[..j]) == Lookup(dir[name], []);
      } else if dir[name].Directory? {
        assert Lookup(Directory(dir[name].nodes), names[1..][..j - 1]) == Lookup(Directory(dir), names[..j]);
        assert ProjectOnPrefix(dir[name].nodes, names[1..]);
      }
    }
    if name in dir && dir[name].Project? {
      assert Lookup(Directory(dir), names[..1]) == Lookup(dir[name], []);
    }
    if name in dir && dir[name].Directory? && ProjectOnPrefix(dir[name].nodes, names[1..]) {
      var j :| 1 <= j <= |names[1..]| && Lookup(Directory(dir[name].nodes), names[1..][..j]).Some? && Lookup(Directory(dir[name].nodes), names[1..][..j]).value.Project?;
      assert names[..j + 1][0] == name && names[..j + 1][1..] == names[1..][..j];
      assert Lookup(Directory(dir), names[..j + 1]) == Lookup(Directory(dir[name].nodes), names[1..][..j]);
    }
  }

  /** A path of normal components is inserted exactly when no proper prefix
      of it is already a project; then its own name holds the project, and
      every proper prefix is a directory. */
  lemma {:induction false} InsertNormal(dir: map<string, Node>, comps: seq<Component>, guid: string)
    requires AllNormal(comps) && |comps| >= 1
    ensures Insert(dir, comps, guid).Ok? <==> !ProjectOnPrefix(dir, Names(comps)[..|comps| - 1])
    ensures Insert(dir, comps, guid).Err? ==> Insert(dir, comps, guid).error == ProjectUsedAsDirectory
    ensures Insert(dir, comps, guid).Ok? ==>
      var root := Directory(Insert(dir, comps, guid).value);
      && Lookup(root, Names(comps)) == Some(Project(guid))
      && forall j :: 0 <= j < |comps| ==> Lookup(root, Names(comps)[..j]).Some? && Lookup(root, Names(comps)[..j]).value.Directory?
    decreases |comps|
  {
    var names := Names(comps);
    var name := comps[0].name;
    if |comps| == 1 {
      var root := Directory(dir[name := Project(guid)]);
      assert names[..0] == [];
      assert Lookup(root, names) == Lookup(Project(guid), []);
    } else {
      var front := names[..|names| - 1];
      assert Names(comps[1..]) == names[1..];
      assert front[0] == name && front[1..] == names[1..][..|comps| - 2];
      ProjectOnPrefixStep(dir, front);
      var sub := if name in dir then dir[name] else Directory(map[]);
      if sub.Directory? {
        InsertNormal(sub.nodes, comps[1..], guid);
        if !(name in dir) {
          assert !ProjectOnPrefix(map[], front[1..]) by {
            forall j | 1 <= j <= |front[1..]| ensures Lookup(Directory(map[]), front[1..][..j]).None? { }
          }
        }
        match Insert(sub.nodes, comps[1..], guid)
        case Err(_) =>
        case Ok(nodes') =>
          var root := Directory(dir[name := Directory(nodes')]);
          assert Lookup(root, names) == Lookup(Directory(nodes'), names[1..]);
          forall j | 0 <= j < |comps|
            ensures Lookup(root, names[..j]).Some? && Lookup(root, names[..j]).value.Directory?
          {
            if j > 0 {
              assert names[..j][0] == name && names[..j][1..] == names[1..][..j - 1];
              assert Lookup(root, names[..j]) == Lookup(Directory(nodes'), names[1..][..j - 1]);
            }
          }
      }
    }
  }

  /** The first non-normal component, reached along a path that no project
      blocks, aborts: `..` as lying outside the solution directory, any other
      kind as unexpected. */
  lemma {:induction false} InsertRejectsComponent(dir: map<string, Node>, comps: seq<Component>, guid: string, j: nat)
    requires j < |comps| && !comps[j].Normal? && AllNormal(comps[..j])
    requires !ProjectOnPrefix(dir, Names(comps[..j]))
    ensures Insert(dir, comps, guid) == Err(if comps[j].ParentDir? then OutsideSolution else UnexpectedComponent)
    decreases j
  {
    if j > 0 {
      var name := comps[0].name;
      var names := Names(comps[..j]);
      assert names[0] == name;
      assert comps[1..][..j - 1] == comps[..j][1..];
      assert Names(comps[1..][..j - 1]) == names[1..];
      ProjectOnPrefixStep(dir, names);
      var sub := if name in dir then dir[name] else Directory(map[]);
      if !(name in dir) {
        assert !ProjectOnPrefix(map[], names[1..]) by {
          forall i | 1 <= i <= |names[1..]| ensures Lookup(Directory(map[]), names[1..][..i]).None? { }
        }
      }
      InsertRejectsComponent(sub.nodes, comps[1..], guid, j - 1);
    }
  }

  /** Every path that parts from the inserted one reaches what it reached
      before: siblings, and the contents of directories that are kept. */
  lemma {:induction false} InsertFrame(dir: map<string, Node>, comps: seq<Component>, guid: string, q: seq<string>)
    requires AllNormal(comps) && Insert(dir, comps, guid).Ok?
    requires Diverge(q, Names(comps))
    ensures Lookup(Directory(Insert(dir, comps, guid).value), q) == Lookup(Directory(dir), q)
    decreases |comps|
  {
    var names := Names(comps);
    var root := Directory(Insert(dir, comps, guid).value);
    var name := comps[0].name;
    if q[0] != name {
    } else if |comps| >= 2 {
      var sub := if name in dir then dir[name] else Directory(map[]);
      var nodes' := Insert(sub.nodes, comps[1..], guid).value;
      assert Names(comps[1..]) == names[1..];
      assert Diverge(q[1..], names[1..]);
      InsertFrame(sub.nodes, comps[1..], guid, q[1..]);
      assert Lookup(root, q) == Lookup(Directory(nodes'), q[1..]);
      if !(name in dir) {
        assert Lookup(Directory(map[]), q[1..]) == None;
      }
    }
  }

  // ---------------------------------------------------------------------
  // The loops of `create_solution`

  /** A directory left behind on the way down, and the name descended into. */
  datatype Frame = Frame(dir: map<string, Node>, name: string)

  /** Rebuild the root from the frames and the directory at the bottom. */
  function Plug(frames: seq<Frame>, bottom: map<string, Node>): map<string, Node>
    decreases |frames|
  {
    if frames == [] then bottom
    else
      var f := frames[|frames| - 1];
      Plug(frames[..|frames| - 1], f.dir[f.name := Directory(bottom)])
  }

  function PlugResult(frames: seq<Frame>, r: Result<map<string, Node>, SlnError>): Result<map<string, Node>, SlnError>
  {
    match r
    case Ok(bottom) => Ok(Plug(frames, bottom))
    case Err(e) => Err(e)
  }

  /** The inner `while let` loop for one project: walk down the tree with a
      cursor, then put the changed directories back together. */
  method InsertProject(root: map<string, Node>, comps: seq<Component>, guid: string)
    returns (r: Result<map<string, Node>, SlnError>)
    ensures r == Insert(root, comps, guid)
  {
    var frames: seq<Frame> := [];
    var dir := root;
    var i := 0;
    while i < |comps|
      invariant 0 <= i <= |comps|
      invariant Insert(root, comps, guid) == PlugResult(frames, Insert(dir, comps[i..], guid))
    {
      assert comps[i..][0] == comps[i] && comps[i..][1..] == comps[i + 1..];
      match comps[i] {
        case ParentDir =>
          return Err(OutsideSolution);
        case Normal(name) =>
          if i + 1 < |comps| {
            var sub := if name in dir then dir[name] else Directory(map[]);
            match sub {
              case Project(_) =>
                return Err(ProjectUsedAsDirectory);
              case Directory(nodes) =>
                assert frames + [Frame(dir, name)] != [];
                assert (frames + [Frame(dir, name)])[..|frames|] == frames;
                frames := frames + [Frame(dir, name)];
                dir := nodes;
            }
          } else {
            dir := dir[name := Project(guid)];
          }
        case _ =>
          return Err(UnexpectedComponent);
      }
      i := i + 1;
    }
    r := Ok(Plug(frames, dir));
  }

  /** `create_solution`: insert every project in discovery order. */
  method CreateSolution(projects: seq<ProjectEntry>) returns (r: Result<map<string, Node>, SlnError>)
    ensures r == Build(projects)
    ensures projects == [] ==> r == Ok(map[])
  {
    var root: map<string, Node> := map[];
    var k := 0;
    while k < |projects|
      invariant 0 <= k <= |projects|
      invariant Build(projects[..k]) == Ok(root)
    {
      assert projects[..k + 1][..k] == projects[..k];
      var next := InsertProject(root, projects[k].components, projects[k].guid);
      match next {
        case Err(e) =>
          BuildStaysFailed(projects, k + 1);
          return Err(e);
        case Ok(root') =>
          root := root';
      }
      k := k + 1;
    }
    assert projects[..k] == projects;
    r := Ok(root);
  }

  /** Once a prefix of the projects fails, the whole build fails with it. */
  lemma {:induction false} BuildStaysFailed(projects: seq<ProjectEntry>, k: nat)
    requires k <= |projects| && Build(projects[..k]).Err?
    ensures Build(projects) == Build(projects[..k])
    decreases |projects| - k
  {
    if k < |projects| {
      assert projects[..k + 1][..k] == projects[..k];
      BuildStaysFailed(projects, k + 1);
    } else {
      assert projects[..k] == projects;
    }
  }

  /** The last project always lands where its path says, because the final
      component is inserted unconditionally. */
  lemma LastProjectLands(projects: seq<ProjectEntry>)
    requires projects != [] && Build(projects).Ok?
    requires AllNormal(projects[|projects| - 1].components) && |projects[|projects| - 1].components| >= 1
    ensures Lookup(Directory(Build(projects).value), Names(projects[|projects| - 1].components))
         == Some(Project(projects[|projects| - 1].guid))
  {
    var last := projects[|projects| - 1];
    InsertNormal(Build(projects[..|projects| - 1]).value, last.components, last.guid);
  }

  /** A project whose path names an existing directory replaces that
      directory and everything below it: the collision is not detected. */
  lemma DirectoryThenProjectOverwrites()
    ensures Build([ProjectEntry([Normal("src"), Normal("Foo"), Normal("Foo.csproj")], "a"),
                   ProjectEntry([Normal("src"), Normal("Foo")], "b")])
         == Ok(map["src" := Directory(map["Foo" := Project("b")])])
  {
    var ps := [ProjectEntry([Normal("src"), Normal("Foo"), Normal("Foo.csproj")], "a"),
               ProjectEntry([Normal("src"), Normal("Foo")], "b")];
    assert ps[..1] == [ps[0]] && [ps[0]][..0] == [];
    var inner := map["Foo" := Directory(map["Foo.csproj" := Project("a")])];
    assert ps[0].components[1..] == [Normal("Foo"), Normal("Foo.csproj")];
    assert ps[0].components[1..][1..] == [Normal("Foo.csproj")];
    assert Build(ps[..1]) == Ok(map["src" := Directory(inner)]);
    assert ps[1].components[1..] == [Normal("Foo")];
    assert inner["Foo" := Project("b")] == map["Foo" := Project("b")];
    var root := map["src" := Directory(inner)];
    assert root["src" := Directory(map["Foo" := Project("b")])] == map["src" := Directory(map["Foo" := Project("b")])];
    assert Insert(root, ps[1].components, "b") == Ok(map["src" := Directory(map["Foo" := Project("b")])]);
    assert Build(ps) == Insert(root, ps[1].components, "b");
  }

  /** In the other order the same two paths are fatal. */
  lemma ProjectThenDirectoryFails()
    ensures Build([ProjectEntry([Normal("src"), Normal("Foo")], "b"),
                   ProjectEntry([Normal("src"), Normal("Foo"), Normal("Foo.csproj")], "a")])
         == Err(ProjectUsedAsDirectory)
  {
    var ps := [ProjectEntry([Normal("src"), Normal("Foo")], "b"),
               ProjectEntry([Normal("src"), Normal("Foo"), Normal("Foo.csproj")], "a")];
    assert ps[..1] == [ps[0]] && [ps[0]][..0] == [];
    var root := map["src" := Directory(map["Foo" := Project("b")])];
    assert Build(ps[..1]) == Ok(root);
    var comps := ps[1].components;
    assert comps[1..] == [Normal("Foo"), Normal("Foo.csproj")];
    assert Insert(map["Foo" := Project("b")], comps[1..], "a") == Err(ProjectUsedAsDirectory);
  }
}
