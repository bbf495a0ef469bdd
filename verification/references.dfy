/** Inbound fixup of one referencing project: the `process_tree` visit that
    retargets every `ProjectReference/@Include` that resolved to the moved
    project file. Only elements are visited; text and other nodes are kept. */
module References {
  import opened Paths
  import opened Xml

  /** The string written in place of a reference to the moved project. */
  function NewReference(dir: Path, newFile: Path): string
  {
    Join(RelativePath(dir, newFile))
  }

  /** An element the visitor rewrites when its `Include` matches. */
  predicate IsReference(n: Node)
  {
    n.Element? && n.name == "ProjectReference" && "Include" in n.attrs
  }

  /** What a single `Include` value becomes. */
  function FixedInclude(value: string, dir: Path, oldFile: Path, newFile: Path): string
  {
    if Resolve(dir, value) == oldFile then NewReference(dir, newFile) else value
  }

  /** The `Include` values of the reference elements, in pre-order. */
  function Includes(n: Node): seq<string>
  {
    match n
    case Element(_, attrs, children) =>
      (if IsReference(n) then [attrs["Include"]] else []) + IncludesOf(children)
    case _ => []
  }

  function IncludesOf(ns: seq<Node>): seq<string>
  {
    if ns == [] then [] else Includes(ns[0]) + IncludesOf(ns[1..])
  }

  /** The document with every reference's `Include` blanked: what the fixup
      must leave exactly as it was. */
  function Strip(n: Node): Node
  {
    match n
    case Element(name, attrs, children) =>
      Element(name, if IsReference(n) then attrs["Include" := ""] else attrs, StripAll(children))
    case _ => n
  }

  function StripAll(ns: seq<Node>): seq<Node>
  {
    if ns == [] then [] else [Strip(ns[0])] + StripAll(ns[1..])
  }

  /** `after` is `before` with each value passed through `FixedInclude`. */
  predicate FixedPointwise(before: seq<string>, after: seq<string>, dir: Path, oldFile: Path, newFile: Path)
  {
    |after| == |before| &&
    forall i :: 0 <= i < |before| ==> after[i] == FixedInclude(before[i], dir, oldFile, newFile)
  }

  /** Some value resolves to the moved project's old path. */
  predicate AnyResolvesTo(includes: seq<string>, dir: Path, oldFile: Path)
  {
    exists i :: 0 <= i < |includes| && Resolve(dir, includes[i]) == oldFile
  }

  lemma FixedConcat(a1: seq<string>, b1: seq<string>, a2: seq<string>, b2: seq<string>,
                    dir: Path, oldFile: Path, newFile: Path)
    requires FixedPointwise(a1, b1, dir, oldFile, newFile) && FixedPointwise(a2, b2, dir, oldFile, newFile)
    ensures FixedPointwise(a1 + a2, b1 + b2, dir, oldFile, newFile)
  {
    forall i | 0 <= i < |a1 + a2|
      ensures (b1 + b2)[i] == FixedInclude((a1 + a2)[i], dir, oldFile, newFile)
    {
      if i >= |a1| {
        assert (a1 + a2)[i] == a2[i - |a1|] && (b1 + b2)[i] == b2[i - |a1|];
      }
    }
  }

  lemma AnyResolvesConcat(a: seq<string>, b: seq<string>, dir: Path, oldFile: Path)
    ensures AnyResolvesTo(a + b, dir, oldFile) <==> AnyResolvesTo(a, dir, oldFile) || AnyResolvesTo(b, dir, oldFile)
  {
    if AnyResolvesTo(a, dir, oldFile) {
      var i :| 0 <= i < |a| && Resolve(dir, a[i]) == oldFile;
      assert (a + b)[i] == a[i];
    }
    if AnyResolvesTo(b, dir, oldFile) {
      var i :| 0 <= i < |b| && Resolve(dir, b[i]) == oldFile;
      assert (a + b)[|a| + i] == b[i];
    }
    if AnyResolvesTo(a + b, dir, oldFile) {
      var i :| 0 <= i < |a + b| && Resolve(dir, (a + b)[i]) == oldFile;
      if i >= |a| {
        assert (a + b)[i] == b[i - |a|];
      }
    }
  }

  /** The visitor on one subtree: each matching `Include` is retargeted, the
      flag says whether any was, and nothing else changes. */
  function FixReferences(n: Node, dir: Path, oldFile: Path, newFile: Path): (r: (Node, bool))
    ensures Strip(r.0) == Strip(n)
    ensures FixedPointwise(Includes(n), Includes(r.0), dir, oldFile, newFile)
    ensures r.1 <==> AnyResolvesTo(Includes(n), dir, oldFile)
    ensures !r.1 ==> r.0 == n
    decreases n, 1
  {
    match n
    case Element(name, attrs, children) =>
      var hit := IsReference(n) && Resolve(dir, attrs["Include"]) == oldFile;
      var attrs' := if hit then attrs["Include" := NewReference(dir, newFile)] else attrs;
      var (children', edited) := FixAll(children, dir, oldFile, newFile);
      var own := if IsReference(n) then [attrs["Include"]] else [];
      var own' := if IsReference(n) then [attrs'["Include"]] else [];
      assert IsReference(Element(name, attrs', children')) == IsReference(n);
      assert hit ==> attrs'["Include" := ""] == attrs["Include" := ""];
      assert AnyResolvesTo(own, dir, oldFile) <==> hit by {
        if IsReference(n) { assert own[0] == attrs["Include"]; }
      }
      FixedConcat(own, own', IncludesOf(children), IncludesOf(children'), dir, oldFile, newFile);
      AnyResolvesConcat(own, IncludesOf(children), dir, oldFile);
      (Element(name, attrs', children'), hit || edited)
    case _ => (n, false)
  }

  function FixAll(ns: seq<Node>, dir: Path, oldFile: Path, newFile: Path): (r: (seq<Node>, bool))
    ensures StripAll(r.0) == StripAll(ns)
    ensures FixedPointwise(IncludesOf(ns), IncludesOf(r.0), dir, oldFile, newFile)
    ensures r.1 <==> AnyResolvesTo(IncludesOf(ns), dir, oldFile)
    ensures !r.1 ==> r.0 == ns
    decreases ns, 0
  {
    if ns == [] then ([], false)
    else
      var (head, e1) := FixReferences(ns[0], dir, oldFile, newFile);
      var (tail, e2) := FixAll(ns[1..], dir, oldFile, newFile);
      var r := [head] + tail;
      assert r[0] == head && r[1..] == tail;
      FixedConcat(Includes(ns[0]), Includes(head), IncludesOf(ns[1..]), IncludesOf(tail), dir, oldFile, newFile);
      AnyResolvesConcat(Includes(ns[0]), IncludesOf(ns[1..]), dir, oldFile);
      assert !(e1 || e2) ==> r == ns by {
        if !(e1 || e2) { assert ns == [ns[0]] + ns[1..]; }
      }
      (r, e1 || e2)
  }

  /** Reference integrity: every `Include` that named the moved project
      before the fixup names its new path afterwards. */
  lemma RetargetedReferencesResolveToNewFile(n: Node, dir: Path, oldFile: Path, newFile: Path, i: nat)
    requires IsNormal(dir) && IsNormal(newFile)
    requires i < |Includes(n)| && Resolve(dir, Includes(n)[i]) == oldFile
    ensures i < |Includes(FixReferences(n, dir, oldFile, newFile).0)|
    ensures Resolve(dir, Includes(FixReferences(n, dir, oldFile, newFile).0)[i]) == newFile
  {
    ResolveRelative(dir, newFile);
  }

  /** A fixed document has nothing left to fix: once the moved project has a
      new path, a second pass edits nothing. */
  lemma FixReferencesSettles(n: Node, dir: Path, oldFile: Path, newFile: Path)
    requires IsNormal(dir) && IsNormal(newFile) && oldFile != newFile
    ensures !FixReferences(FixReferences(n, dir, oldFile, newFile).0, dir, oldFile, newFile).1
  {
    var before := Includes(n);
    var after := Includes(FixReferences(n, dir, oldFile, newFile).0);
    forall i | 0 <= i < |after|
      ensures Resolve(dir, after[i]) != oldFile
    {
      if Resolve(dir, before[i]) == oldFile {
        RetargetedReferencesResolveToNewFile(n, dir, oldFile, newFile, i);
      }
    }
  }
}
