/** The `depth_first_visit_nodes` pass over the moved project's document:
    a `Project` element gets the identity backfill, every other element has
    each attribute value passed through the relative-path rewrite, and every
    text node likewise. The visit is pre-order, so the elements the backfill
    appends are visited too. */
module Outbound {
  import opened Paths
  import opened Xml
  import opened OutOfTree
  import opened Identity

  /** A termination measure: a `Project` element is charged for the two
      property elements (three nodes' weight each) its backfill may append. */
  function Weight(n: Node): nat
  {
    match n
    case Element(name, _, children) => 1 + (if name == "Project" then 6 else 0) + WeightOf(children)
    case _ => 1
  }

  function WeightOf(ns: seq<Node>): (w: nat)
    ensures w >= 1
  {
    if ns == [] then 1 else Weight(ns[0]) + WeightOf(ns[1..])
  }

  lemma {:induction false} WeightOfConcat(a: seq<Node>, b: seq<Node>)
    ensures WeightOf(a + b) == WeightOf(a) + WeightOf(b) - 1
  {
    if a != [] {
      assert (a + b)[0] == a[0] && (a + b)[1..] == a[1..] + b;
      WeightOfConcat(a[1..], b);
    } else {
      assert a + b == b;
    }
  }

  lemma {:induction false} WeightOfUpdate(ns: seq<Node>, k: nat, c: Node)
    requires k < |ns|
    ensures WeightOf(ns[k := c]) == WeightOf(ns) - Weight(ns[k]) + Weight(c)
  {
    if k > 0 {
      assert ns[k := c][1..] == ns[1..][k - 1 := c];
      WeightOfUpdate(ns[1..], k - 1, c);
    } else {
      assert ns[k := c][1..] == ns[1..];
    }
  }

  /** The backfill appends no more than a `Project` element is charged for. */
  lemma BackfillWeight(e: Node, name: string)
    requires e.Element?
    ensures WeightOf(EnsureRootNamespaceAndAssemblyName(e, name).0.children) <= WeightOf(e.children) + 6
  {
    var r := EnsureRootNamespaceAndAssemblyName(e, name);
    match FirstPropertyGroup(e.children)
    case None =>
    case Some(k) =>
      var g := e.children[k];
      var added: seq<Node> := if r.1 then [Property("RootNamespace", name), Property("AssemblyName", name)] else [];
      WeightOfConcat(g.children, added);
      assert WeightOf(added) <= 7 by {
        if r.1 {
          assert WeightOf([Text(name)]) == 2;
          assert Weight(Property("RootNamespace", name)) == 3;
          assert Weight(Property("AssemblyName", name)) == 3;
          assert added[1..] == [Property("AssemblyName", name)];
          assert WeightOf([Property("AssemblyName", name)]) == 4;
          assert added[0] == Property("RootNamespace", name);
        }
      }
      assert Weight(g.(children := g.children + added)) == Weight(g) + WeightOf(added) - 1;
      assert r.0.children == e.children[k := g.(children := g.children + added)];
      WeightOfUpdate(e.children, k, g.(children := g.children + added));
  }

  /** Every attribute value passed through the relative-path rewrite. */
  function RewriteAttrs(attrs: map<string, string>, oldDir: Path, newDir: Path, fs: set<Path>): (r: (map<string, string>, bool))
    ensures r.0.Keys == attrs.Keys
    ensures forall k :: k in attrs ==> r.0[k] == TryRewriteRelativePath(attrs[k], oldDir, newDir, fs).0
    ensures r.1 <==> exists k :: k in attrs && LooksOutOfTree(attrs[k])
  {
    (map k | k in attrs :: TryRewriteRelativePath(attrs[k], oldDir, newDir, fs).0,
     exists k :: k in attrs && TryRewriteRelativePath(attrs[k], oldDir, newDir, fs).1)
  }

  /** The document leaves the visit untouched: no value that is visited
      looks out of tree, and every `Project` element either has no
      `PropertyGroup` or already has a `RootNamespace`. */
  predicate Quiet(n: Node)
  {
    match n
    case Element(name, attrs, children) =>
      (if name == "Project"
       then FirstPropertyGroup(children).None? || AnyGroupHas(children, "RootNamespace")
       else forall k :: k in attrs ==> !LooksOutOfTree(attrs[k]))
      && QuietAll(children)
    case Text(t) => !LooksOutOfTree(t)
    case Other(_) => true
  }

  predicate QuietAll(ns: seq<Node>)
  {
    ns == [] || (Quiet(ns[0]) && QuietAll(ns[1..]))
  }

  // ---------------------------------------------------------------------
  // What the visit leaves in place and what it rewrites

  /** Every `Project` element has its identity already, or no
      `PropertyGroup` to hold it. */
  predicate Settled(n: Node)
  {
    match n
    case Element(name, _, children) =>
      (name == "Project" ==> FirstPropertyGroup(children).None? || AnyGroupHas(children, "RootNamespace"))
      && SettledAll(children)
    case _ => true
  }

  predicate SettledAll(ns: seq<Node>)
  {
    ns == [] || (Settled(ns[0]) && SettledAll(ns[1..]))
  }

  /** The attributes of the `Project` elements, in pre-order. */
  function ProjectAttrs(n: Node): seq<map<string, string>>
  {
    match n
    case Element(name, attrs, children) => (if name == "Project" then [attrs] else []) + ProjectAttrsOf(children)
    case _ => []
  }

  function ProjectAttrsOf(ns: seq<Node>): seq<map<string, string>>
  {
    if ns == [] then [] else ProjectAttrs(ns[0]) + ProjectAttrsOf(ns[1..])
  }

  /** The text values, in pre-order. */
  function Texts(n: Node): seq<string>
  {
    match n
    case Element(_, _, children) => TextsOf(children)
    case Text(t) => [t]
    case Other(_) => []
  }

  function TextsOf(ns: seq<Node>): seq<string>
  {
    if ns == [] then [] else Texts(ns[0]) + TextsOf(ns[1..])
  }

  /** The attributes of the elements other than `Project`, in pre-order. */
  function AttrMaps(n: Node): seq<map<string, string>>
  {
    match n
    case Element(name, attrs, children) => (if name == "Project" then [] else [attrs]) + AttrMapsOf(children)
    case _ => []
  }

  function AttrMapsOf(ns: seq<Node>): seq<map<string, string>>
  {
    if ns == [] then [] else AttrMaps(ns[0]) + AttrMapsOf(ns[1..])
  }

  /** The document with every value the visit may rewrite blanked: text,
      and the attribute values of elements other than `Project`. */
  function Blank(n: Node): Node
  {
    match n
    case Element(name, attrs, children) =>
      Element(name, if name == "Project" then attrs else map k | k in attrs :: "", BlankAll(children))
    case Text(_) => Text("")
    case Other(_) => n
  }

  function BlankAll(ns: seq<Node>): seq<Node>
  {
    if ns == [] then [] else [Blank(ns[0])] + BlankAll(ns[1..])
  }

  /** `after` is `before` with each text passed through the rewrite. */
  predicate TextsRewritten(before: seq<string>, after: seq<string>, oldDir: Path, newDir: Path, fs: set<Path>)
  {
    |after| == |before| &&
    forall i :: 0 <= i < |before| ==> after[i] == TryRewriteRelativePath(before[i], oldDir, newDir, fs).0
  }

  /** `after` has the keys of `before`, each value passed through the rewrite. */
  predicate RewrittenFrom(before: map<string, string>, after: map<string, string>, oldDir: Path, newDir: Path, fs: set<Path>)
  {
    after.Keys == before.Keys &&
    forall k :: k in before ==> after[k] == TryRewriteRelativePath(before[k], oldDir, newDir, fs).0
  }

  /** `after` is `before` with each attribute map passed through the rewrite. */
  predicate AttrsRewritten(before: seq<map<string, string>>, after: seq<map<string, string>>,
                           oldDir: Path, newDir: Path, fs: set<Path>)
  {
    |after| == |before| &&
    forall i :: 0 <= i < |before| ==> RewrittenFrom(before[i], after[i], oldDir, newDir, fs)
  }

  lemma TextsRewrittenConcat(a1: seq<string>, b1: seq<string>, a2: seq<string>, b2: seq<string>,
                             oldDir: Path, newDir: Path, fs: set<Path>)
    requires TextsRewritten(a1, b1, oldDir, newDir, fs) && TextsRewritten(a2, b2, oldDir, newDir, fs)
    ensures TextsRewritten(a1 + a2, b1 + b2, oldDir, newDir, fs)
  {
    forall i | |a1| <= i < |a1 + a2|
      ensures (b1 + b2)[i] == TryRewriteRelativePath((a1 + a2)[i], oldDir, newDir, fs).0
    {
      assert (a1 + a2)[i] == a2[i - |a1|] && (b1 + b2)[i] == b2[i - |a1|];
    }
  }

  lemma AttrsRewrittenConcat(a1: seq<map<string, string>>, b1: seq<map<string, string>>,
                             a2: seq<map<string, string>>, b2: seq<map<string, string>>,
                             oldDir: Path, newDir: Path, fs: set<Path>)
    requires AttrsRewritten(a1, b1, oldDir, newDir, fs) && AttrsRewritten(a2, b2, oldDir, newDir, fs)
    ensures AttrsRewritten(a1 + a2, b1 + b2, oldDir, newDir, fs)
  {
    var a, b := a1 + a2, b1 + b2;
    forall i | 0 <= i < |a1|
      ensures RewrittenFrom(a[i], b[i], oldDir, newDir, fs)
    {
      assert a[i] == a1[i] && b[i] == b1[i];
    }
    forall i | |a1| <= i < |a|
      ensures RewrittenFrom(a[i], b[i], oldDir, newDir, fs)
    {
      assert a[i] == a2[i - |a1|] && b[i] == b2[i - |a1|];
    }
  }

  lemma {:induction false} ProjectAttrsConcat(a: seq<Node>, b: seq<Node>)
    ensures ProjectAttrsOf(a + b) == ProjectAttrsOf(a) + ProjectAttrsOf(b)
  {
    if a == [] {
      assert a + b == b;
    } else {
      assert (a + b)[0] == a[0] && (a + b)[1..] == a[1..] + b;
      ProjectAttrsConcat(a[1..], b);
    }
  }

  lemma {:induction false} ProjectAttrsUpdate(ns: seq<Node>, k: nat, c: Node)
    requires k < |ns| && ProjectAttrs(c) == ProjectAttrs(ns[k])
    ensures ProjectAttrsOf(ns[k := c]) == ProjectAttrsOf(ns)
  {
    if k > 0 {
      assert ns[k := c][1..] == ns[1..][k - 1 := c];
      ProjectAttrsUpdate(ns[1..], k - 1, c);
    } else {
      assert ns[k := c][1..] == ns[1..];
    }
  }

  /** The backfill appends no `Project` element. */
  lemma BackfillKeepsProjectAttrs(e: Node, name: string)
    requires e.Element?
    ensures ProjectAttrsOf(EnsureRootNamespaceAndAssemblyName(e, name).0.children) == ProjectAttrsOf(e.children)
  {
    var r := EnsureRootNamespaceAndAssemblyName(e, name);
    match FirstPropertyGroup(e.children)
    case None =>
    case Some(k) =>
      var g := e.children[k];
      var added: seq<Node> := if r.1 then [Property("RootNamespace", name), Property("AssemblyName", name)] else [];
      ProjectAttrsConcat(g.children, added);
      assert ProjectAttrsOf(added) == [] by {
        if r.1 {
          assert ProjectAttrsOf([Text(name)]) == [];
          assert ProjectAttrs(Property("RootNamespace", name)) == [];
          assert ProjectAttrs(Property("AssemblyName", name)) == [];
          assert [Property("AssemblyName", name)][1..] == [];
          assert ProjectAttrsOf([Property("AssemblyName", name)]) == [];
          assert added[0] == Property("RootNamespace", name);
          assert added[1..] == [Property("AssemblyName", name)];
        }
      }
      assert r.0.children == e.children[k := g.(children := g.children + added)];
      ProjectAttrsUpdate(e.children, k, g.(children := g.children + added));
  }

  /** Two sibling sequences agree, index by index, on which nodes are
      elements and on their names. */
  predicate SameNames(a: seq<Node>, b: seq<Node>)
  {
    |a| == |b|
    && forall i :: 0 <= i < |a| ==>
         (a[i].Element? <==> b[i].Element?) && (a[i].Element? ==> a[i].name == b[i].name)
  }

  /** What the backfill looks at depends only on names: siblings that agree
      on names, and whose element children agree on names, have the same
      first `PropertyGroup` and the same properties in their groups. */
  lemma GroupsKept(a: seq<Node>, b: seq<Node>, prop: string)
    requires SameNames(a, b)
    requires forall i :: 0 <= i < |a| && a[i].Element? ==> SameNames(a[i].children, b[i].children)
    ensures FirstPropertyGroup(a) == FirstPropertyGroup(b)
    ensures AnyGroupHas(a, prop) <==> AnyGroupHas(b, prop)
  {
    assert forall i :: 0 <= i < |a| ==> (IsPropertyGroup(a[i]) <==> IsPropertyGroup(b[i]));
    var fa, fb := FirstPropertyGroup(a), FirstPropertyGroup(b);
    if fa.Some? && fb.Some? {
      assert !(fa.value < fb.value) && !(fb.value < fa.value);
    }
    forall i | 0 <= i < |a| && IsPropertyGroup(a[i])
      ensures HasChildNamed(a[i].children, prop) <==> HasChildNamed(b[i].children, prop)
    {
      var x, y := a[i].children, b[i].children;
      if HasChildNamed(x, prop) {
        var j :| 0 <= j < |x| && x[j].Element? && x[j].name == prop;
        assert y[j].Element? && y[j].name == prop;
      }
      if HasChildNamed(y, prop) {
        var j :| 0 <= j < |y| && y[j].Element? && y[j].name == prop;
        assert x[j].Element? && x[j].name == prop;
      }
    }
  }

  /** The backfill changes the children of one `PropertyGroup` only. */
  lemma BackfillSameNames(e: Node, name: string)
    requires e.Element?
    ensures SameNames(EnsureRootNamespaceAndAssemblyName(e, name).0.children, e.children)
  {
  }

  /** After the backfill a `Project` element has its identity, or has no
      `PropertyGroup` to hold it. */
  lemma BackfillSettlesElement(e: Node, name: string)
    requires e.Element?
    ensures var c := EnsureRootNamespaceAndAssemblyName(e, name).0.children;
            FirstPropertyGroup(c).None? || AnyGroupHas(c, "RootNamespace")
  {
    BackfillIdempotent(e, name, name);
  }

  /** The backfill half of the visit: every `Project` element, outermost
      first, gets the identity backfill, and then its children, appended
      ones included, are visited. */
  function BackfillProjects(n: Node, stem: string): (r: Node)
    ensures !n.Element? ==> r == n
    ensures n.Element? ==> r.Element? && r.name == n.name && r.attrs == n.attrs
    ensures n.Element? ==> SameNames(r.children, n.children)
    ensures Settled(r)
    ensures Settled(n) ==> r == n
    ensures ProjectAttrs(r) == ProjectAttrs(n)
    decreases Weight(n), 1
  {
    match n
    case Element(name, attrs, children) =>
      BackfillWeight(n, stem);
      BackfillKeepsProjectAttrs(n, stem);
      var n1 := if name == "Project" then EnsureRootNamespaceAndAssemblyName(n, stem).0 else n;
      var kids := BackfillProjectsAll(n1.children, stem);
      assert SameNames(kids, children)
             && (name == "Project" ==> FirstPropertyGroup(kids).None? || AnyGroupHas(kids, "RootNamespace")) by {
        if name == "Project" {
          BackfillSameNames(n, stem);
          BackfillSettlesElement(n, stem);
          GroupsKept(kids, n1.children, "RootNamespace");
        }
      }
      n1.(children := kids)
    case _ => n
  }

  function BackfillProjectsAll(ns: seq<Node>, stem: string): (r: seq<Node>)
    ensures SameNames(r, ns)
    ensures forall i :: 0 <= i < |ns| && ns[i].Element? ==> SameNames(r[i].children, ns[i].children)
    ensures SettledAll(r)
    ensures SettledAll(ns) ==> r == ns
    ensures ProjectAttrsOf(r) == ProjectAttrsOf(ns)
    decreases WeightOf(ns), 0
  {
    if ns == [] then []
    else
      var r := [BackfillProjects(ns[0], stem)] + BackfillProjectsAll(ns[1..], stem);
      assert r[0] == BackfillProjects(ns[0], stem) && r[1..] == BackfillProjectsAll(ns[1..], stem);
      assert forall i :: 1 <= i < |ns| ==> r[i] == r[1..][i - 1] && ns[i] == ns[1..][i - 1];
      assert SettledAll(ns) ==> r == ns by {
        if SettledAll(ns) { assert ns == [ns[0]] + ns[1..]; }
      }
      r
  }

  /** The rewriting half of the visit: every text and every attribute value
      of an element other than `Project` is passed through the relative-path
      rewrite; nothing else changes. */
  function RewriteValues(n: Node, oldDir: Path, newDir: Path, fs: set<Path>): (r: Node)
    ensures Blank(r) == Blank(n)
    ensures ProjectAttrs(r) == ProjectAttrs(n)
    ensures TextsRewritten(Texts(n), Texts(r), oldDir, newDir, fs)
    ensures AttrsRewritten(AttrMaps(n), AttrMaps(r), oldDir, newDir, fs)
    decreases n, 1
  {
    match n
    case Element(name, attrs, children) =>
      var attrs' := if name == "Project" then attrs else RewriteAttrs(attrs, oldDir, newDir, fs).0;
      var children' := RewriteValuesAll(children, oldDir, newDir, fs);
      var own := if name == "Project" then [] else [attrs];
      var own' := if name == "Project" then [] else [attrs'];
      assert (map k | k in attrs' :: "") == (map k | k in attrs :: "");
      AttrsRewrittenConcat(own, own', AttrMapsOf(children), AttrMapsOf(children'), oldDir, newDir, fs);
      Element(name, attrs', children')
    case Text(t) => Text(TryRewriteRelativePath(t, oldDir, newDir, fs).0)
    case Other(_) => n
  }

  function RewriteValuesAll(ns: seq<Node>, oldDir: Path, newDir: Path, fs: set<Path>): (r: seq<Node>)
    ensures BlankAll(r) == BlankAll(ns)
    ensures ProjectAttrsOf(r) == ProjectAttrsOf(ns)
    ensures TextsRewritten(TextsOf(ns), TextsOf(r), oldDir, newDir, fs)
    ensures AttrsRewritten(AttrMapsOf(ns), AttrMapsOf(r), oldDir, newDir, fs)
    decreases ns, 0
  {
    if ns == [] then []
    else
      var head := RewriteValues(ns[0], oldDir, newDir, fs);
      var tail := RewriteValuesAll(ns[1..], oldDir, newDir, fs);
      var r := [head] + tail;
      assert r[0] == head && r[1..] == tail;
      TextsRewrittenConcat(Texts(ns[0]), Texts(head), TextsOf(ns[1..]), TextsOf(tail), oldDir, newDir, fs);
      AttrsRewrittenConcat(AttrMaps(ns[0]), AttrMaps(head), AttrMapsOf(ns[1..]), AttrMapsOf(tail), oldDir, newDir, fs);
      r
  }

  /** The visitor applied to one node, before its children are visited. */
  function VisitElement(n: Node, stem: string, oldDir: Path, newDir: Path, fs: set<Path>): (r: (Node, bool))
    requires n.Element?
    ensures r.0.Element? && r.0.name == n.name
    ensures n.name == "Project" ==> r == EnsureRootNamespaceAndAssemblyName(n, stem)
    ensures n.name != "Project" ==> r.0.children == n.children
    ensures n.name != "Project" ==> r == (n.(attrs := r.0.attrs), RewriteAttrs(n.attrs, oldDir, newDir, fs).1)
  {
    if n.name == "Project" then EnsureRootNamespaceAndAssemblyName(n, stem)
    else
      var (attrs, edited) := RewriteAttrs(n.attrs, oldDir, newDir, fs);
      (n.(attrs := attrs), edited)
  }

  /** The pre-order visit of one subtree. The flag is set exactly when the
      subtree is not quiet, and a subtree whose flag stays clear comes back
      unchanged, so writing back only on a set flag never loses an edit.
      The attributes of a `Project` element are never rewritten. */
  function Visit(n: Node, stem: string, oldDir: Path, newDir: Path, fs: set<Path>): (r: (Node, bool))
    ensures r.1 <==> !Quiet(n)
    ensures !r.1 ==> r.0 == n
    ensures r.0 == RewriteValues(BackfillProjects(n, stem), oldDir, newDir, fs)
    ensures ProjectAttrs(r.0) == ProjectAttrs(n)
    decreases Weight(n), 1
  {
    match n
    case Element(name, attrs, children) =>
      var (n1, e1) := VisitElement(n, stem, oldDir, newDir, fs);
      BackfillWeight(n, stem);
      var (children', e2) := VisitAll(n1.children, stem, oldDir, newDir, fs);
      (n1.(children := children'), e1 || e2)
    case Text(t) =>
      var (t', edited) := TryRewriteRelativePath(t, oldDir, newDir, fs);
      (Text(t'), edited)
    case Other(_) => (n, false)
  }

  function VisitAll(ns: seq<Node>, stem: string, oldDir: Path, newDir: Path, fs: set<Path>): (r: (seq<Node>, bool))
    ensures r.1 <==> !QuietAll(ns)
    ensures !r.1 ==> r.0 == ns
    ensures r.0 == RewriteValuesAll(BackfillProjectsAll(ns, stem), oldDir, newDir, fs)
    decreases WeightOf(ns), 0
  {
    if ns == [] then ([], false)
    else
      var (head, e1) := Visit(ns[0], stem, oldDir, newDir, fs);
      var (tail, e2) := VisitAll(ns[1..], stem, oldDir, newDir, fs);
      var b := BackfillProjectsAll(ns, stem);
      assert b[0] == BackfillProjects(ns[0], stem) && b[1..] == BackfillProjectsAll(ns[1..], stem);
      ([head] + tail, e1 || e2)
  }

  /** Moving a project whose document has no out-of-tree values and already
      has its identity leaves the document as it was and unwritten. */
  lemma QuietDocumentIsNotRewritten(doc: Node, stem: string, oldDir: Path, newDir: Path, fs: set<Path>)
    requires Quiet(doc)
    ensures Visit(doc, stem, oldDir, newDir, fs) == (doc, false)
  {
  }

  /** Blanking the values keeps every name, so it keeps what `Settled`
      looks at. */
  lemma {:induction false} BlankKeepsNames(n: Node)
    ensures Settled(Blank(n)) <==> Settled(n)
    ensures n.Element? ==> SameNames(Blank(n).children, n.children)
    decreases n, 1
  {
    match n
    case Element(_, _, children) =>
      BlankAllKeepsNames(children);
      GroupsKept(BlankAll(children), children, "RootNamespace");
    case _ =>
  }

  lemma {:induction false} BlankAllKeepsNames(ns: seq<Node>)
    ensures SettledAll(BlankAll(ns)) <==> SettledAll(ns)
    ensures SameNames(BlankAll(ns), ns)
    ensures forall i :: 0 <= i < |ns| && ns[i].Element? ==> SameNames(BlankAll(ns)[i].children, ns[i].children)
    decreases ns, 0
  {
    if ns != [] {
      var b := BlankAll(ns);
      BlankKeepsNames(ns[0]);
      BlankAllKeepsNames(ns[1..]);
      assert b[0] == Blank(ns[0]) && b[1..] == BlankAll(ns[1..]);
      assert forall i :: 1 <= i < |ns| ==> b[i] == b[1..][i - 1] && ns[i] == ns[1..][i - 1];
    }
  }

  /** After the visit every `Project` element of the document has its
      identity, or has no `PropertyGroup` to hold it. */
  lemma VisitSettles(n: Node, stem: string, oldDir: Path, newDir: Path, fs: set<Path>)
    ensures Settled(Visit(n, stem, oldDir, newDir, fs).0)
  {
    var b := BackfillProjects(n, stem);
    BlankKeepsNames(b);
    BlankKeepsNames(RewriteValues(b, oldDir, newDir, fs));
  }

  /** A document with no `Project` element is settled. */
  lemma {:induction false} NoProjectSettled(n: Node)
    requires ProjectAttrs(n) == []
    ensures Settled(n)
    decreases n, 1
  {
    match n
    case Element(name, _, children) =>
      assert name != "Project";
      NoProjectSettledAll(children);
    case _ =>
  }

  lemma {:induction false} NoProjectSettledAll(ns: seq<Node>)
    requires ProjectAttrsOf(ns) == []
    ensures SettledAll(ns)
    decreases ns, 0
  {
    if ns != [] {
      NoProjectSettled(ns[0]);
      NoProjectSettledAll(ns[1..]);
    }
  }

  /** For a project document whose root is the only `Project` element, the
      backfill half of the visit is exactly one identity backfill of the
      root, named after the given stem. */
  lemma BackfillProjectRoot(n: Node, stem: string)
    requires n.Element? && n.name == "Project" && ProjectAttrsOf(n.children) == []
    ensures BackfillProjects(n, stem) == EnsureRootNamespaceAndAssemblyName(n, stem).0
  {
    var n1 := EnsureRootNamespaceAndAssemblyName(n, stem).0;
    BackfillKeepsProjectAttrs(n, stem);
    NoProjectSettledAll(n1.children);
  }

  /** The visit of such a document: the root gets its identity, then every
      visited value is rewritten. */
  lemma VisitProjectRoot(n: Node, stem: string, oldDir: Path, newDir: Path, fs: set<Path>)
    requires n.Element? && n.name == "Project" && ProjectAttrsOf(n.children) == []
    ensures Visit(n, stem, oldDir, newDir, fs).0
         == RewriteValues(EnsureRootNamespaceAndAssemblyName(n, stem).0, oldDir, newDir, fs)
  {
    BackfillProjectRoot(n, stem);
  }
}
