/** Identity backfill of the moved project, `ensure_root_namespace_and_assembly_name`:
    a fold over the `PropertyGroup` children that looks for `RootNamespace`
    and `AssemblyName`, followed by appends to the first `PropertyGroup`. */
module Identity {
  import opened Wrappers
  import opened Xml

  predicate IsPropertyGroup(n: Node) { n.Element? && n.name == "PropertyGroup" }

  /** Some `PropertyGroup` among `children` has a child element called `prop`. */
  predicate AnyGroupHas(children: seq<Node>, prop: string)
  {
    exists i :: 0 <= i < |children| && IsPropertyGroup(children[i]) && HasChildNamed(children[i].children, prop)
  }

  /** One step of the fold: a `PropertyGroup` may supply what is still missing. */
  function ScanStep(state: (bool, bool), child: Node): (bool, bool)
  {
    if IsPropertyGroup(child) then
      (state.0 || HasChildNamed(child.children, "RootNamespace"),
       state.1 || HasChildNamed(child.children, "AssemblyName"))
    else state
  }

  /** The fold over the children, left to right. */
  function ScanFrom(state: (bool, bool), children: seq<Node>): (r: (bool, bool))
    ensures r.0 <==> state.0 || AnyGroupHas(children, "RootNamespace")
    ensures r.1 <==> state.1 || AnyGroupHas(children, "AssemblyName")
    decreases |children|
  {
    if children == [] then state
    else
      var r := ScanFrom(ScanStep(state, children[0]), children[1..]);
      assert forall i :: 1 <= i < |children| ==> children[i] == children[1..][i - 1];
      assert AnyGroupHas(children[1..], "RootNamespace") ==> AnyGroupHas(children, "RootNamespace");
      assert AnyGroupHas(children[1..], "AssemblyName") ==> AnyGroupHas(children, "AssemblyName");
      r
  }

  /** `get_mut_child("PropertyGroup")`: the index of the first `PropertyGroup` child. */
  function FirstPropertyGroup(children: seq<Node>): (r: Option<nat>)
    ensures r.Some? ==> r.value < |children| && IsPropertyGroup(children[r.value])
    ensures r.Some? ==> forall j :: 0 <= j < r.value ==> !IsPropertyGroup(children[j])
    ensures r.None? ==> forall j :: 0 <= j < |children| ==> !IsPropertyGroup(children[j])
  {
    if children == [] then None
    else if IsPropertyGroup(children[0]) then Some(0)
    else match FirstPropertyGroup(children[1..])
      case None => None
      case Some(k) => Some(k + 1)
  }

  /** The elements appended to the first `PropertyGroup`. Both depend on the
      presence of `RootNamespace` alone, as `has_assembly_name` is computed
      from the `RootNamespace` search. */
  function Backfill(hasRootNamespace: bool, name: string): seq<Node>
  {
    var hasAssemblyName := hasRootNamespace;
    (if !hasRootNamespace then [Property("RootNamespace", name)] else [])
      + (if !hasAssemblyName then [Property("AssemblyName", name)] else [])
  }

  function EnsureRootNamespaceAndAssemblyName(e: Node, name: string): (r: (Node, bool))
    requires e.Element?
    ensures r.0.Element? && r.0.name == e.name && r.0.attrs == e.attrs
    ensures FirstPropertyGroup(e.children).None? ==> r == (e, false)
    ensures !r.1 ==> r.0 == e
    ensures r.1 <==> FirstPropertyGroup(e.children).Some? && !AnyGroupHas(e.children, "RootNamespace")
    ensures FirstPropertyGroup(e.children).Some? ==>
      var k := FirstPropertyGroup(e.children).value;
      && |r.0.children| == |e.children|
      && (forall j :: 0 <= j < |e.children| && j != k ==> r.0.children[j] == e.children[j])
      && r.0.children[k] == e.children[k].(children :=
           e.children[k].children
           + (if r.1 then [Property("RootNamespace", name), Property("AssemblyName", name)] else []))
  {
    var (hasRootNamespace, _) := ScanFrom((false, false), e.children);
    match FirstPropertyGroup(e.children)
    case None => (e, false)
    case Some(k) =>
      var group := e.children[k];
      var added := Backfill(hasRootNamespace, name);
      assert added == [] ==> e.children[k := group.(children := group.children + added)] == e.children by {
        if added == [] { assert group.children + added == group.children; }
      }
      (e.(children := e.children[k := group.(children := group.children + added)]), added != [])
  }

  /** Backfilling twice is backfilling once: the second run finds the
      `RootNamespace` the first one added and changes nothing. */
  lemma BackfillIdempotent(e: Node, name: string, name': string)
    requires e.Element?
    ensures var e1 := EnsureRootNamespaceAndAssemblyName(e, name).0;
            EnsureRootNamespaceAndAssemblyName(e1, name') == (e1, false)
  {
    var (e1, edited) := EnsureRootNamespaceAndAssemblyName(e, name);
    match FirstPropertyGroup(e.children)
    case None =>
    case Some(k) =>
      assert forall j :: 0 <= j < |e.children| ==> (IsPropertyGroup(e1.children[j]) <==> IsPropertyGroup(e.children[j]));
      assert FirstPropertyGroup(e1.children) == Some(k);
      if edited {
        var kids := e1.children[k].children;
        assert kids[|kids| - 2] == Property("RootNamespace", name);
        assert HasChildNamed(kids, "RootNamespace");
        assert AnyGroupHas(e1.children, "RootNamespace");
      } else {
        assert e1.children[k].children == e.children[k].children;
        assert e1.children == e.children;
      }
      var e2 := EnsureRootNamespaceAndAssemblyName(e1, name').0;
      assert e2.children[k].children == e1.children[k].children;
      assert e2.children == e1.children;
  }

  /** The code keys `AssemblyName` on `RootNamespace`: a project that has a
      `RootNamespace` but no `AssemblyName` is left without one. */
  lemma AssemblyNameNotBackfilledBesideRootNamespace(e: Node, name: string)
    requires e.Element?
    requires AnyGroupHas(e.children, "RootNamespace") && !AnyGroupHas(e.children, "AssemblyName")
    ensures EnsureRootNamespaceAndAssemblyName(e, name) == (e, false)
  {
    match FirstPropertyGroup(e.children)
    case None =>
    case Some(k) =>
      var e1 := EnsureRootNamespaceAndAssemblyName(e, name).0;
      assert e1.children[k] == e.children[k];
      assert e1.children == e.children;
  }
}
