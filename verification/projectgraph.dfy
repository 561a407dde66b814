/** The project graph: one root project per Minecraft version tree, each
    node linking to the child projects derived from it, each link with an
    optional extra mapping file. */
module ProjectGraph {
  import opened Wrappers

  /** A project node; `links` in the order the children were added. The
      extra mapping file of a link is its path. */
  datatype Node = Node(project: string, mcVersion: int, mappings: string, links: seq<Link>)
  datatype Link = Link(child: Node, extraMappings: Option<string>)

  // ---------------------------------------------------------------------
  // Building

  /** The root extension: at most one root node. */
  datatype Root = Root(rootNode: Option<Node>)
  datatype GraphError = RootAlreadySet | RootExtraMappings
  datatype Added = Added(root: Root, node: Node)

  /** `RootPreprocessExtension.addNode`: the first check is that no root
      is set yet, the second that the root has no extra mappings. */
  function AddRoot(root: Root, project: string, mcVersion: int, mappings: string, extraMappings: Option<string>): (r: Result<Added, GraphError>)
    ensures r.Ok? <==> root.rootNode.None? && extraMappings.None?
    ensures root.rootNode.Some? ==> r == Err(RootAlreadySet)
    ensures root.rootNode.None? && extraMappings.Some? ==> r == Err(RootExtraMappings)
    ensures r.Ok? ==> r.value.root.rootNode == Some(r.value.node) && r.value.node == Node(project, mcVersion, mappings, [])
  {
    if root.rootNode.Some? then Err(RootAlreadySet)
    else if extraMappings.Some? then Err(RootExtraMappings)
    else
      var n := Node(project, mcVersion, mappings, []);
      Ok(Added(Root(Some(n)), n))
  }

  /** A root can be set once only. */
  lemma SingleRoot(root: Root, project: string, mcVersion: int, mappings: string, project': string, mcVersion': int, mappings': string, extra': Option<string>)
    requires AddRoot(root, project, mcVersion, mappings, None).Ok?
    ensures AddRoot(AddRoot(root, project, mcVersion, mappings, None).value.root, project', mcVersion', mappings', extra') == Err(RootAlreadySet)
  {
  }

  /** `ProjectGraphNode.addNode`: a fresh child appended as the last link;
      the earlier links stay as they were. */
  function AddLink(n: Node, project: string, mcVersion: int, mappings: string, extraMappings: Option<string>): (r: Node)
    ensures r.project == n.project && r.mcVersion == n.mcVersion && r.mappings == n.mappings
    ensures |r.links| == |n.links| + 1 && r.links[..|n.links|] == n.links
    ensures r.links[|n.links|] == Link(Node(project, mcVersion, mappings, []), extraMappings)
  {
    n.(links := n.links + [Link(Node(project, mcVersion, mappings, []), extraMappings)])
  }

  // ---------------------------------------------------------------------
  // The nodes of a graph

  /** Every node from `n` down: `n` first, then each child's nodes in link
      order. */
  function Nodes(n: Node): (r: seq<Node>)
    ensures |r| > 0 && r[0] == n
    decreases n, 1
  {
    [n] + NodesFrom(n, 0)
  }

  /** The nodes below the links of `n` from the `i`th on. */
  function NodesFrom(n: Node, i: nat): seq<Node>
    decreases n, 0, |n.links| - i
  {
    if i >= |n.links| then [] else Nodes(n.links[i].child) + NodesFrom(n, i + 1)
  }

  /** The first node with that project name. */
  function FirstWith(ns: seq<Node>, project: string): (r: Option<Node>)
    ensures r.Some? ==> r.value in ns && r.value.project == project
    ensures r.None? ==> forall m :: m in ns ==> m.project != project
  {
    if |ns| == 0 then None
    else if ns[0].project == project then Some(ns[0])
    else FirstWith(ns[1..], project)
  }

  lemma {:induction false} FirstWithConcat(a: seq<Node>, b: seq<Node>, project: string)
    ensures FirstWith(a + b, project) == FirstWith(a, project).OrElse(FirstWith(b, project))
  {
    if |a| > 0 {
      assert (a + b)[1..] == a[1..] + b;
      FirstWithConcat(a[1..], b, project);
    } else {
      assert a + b == b;
    }
  }

  // ---------------------------------------------------------------------
  // Lookups

  /** `findNode`: the node itself when the name matches, else the first
      match among the children in link order. */
  function FindNode(n: Node, project: string): Option<Node>
    decreases n, 1
  {
    if project == n.project then Some(n) else FindNodeFrom(n, 0, project)
  }

  function FindNodeFrom(n: Node, i: nat, project: string): Option<Node>
    decreases n, 0, |n.links| - i
  {
    if i >= |n.links| then None
    else match FindNode(n.links[i].child, project)
      case Some(m) => Some(m)
      case None => FindNodeFrom(n, i + 1, project)
  }

  /** `findNode` is a pre-order search: the first node of the graph, in
      the order `Nodes` lists them, with that project name. */
  lemma {:induction false} FindNodeIsFirst(n: Node, project: string)
    ensures FindNode(n, project) == FirstWith(Nodes(n), project)
    decreases n, 1
  {
    if project != n.project {
      FindNodeFromIsFirst(n, 0, project);
      assert Nodes(n)[1..] == NodesFrom(n, 0);
    }
  }

  lemma {:induction false} FindNodeFromIsFirst(n: Node, i: nat, project: string)
    ensures FindNodeFrom(n, i, project) == FirstWith(NodesFrom(n, i), project)
    decreases n, 0, |n.links| - i
  {
    if i < |n.links| {
      FindNodeIsFirst(n.links[i].child, project);
      FindNodeFromIsFirst(n, i + 1, project);
      FirstWithConcat(Nodes(n.links[i].child), NodesFrom(n, i + 1), project);
    }
  }

  /** What `findNode` finds is a node of the graph with that project name;
      it finds nothing only when no node has it. */
  lemma FindNodeMeaning(n: Node, project: string)
    ensures FindNode(n, project).Some? ==> FindNode(n, project).value.project == project && FindNode(n, project).value in Nodes(n)
    ensures FindNode(n, project).None? <==> forall m :: m in Nodes(n) ==> m.project != project
  {
    FindNodeIsFirst(n, project);
  }

  /** A node below the links of `n` from the `i`th on lies below one of
      those links. */
  lemma {:induction false} NodesFromMember(n: Node, i: nat, m: Node)
    ensures m in NodesFrom(n, i) <==> exists j :: i <= j < |n.links| && m in Nodes(n.links[j].child)
    decreases |n.links| - i
  {
    if i < |n.links| {
      NodesFromMember(n, i + 1, m);
    }
  }

  /** The parent of a node and the extra mappings of the link to it. */
  datatype Parent = Parent(node: Node, extraMappings: Option<string>)

  /** `findParent`: nothing for the node itself; otherwise, over the links
      in order, the first that leads to the node directly or through its
      child's own search. Nodes are compared by value. */
  function FindParent(n: Node, node: Node): Option<Parent>
    decreases n, 1
  {
    if node == n then None else FindParentFrom(n, 0, node)
  }

  function FindParentFrom(n: Node, i: nat, node: Node): Option<Parent>
    decreases n, 0, |n.links| - i
  {
    if i >= |n.links| then None
    else
      var l := n.links[i];
      var here := if l.child == node then Some(Parent(n, l.extraMappings)) else FindParent(l.child, node);
      if here.Some? then here else FindParentFrom(n, i + 1, node)
  }

  /** What `findParent` finds is a node of the graph with a link to the
      node carrying the returned extra mappings; a node is never its own
      parent. */
  lemma {:induction false} FindParentSound(n: Node, node: Node)
    ensures FindParent(n, n).None?
    ensures FindParent(n, node).Some? ==>
      && FindParent(n, node).value.node in Nodes(n)
      && Link(node, FindParent(n, node).value.extraMappings) in FindParent(n, node).value.node.links
    decreases n, 1
  {
    if node != n {
      FindParentFromSound(n, 0, node);
      if FindParentFrom(n, 0, node).Some? {
        NodesFromMember(n, 0, FindParentFrom(n, 0, node).value.node);
      }
    }
  }

  lemma {:induction false} FindParentFromSound(n: Node, i: nat, node: Node)
    ensures FindParentFrom(n, i, node).Some? ==>
      && (FindParentFrom(n, i, node).value.node == n || exists j :: i <= j < |n.links| && FindParentFrom(n, i, node).value.node in Nodes(n.links[j].child))
      && Link(node, FindParentFrom(n, i, node).value.extraMappings) in FindParentFrom(n, i, node).value.node.links
    decreases n, 0, |n.links| - i
  {
    if i < |n.links| {
      var l := n.links[i];
      if l.child == node {
        assert n.links[i] == Link(node, l.extraMappings);
      } else {
        FindParentSound(l.child, node);
        if FindParent(l.child, node).None? {
          FindParentFromSound(n, i + 1, node);
        }
      }
    }
  }

  /** `findParent` finds a parent for every node of the graph but its
      start. */
  lemma {:induction false} FindParentComplete(n: Node, node: Node)
    requires node in Nodes(n) && node != n
    ensures FindParent(n, node).Some?
    decreases n, 1
  {
    assert node in NodesFrom(n, 0);
    NodesFromMember(n, 0, node);
    FindParentFromComplete(n, 0, node);
  }

  lemma {:induction false} FindParentFromComplete(n: Node, i: nat, node: Node)
    requires exists j :: i <= j < |n.links| && node in Nodes(n.links[j].child)
    ensures FindParentFrom(n, i, node).Some?
    decreases n, 0, |n.links| - i
  {
    var l := n.links[i];
    if l.child != node {
      if node in Nodes(l.child) {
        FindParentComplete(l.child, node);
      } else {
        var j :| i <= j < |n.links| && node in Nodes(n.links[j].child);
        assert j != i;
        FindParentFromComplete(n, i + 1, node);
      }
    }
  }

  /** Adding a child adds exactly that node, last, to the nodes below the
      start. */
  lemma NodesAddLink(n: Node, project: string, mcVersion: int, mappings: string, extraMappings: Option<string>)
    ensures var r := AddLink(n, project, mcVersion, mappings, extraMappings);
      Nodes(r) == [r] + NodesFrom(n, 0) + [Node(project, mcVersion, mappings, [])]
  {
    var r := AddLink(n, project, mcVersion, mappings, extraMappings);
    NodesFromAddLink(n, r, 0);
  }

  lemma {:induction false} NodesFromAddLink(n: Node, r: Node, i: nat)
    requires |r.links| == |n.links| + 1 && r.links[..|n.links|] == n.links && r.links[|n.links|].child.links == []
    requires i <= |n.links|
    ensures NodesFrom(r, i) == NodesFrom(n, i) + [r.links[|n.links|].child]
    decreases |n.links| - i
  {
    var c := r.links[|n.links|].child;
    if i < |n.links| {
      assert r.links[i] == n.links[i];
      NodesFromAddLink(n, r, i + 1);
    } else {
      assert NodesFrom(c, 0) == [];
      assert Nodes(c) == [c];
    }
  }

  /** After adding a child, `findNode` by any name but the start's finds
      what it found before, and otherwise the new child when the name is
      the child's. */
  lemma AddLinkFindNode(n: Node, project: string, mcVersion: int, mappings: string, extraMappings: Option<string>, name: string)
    requires name != n.project
    ensures FindNode(AddLink(n, project, mcVersion, mappings, extraMappings), name)
      == FindNode(n, name).OrElse(if name == project then Some(Node(project, mcVersion, mappings, [])) else None)
  {
    var c := Node(project, mcVersion, mappings, []);
    var r := AddLink(n, project, mcVersion, mappings, extraMappings);
    NodesAddLink(n, project, mcVersion, mappings, extraMappings);
    FindNodeIsFirst(n, name);
    FindNodeIsFirst(r, name);
    assert Nodes(r) == [r] + (NodesFrom(n, 0) + [c]);
    assert Nodes(n) == [n] + NodesFrom(n, 0);
    FirstWithConcat(NodesFrom(n, 0), [c], name);
  }

  /** After adding a child, `findParent` finds a parent for it, with a
      link to it. */
  lemma AddLinkFindParent(n: Node, project: string, mcVersion: int, mappings: string, extraMappings: Option<string>)
    ensures var r := AddLink(n, project, mcVersion, mappings, extraMappings);
      var c := Node(project, mcVersion, mappings, []);
      && FindParent(r, c).Some?
      && Link(c, FindParent(r, c).value.extraMappings) in FindParent(r, c).value.node.links
  {
    var r := AddLink(n, project, mcVersion, mappings, extraMappings);
    var c := Node(project, mcVersion, mappings, []);
    NodesAddLink(n, project, mcVersion, mappings, extraMappings);
    assert c in Nodes(r) && c != r;
    FindParentComplete(r, c);
    FindParentSound(r, c);
  }
}
