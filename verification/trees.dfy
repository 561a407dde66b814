/** The mapping trees the core reads and writes, reduced to what it uses.

    A namespaced tree (mapping-io's `MappingTree`) names every class and
    member once per namespace: a source namespace with id -1 and
    destination namespaces with ids 0, 1, …; members carry a descriptor in
    the source namespace, and a descriptor in any other namespace is that
    descriptor with its class names mapped there.

    A table is a two-namespace tree ("source" -> "destination") built by
    the tool itself: classes and members in visiting order. */
module Trees {
  import opened Wrappers
  import opened Descriptors

  /** Names per namespace: index 0 holds the source-namespace name, index
      k + 1 the name in destination namespace k; a name may be missing. */
  type Names = seq<Option<string>>

  datatype MemberNode = MemberNode(names: Names, srcDesc: Option<string>)
  datatype ClassNode = ClassNode(names: Names, fields: seq<MemberNode>, methods: seq<MemberNode>)
  datatype Tree = Tree(srcNs: string, dstNs: seq<string>, classes: seq<ClassNode>)

  const SrcNsId: int := -1
  const NullNsId: int := -2

  /** The position of the first occurrence of `x` in `xs`. */
  function IndexOfName(xs: seq<string>, x: string): (r: Option<nat>)
    ensures r.None? <==> x !in xs
    ensures r.Some? ==> r.value < |xs| && xs[r.value] == x && forall j :: 0 <= j < r.value ==> xs[j] != x
  {
    if |xs| == 0 then None
    else if xs[0] == x then Some(0)
    else match IndexOfName(xs[1..], x)
      case None => None
      case Some(i) =>
        assert forall j :: 1 <= j <= i ==> xs[j] == xs[1..][j - 1];
        Some(i + 1)
  }

  /** `getNamespaceId`: -1 for the source namespace, the position among
      the destination namespaces, or the null id -2 when the tree has no
      such namespace. */
  function NamespaceId(t: Tree, ns: string): (r: int)
    ensures r == SrcNsId <==> ns == t.srcNs
    ensures r == NullNsId <==> ns != t.srcNs && ns !in t.dstNs
    ensures r >= 0 ==> r < |t.dstNs| && t.dstNs[r] == ns
    ensures r == SrcNsId || r == NullNsId || r >= 0
  {
    if ns == t.srcNs then SrcNsId
    else match IndexOfName(t.dstNs, ns)
      case None => NullNsId
      case Some(i) => i
  }

  /** The namespace an id stands for in a tree. */
  function NamespaceName(t: Tree, id: int): Option<string> {
    if id == SrcNsId then Some(t.srcNs)
    else if 0 <= id < |t.dstNs| then Some(t.dstNs[id])
    else None
  }

  /** A namespace id found in a tree stands for that namespace there. */
  lemma NamespaceIdMeaning(t: Tree, ns: string)
    ensures NamespaceId(t, ns) != NullNsId ==> NamespaceName(t, NamespaceId(t, ns)) == Some(ns)
    ensures NamespaceId(t, ns) == NullNsId ==> NamespaceName(t, NamespaceId(t, ns)).None?
  {
  }

  /** `getName(id)`: the name in a namespace, if any. */
  function Name(names: Names, id: int): Option<string> {
    if 0 <= id + 1 < |names| then names[id + 1] else None
  }

  /** `getClass(name, id)`: the first class with that name in the namespace. */
  function GetClass(t: Tree, name: string, id: int): (r: Option<ClassNode>)
    ensures r.Some? ==> r.value in t.classes && Name(r.value.names, id) == Some(name)
    ensures r.None? ==> forall c :: c in t.classes ==> Name(c.names, id) != Some(name)
  {
    FirstClass(t.classes, name, id)
  }

  function FirstClass(cs: seq<ClassNode>, name: string, id: int): (r: Option<ClassNode>)
    ensures r.Some? ==> r.value in cs && Name(r.value.names, id) == Some(name)
    ensures r.None? ==> forall c :: c in cs ==> Name(c.names, id) != Some(name)
  {
    if |cs| == 0 then None
    else if Name(cs[0].names, id) == Some(name) then Some(cs[0])
    else FirstClass(cs[1..], name, id)
  }

  /** `mapClassName(name, from, to)`: the name, in namespace `to`, of the
      class named `name` in namespace `from`; the name itself when the
      namespaces agree, the class is unknown, or it has no name there. */
  function MapClassName(t: Tree, name: string, from: int, to: int): string {
    if from == to then name
    else match GetClass(t, name, from)
      case None => name
      case Some(c) => Name(c.names, to).GetOr(name)
  }

  /** `getDesc(id)`: the source descriptor with its classes mapped to the namespace. */
  function Desc(t: Tree, m: MemberNode, id: int): (r: Option<string>)
    ensures r.None? <==> m.srcDesc.None?
  {
    match m.srcDesc
    case None => None
    case Some(d) => Some(MapDesc(d, n => MapClassName(t, n, SrcNsId, id)))
  }

  /** In the source namespace a member's descriptor is the one it carries. */
  lemma DescInSource(t: Tree, m: MemberNode)
    ensures Desc(t, m, SrcNsId) == m.srcDesc
  {
    if m.srcDesc.Some? {
      MapDescIdentity(m.srcDesc.value, n => MapClassName(t, n, SrcNsId, SrcNsId));
    }
  }

  /** `getField` / `getMethod(name, desc, id)`: the first member with the
      name in the namespace whose descriptor there is `desc`, or with the
      name alone when no descriptor is asked for. */
  function GetMember(t: Tree, ms: seq<MemberNode>, name: string, desc: Option<string>, id: int): (r: Option<MemberNode>)
    ensures r.Some? ==> r.value in ms && Name(r.value.names, id) == Some(name) && (desc.None? || Desc(t, r.value, id) == desc)
    ensures r.None? ==> forall m :: m in ms && Name(m.names, id) == Some(name) ==> desc.Some? && Desc(t, m, id) != desc
  {
    if |ms| == 0 then None
    else if Name(ms[0].names, id) == Some(name) && (desc.None? || Desc(t, ms[0], id) == desc) then Some(ms[0])
    else GetMember(t, ms[1..], name, desc, id)
  }

  // ---------------------------------------------------------------------
  // Tables

  datatype TableMember = TableMember(src: string, desc: Option<string>, dst: string)
  datatype TableClass = TableClass(src: string, dst: string, fields: seq<TableMember>, methods: seq<TableMember>)
  type Table = seq<TableClass>
}
