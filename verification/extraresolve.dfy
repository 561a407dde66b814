/** `ExtraMapping.resolve`: the parsed manual entries completed against
    the source and destination mapping trees. Class names are converted to
    internal form, a class table is built from the classes both trees
    agree on through the shared namespace plus the manual class entries,
    every member entry gets a destination class, and method entries get
    descriptors on both sides. Entries that cannot be completed are
    dropped with a logged problem; the `!!` and indexing failures of the
    code abort resolution with an error. */
module ExtraResolve {
  import opened Wrappers
  import opened Descriptors
  import opened Trees
  import opened ExtraParse
  import opened InternalNames
  import opened ClassTables

  // ---------------------------------------------------------------------
  // Namespace ids

  datatype Ids = Ids(srcNamed: int, srcShared: int, dstShared: int, dstNamed: int)

  /** The ids as the code computes them: all four from the source tree. */
  function IdsAsWritten(srcTree: Tree, dstTree: Tree, named: string, shared: string): Ids {
    Ids(NamespaceId(srcTree, named), NamespaceId(srcTree, shared), NamespaceId(srcTree, shared), NamespaceId(srcTree, named))
  }

  /** The ids with the destination ones taken from the destination tree. */
  function ResolveIds(srcTree: Tree, dstTree: Tree, named: string, shared: string): Ids {
    Ids(NamespaceId(srcTree, named), NamespaceId(srcTree, shared), NamespaceId(dstTree, shared), NamespaceId(dstTree, named))
  }

  /** Every id names, in the tree it is used on, the namespace it is meant
      for, whenever that tree has that namespace. */
  lemma ResolveIdsMeaning(srcTree: Tree, dstTree: Tree, named: string, shared: string)
    ensures var ids := ResolveIds(srcTree, dstTree, named, shared);
      && (NamespaceId(srcTree, named) != NullNsId ==> NamespaceName(srcTree, ids.srcNamed) == Some(named))
      && (NamespaceId(srcTree, shared) != NullNsId ==> NamespaceName(srcTree, ids.srcShared) == Some(shared))
      && (NamespaceId(dstTree, shared) != NullNsId ==> NamespaceName(dstTree, ids.dstShared) == Some(shared))
      && (NamespaceId(dstTree, named) != NullNsId ==> NamespaceName(dstTree, ids.dstNamed) == Some(named))
  {
    NamespaceIdMeaning(srcTree, named);
    NamespaceIdMeaning(srcTree, shared);
    NamespaceIdMeaning(dstTree, shared);
    NamespaceIdMeaning(dstTree, named);
  }

  /** Two trees listing the same namespaces in different orders: the ids
      as written look the destination tree up in its named namespace when
      they mean the shared one, and the other way round. */
  lemma IdsAsWrittenMisread(srcTree: Tree, dstTree: Tree)
    requires srcTree == Tree("official", ["named", "shared"], [])
    requires dstTree == Tree("official", ["shared", "named"], [])
    ensures NamespaceName(dstTree, IdsAsWritten(srcTree, dstTree, "named", "shared").dstShared) == Some("named")
    ensures NamespaceName(dstTree, IdsAsWritten(srcTree, dstTree, "named", "shared").dstNamed) == Some("shared")
    ensures NamespaceName(dstTree, ResolveIds(srcTree, dstTree, "named", "shared").dstShared) == Some("shared")
  {
    assert IndexOfName(srcTree.dstNs, "shared") == Some(1);
    assert IndexOfName(srcTree.dstNs, "named") == Some(0);
    assert IndexOfName(dstTree.dstNs, "shared") == Some(0);
  }

  // ---------------------------------------------------------------------
  // Internal names

  /** The class names of an entry in internal form; `None` when a
      conversion throws. */
  function EntryToInternal(e: Entry): (r: Option<Entry>)
  {
    match e
    case ClassEntry(line, src, dst) =>
      var s :- ToInternal(src);
      var d :- ToInternal(dst);
      Some(ClassEntry(line, s, d))
    case FieldEntry(line, cls, dstCls, src, dst) =>
      var c :- ToInternal(cls);
      var dc :- OptionToInternal(dstCls);
      Some(FieldEntry(line, c, dc, src, dst))
    case MethodEntry(line, cls, dstCls, src, dst, srcDesc, dstDesc) =>
      var c :- ToInternal(cls);
      var dc :- OptionToInternal(dstCls);
      Some(MethodEntry(line, c, dc, src, dst, srcDesc, dstDesc))
  }

  /** `dstClsName?.toInternal()`: a missing name stays missing. */
  function OptionToInternal(n: Option<string>): Option<Option<string>> {
    match n
    case None => Some(None)
    case Some(x) => match ToInternal(x) case None => None case Some(y) => Some(Some(y))
  }

  /** The same entry with other class names. */
  predicate SameButClasses(a: Entry, b: Entry) {
    && a.line == b.line
    && a.ClassEntry? == b.ClassEntry? && a.FieldEntry? == b.FieldEntry?
    && (!a.ClassEntry? ==> a.srcName == b.srcName && a.dstName == b.dstName && a.dstClsName.Some? == b.dstClsName.Some?)
    && (a.MethodEntry? ==> a.srcDesc == b.srcDesc && a.dstDesc == b.dstDesc)
  }

  /** Conversion changes class names only, and fails exactly when one of
      the entry's class names cannot be converted. */
  lemma EntryToInternalMeaning(e: Entry)
    ensures EntryToInternal(e).Some? ==> SameButClasses(e, EntryToInternal(e).value)
    ensures EntryToInternal(e).Some? ==> ToInternal(e.SrcClass()) == Some(EntryToInternal(e).value.SrcClass())
    ensures EntryToInternal(e).None? <==> (ToInternal(e.SrcClass()).None?
      || (e.ClassEntry? && ToInternal(e.dstName).None?)
      || (!e.ClassEntry? && e.dstClsName.Some? && ToInternal(e.dstClsName.value).None?))
  {
  }

  /** `entries.map { … toInternal … }`: the first name that cannot be
      converted aborts with its entry's line. */
  function AllToInternal(es: seq<Entry>): (r: Result<seq<Entry>, ResolveError>)
    ensures r.Ok? ==> |r.value| == |es| && forall k :: 0 <= k < |es| ==> EntryToInternal(es[k]) == Some(r.value[k])
    ensures r.Err? ==> exists k :: 0 <= k < |es| && EntryToInternal(es[k]).None? && r.error == BadName(es[k].line)
  {
    if |es| == 0 then Ok([])
    else match EntryToInternal(es[0])
      case None => Err(BadName(es[0].line))
      case Some(e) =>
        match AllToInternal(es[1..])
        case Err(err) => Err(err)
        case Ok(rest) => Ok([e] + rest)
  }

  // ---------------------------------------------------------------------
  // Problems and errors

  /** Entries dropped with a logged error. */
  datatype Problem =
    | UnmappedSourceClass(line: nat, name: string)
    | UnmappedDestinationClass(line: nat, sharedName: Option<string>)
    | NoSignature(line: nat)
    | NoSuchMethod(line: nat)

  /** Failures that abort resolution: an exception from `toInternal`, or a
      `!!` on a missing destination name or descriptor. */
  datatype ResolveError = BadName(line: nat) | MissingDestinationName(line: nat) | MissingDescriptor(line: nat)

  // ---------------------------------------------------------------------
  // The class table

  /** The manual class entries as pairs, in file order. */
  function ClassPairs(es: seq<Entry>): (r: seq<ClassPair>)
    ensures forall p :: p in r <==> exists k :: 0 <= k < |es| && es[k].ClassEntry? && p == ClassPair(es[k].srcName, es[k].dstName)
  {
    if |es| == 0 then []
    else (if es[0].ClassEntry? then [ClassPair(es[0].srcName, es[0].dstName)] else []) + ClassPairs(es[1..])
  }

  /** The destination name of a source class through the shared
      namespace, if both trees know it. */
  function SharedDst(srcTree: Tree, dstTree: Tree, ids: Ids, c: ClassNode): Option<string> {
    match Name(c.names, ids.srcShared)
    case None => None
    case Some(sh) =>
      match GetClass(dstTree, sh, ids.dstShared)
      case None => None
      case Some(d) => Name(d.names, ids.dstNamed)
  }

  /** The classes both trees agree on, in the source tree's order. */
  function TreePairs(srcTree: Tree, dstTree: Tree, ids: Ids, cs: seq<ClassNode>): (r: seq<ClassPair>)
    ensures forall p :: p in r ==> exists c :: c in cs && Name(c.names, ids.srcNamed) == Some(p.src) && SharedDst(srcTree, dstTree, ids, c) == Some(p.dst)
    ensures forall c :: c in cs && Name(c.names, ids.srcNamed).Some? && SharedDst(srcTree, dstTree, ids, c).Some? ==>
      ClassPair(Name(c.names, ids.srcNamed).value, SharedDst(srcTree, dstTree, ids, c).value) in r
  {
    if |cs| == 0 then []
    else
      var c := cs[0];
      var here := match (Name(c.names, ids.srcNamed), SharedDst(srcTree, dstTree, ids, c))
        case (Some(s), Some(d)) => [ClassPair(s, d)]
        case _ => [];
      here + TreePairs(srcTree, dstTree, ids, cs[1..])
  }

  /** The class table: the agreed classes, then the manual ones. */
  function ClassTableOf(srcTree: Tree, dstTree: Tree, ids: Ids, extra: ClassTable): ClassTable {
    VisitAll(VisitAll([], TreePairs(srcTree, dstTree, ids, srcTree.classes)), extra)
  }

  /** A manual class entry decides a class's destination; otherwise a
      class both trees agree on maps to its destination through the
      shared namespace; any other class is unknown. */
  lemma ClassTableMeaning(srcTree: Tree, dstTree: Tree, ids: Ids, extra: ClassTable, n: string)
    requires UniqueSrc(extra)
    ensures var t := ClassTableOf(srcTree, dstTree, ids, extra);
      && UniqueSrc(t)
      && (Lookup(extra, n).Some? ==> Lookup(t, n) == Lookup(extra, n))
      && (Lookup(extra, n).None? && Lookup(t, n).Some? ==> exists c :: (c in srcTree.classes
            && Name(c.names, ids.srcNamed) == Some(n) && SharedDst(srcTree, dstTree, ids, c) == Lookup(t, n)))
      && (Lookup(t, n).None? ==> forall c :: c in srcTree.classes && Name(c.names, ids.srcNamed) == Some(n) ==> SharedDst(srcTree, dstTree, ids, c).None?)
  {
    var tp := TreePairs(srcTree, dstTree, ids, srcTree.classes);
    var base := VisitAll([], tp);
    VisitAllMeaning([], tp);
    VisitAllMeaning(base, extra);
    LastDstOfTable(extra, n);
    if Lookup(extra, n).None? {
      var t := ClassTableOf(srcTree, dstTree, ids, extra);
      assert Lookup(t, n) == Lookup(base, n) == LastDst(tp, n);
      if LastDst(tp, n).Some? {
        assert ClassPair(n, LastDst(tp, n).value) in tp;
      }
    }
  }

  /** A table without repeated sources is its own last-pair lookup. */
  lemma {:induction false} LastDstOfTable(t: ClassTable, n: string)
    requires UniqueSrc(t)
    ensures LastDst(t, n) == Lookup(t, n)
  {
    if |t| > 0 {
      var init := t[..|t| - 1];
      assert UniqueSrc(init);
      LastDstOfTable(init, n);
      if t[|t| - 1].src != n {
        assert Lookup(t, n) == Lookup(init, n) by {
          assert forall j :: 0 <= j < |init| ==> init[j] == t[j];
          if Lookup(t, n).Some? {
            var j :| 0 <= j < |t| && t[j] == ClassPair(n, Lookup(t, n).value);
            assert j < |init|;
          }
          if Lookup(init, n).Some? {
            var j :| 0 <= j < |init| && init[j] == ClassPair(n, Lookup(init, n).value);
            assert t[j] == init[j];
          }
        }
      } else {
        assert Lookup(t, n) == Some(t[|t| - 1].dst) by {
          var j :| 0 <= j < |t| && t[j] == ClassPair(n, Lookup(t, n).value);
          assert j == |t| - 1;
        }
      }
    }
  }

  // ---------------------------------------------------------------------
  // Completing entries

  /** What completion reads: both trees, the namespace ids, the manual
      class mapping (`extraClsMappings`) and the class table. */
  datatype Env = Env(srcTree: Tree, dstTree: Tree, ids: Ids, extra: ClassTable, table: ClassTable)

  /** A source descriptor in destination terms (`mapDesc` source to
      destination through the class table). */
  function FwdDesc(env: Env, d: string): string {
    MapDesc(d, n => Forward(env.table, n))
  }

  /** A destination descriptor in source terms. */
  function BwdDesc(env: Env, d: string): string {
    MapDesc(d, n => Backward(env.table, n))
  }

  datatype Found = Found(name: string) | NotFound(problem: Problem)

  /** `findDstCls`: the manual class mapping first, then the source class
      through the shared namespace to the destination tree. The class
      found is the manual one when there is one, and otherwise the name of
      a destination-tree class sharing the source class's shared name;
      nothing is found only when one of those classes is missing. */
  function FindDstCls(env: Env, line: nat, srcName: string): (r: Result<Found, ResolveError>)
    ensures Lookup(env.extra, srcName).Some? ==> r == Ok(Found(Lookup(env.extra, srcName).value))
    ensures Lookup(env.extra, srcName).None? && r.Ok? && r.value.Found? ==>
      exists c, dc :: (c in env.srcTree.classes && dc in env.dstTree.classes
        && Name(c.names, env.ids.srcNamed) == Some(srcName)
        && Name(c.names, env.ids.srcShared).Some? && Name(dc.names, env.ids.dstShared) == Name(c.names, env.ids.srcShared)
        && Name(dc.names, env.ids.dstNamed) == Some(r.value.name))
    ensures r == Ok(NotFound(UnmappedSourceClass(line, srcName))) <==>
      Lookup(env.extra, srcName).None? && forall c :: c in env.srcTree.classes ==> Name(c.names, env.ids.srcNamed) != Some(srcName)
    ensures r.Ok? && r.value.NotFound? ==> r.value.problem.line == line
    ensures r.Err? ==> r.error == MissingDestinationName(line)
  {
    match Lookup(env.extra, srcName)
    case Some(n) => Ok(Found(n))
    case None =>
      match GetClass(env.srcTree, srcName, env.ids.srcNamed)
      case None => Ok(NotFound(UnmappedSourceClass(line, srcName)))
      case Some(c) =>
        var shared := Name(c.names, env.ids.srcShared);
        var d := if shared.Some? then GetClass(env.dstTree, shared.value, env.ids.dstShared) else None;
        match d
        case None => Ok(NotFound(UnmappedDestinationClass(line, shared)))
        case Some(dc) =>
          match Name(dc.names, env.ids.dstNamed)
          case None => Err(MissingDestinationName(line))
          case Some(n) => Ok(Found(n))
  }

  /** The methods with a name in a namespace, in class order. */
  function Named(ms: seq<MemberNode>, name: string, id: int): (r: seq<MemberNode>)
    ensures |r| <= |ms|
    ensures forall m :: m in r <==> m in ms && Name(m.names, id) == Some(name)
  {
    if |ms| == 0 then []
    else (if Name(ms[0].names, id) == Some(name) then [ms[0]] else []) + Named(ms[1..], name, id)
  }

  function MethodsOf(c: Option<ClassNode>): seq<MemberNode> {
    if c.Some? then c.value.methods else []
  }

  /** The position of the first method with a descriptor. */
  function FindByDesc(tree: Tree, ms: seq<MemberNode>, desc: string, id: int): (r: Option<nat>)
    ensures r.Some? ==> r.value < |ms| && Desc(tree, ms[r.value], id) == Some(desc)
    ensures r.Some? ==> forall j :: 0 <= j < r.value ==> Desc(tree, ms[j], id) != Some(desc)
    ensures r.None? ==> forall j :: 0 <= j < |ms| ==> Desc(tree, ms[j], id) != Some(desc)
  {
    if |ms| == 0 then None
    else if Desc(tree, ms[0], id) == Some(desc) then Some(0)
    else match FindByDesc(tree, ms[1..], desc, id)
      case None => None
      case Some(i) => Some(i + 1)
  }

  /** The result of pairing overloads by descriptor: the paired entries
      and the overloads left on either side. */
  datatype Paired = Paired(entries: seq<Entry>, srcLeft: seq<MemberNode>, dstLeft: seq<MemberNode>)

  /** The entry for a method with its two descriptors. */
  function WithDescs(e: Entry, srcDesc: Option<string>, dstDesc: Option<string>): Entry
    requires e.MethodEntry?
  {
    e.(srcDesc := srcDesc, dstDesc := dstDesc)
  }

  /** `x` is the method entry `e` with some descriptors. */
  predicate SameMethod(x: Entry, e: Entry)
    requires e.MethodEntry?
  {
    x.MethodEntry? && x == WithDescs(e, x.srcDesc, x.dstDesc)
  }

  /** `srcMethods.removeIf { … }`: each source overload in turn takes the
      first remaining destination overload whose descriptor is its own
      mapped forward; a source overload without descriptor aborts. */
  function ExactPairs(env: Env, e: Entry, srcMs: seq<MemberNode>, dstMs: seq<MemberNode>): (r: Result<Paired, ResolveError>)
    requires e.MethodEntry?
    ensures r.Ok? ==> |r.value.entries| + |r.value.srcLeft| == |srcMs| && |r.value.entries| + |r.value.dstLeft| == |dstMs|
    ensures r.Ok? ==> forall k :: 0 <= k < |r.value.entries| ==>
      SameMethod(r.value.entries[k], e) && r.value.entries[k].srcDesc.Some?
      && r.value.entries[k].dstDesc == Some(FwdDesc(env, r.value.entries[k].srcDesc.value))
    ensures r.Err? ==> r.error == MissingDescriptor(e.line)
    decreases |srcMs|
  {
    if |srcMs| == 0 then Ok(Paired([], [], dstMs))
    else
      match Desc(env.srcTree, srcMs[0], env.ids.srcNamed)
      case None => Err(MissingDescriptor(e.line))
      case Some(sd) =>
        var dd := FwdDesc(env, sd);
        match FindByDesc(env.dstTree, dstMs, dd, env.ids.dstNamed)
        case None =>
          var rest :- ExactPairs(env, e, srcMs[1..], dstMs);
          Ok(Paired(rest.entries, [srcMs[0]] + rest.srcLeft, rest.dstLeft))
        case Some(i) =>
          var rest :- ExactPairs(env, e, srcMs[1..], dstMs[..i] + dstMs[i + 1..]);
          Ok(Paired([WithDescs(e, Some(sd), Some(dd))] + rest.entries, rest.srcLeft, rest.dstLeft))
  }

  /** `xs` is `ys` with some elements left out, the rest in order. */
  predicate Subseq<T(==)>(xs: seq<T>, ys: seq<T>)
    decreases |ys|
  {
    if |ys| == 0 then |xs| == 0
    else Subseq(xs, ys[1..]) || (|xs| > 0 && xs[0] == ys[0] && Subseq(xs[1..], ys[1..]))
  }

  lemma {:induction false} SubseqIn<T>(xs: seq<T>, ys: seq<T>)
    requires Subseq(xs, ys)
    ensures forall x :: x in xs ==> x in ys
    decreases |ys|
  {
    if |ys| > 0 {
      if Subseq(xs, ys[1..]) {
        SubseqIn(xs, ys[1..]);
      } else {
        SubseqIn(xs[1..], ys[1..]);
        assert xs == [xs[0]] + xs[1..];
      }
    }
  }

  lemma {:induction false} SubseqRefl<T>(xs: seq<T>)
    ensures Subseq(xs, xs)
    decreases |xs|
  {
    if |xs| > 0 {
      SubseqRefl(xs[1..]);
    }
  }

  lemma {:induction false} SubseqTrans<T>(a: seq<T>, b: seq<T>, c: seq<T>)
    requires Subseq(a, b) && Subseq(b, c)
    ensures Subseq(a, c)
    decreases |c|
  {
    if |c| > 0 {
      if Subseq(b, c[1..]) {
        SubseqTrans(a, b, c[1..]);
      } else if Subseq(a, b[1..]) {
        SubseqTrans(a, b[1..], c[1..]);
      } else {
        SubseqTrans(a[1..], b[1..], c[1..]);
      }
    }
  }

  /** Dropping one element leaves a subsequence. */
  lemma {:induction false} SubseqRemove<T>(ys: seq<T>, i: nat)
    requires i < |ys|
    ensures Subseq(ys[..i] + ys[i + 1..], ys)
    decreases i
  {
    if i == 0 {
      assert ys[..0] + ys[1..] == ys[1..];
      SubseqRefl(ys[1..]);
    } else {
      SubseqRemove(ys[1..], i - 1);
      assert (ys[..i] + ys[i + 1..])[1..] == ys[1..][..i - 1] + ys[1..][i..];
    }
  }

  /** What the exact pairing promises: it fails exactly when a source
      overload has no descriptor; otherwise the overloads left over keep
      their order, every pair joins a source overload to a destination
      overload whose descriptor is the source one mapped forward, and no
      source overload left over has such a partner among the destination
      overloads left over. */
  lemma ExactPairsMeaning(env: Env, e: Entry, srcMs: seq<MemberNode>, dstMs: seq<MemberNode>)
    requires e.MethodEntry?
    ensures ExactPairs(env, e, srcMs, dstMs).Err? <==> exists m :: m in srcMs && Desc(env.srcTree, m, env.ids.srcNamed).None?
    ensures var r := ExactPairs(env, e, srcMs, dstMs);
      r.Ok? ==> Subseq(r.value.srcLeft, srcMs) && Subseq(r.value.dstLeft, dstMs)
    ensures var r := ExactPairs(env, e, srcMs, dstMs);
      r.Ok? ==> AllCarried(env, r.value.entries, srcMs, dstMs)
    ensures var r := ExactPairs(env, e, srcMs, dstMs);
      r.Ok? ==> forall s, d :: s in r.value.srcLeft && d in r.value.dstLeft ==> Unpartnered(env, s, d)
  {
    ExactPairsFails(env, e, srcMs, dstMs);
    ExactPairsLeft(env, e, srcMs, dstMs);
    ExactPairsFrom(env, e, srcMs, dstMs);
    ExactPairsMaximal(env, e, srcMs, dstMs);
  }

  /** The source overload `s` has a descriptor, and `d` does not carry it
      mapped forward. */
  predicate Unpartnered(env: Env, s: MemberNode, d: MemberNode) {
    Desc(env.srcTree, s, env.ids.srcNamed).Some? &&
    Desc(env.dstTree, d, env.ids.dstNamed) != Some(FwdDesc(env, Desc(env.srcTree, s, env.ids.srcNamed).value))
  }

  /** Some member of `ms` has no descriptor in namespace `id`. */
  predicate LacksDesc(tree: Tree, ms: seq<MemberNode>, id: int)
    decreases |ms|
  {
    |ms| > 0 && (Desc(tree, ms[0], id).None? || LacksDesc(tree, ms[1..], id))
  }

  lemma {:induction false} LacksDescMeaning(tree: Tree, ms: seq<MemberNode>, id: int)
    ensures LacksDesc(tree, ms, id) <==> exists m :: m in ms && Desc(tree, m, id).None?
    decreases |ms|
  {
    if |ms| > 0 {
      LacksDescMeaning(tree, ms[1..], id);
      assert forall m :: m in ms <==> m == ms[0] || m in ms[1..] by {
        assert ms == [ms[0]] + ms[1..];
      }
    }
  }

  lemma {:induction false} ExactPairsFailsLacking(env: Env, e: Entry, srcMs: seq<MemberNode>, dstMs: seq<MemberNode>)
    requires e.MethodEntry?
    ensures ExactPairs(env, e, srcMs, dstMs).Err? <==> LacksDesc(env.srcTree, srcMs, env.ids.srcNamed)
    decreases |srcMs|
  {
    if |srcMs| > 0 {
      match Desc(env.srcTree, srcMs[0], env.ids.srcNamed)
      case None =>
      case Some(sd) =>
        match FindByDesc(env.dstTree, dstMs, FwdDesc(env, sd), env.ids.dstNamed)
        case None =>
          ExactPairsFailsLacking(env, e, srcMs[1..], dstMs);
        case Some(i) =>
          ExactPairsFailsLacking(env, e, srcMs[1..], dstMs[..i] + dstMs[i + 1..]);
    }
  }

  lemma ExactPairsFails(env: Env, e: Entry, srcMs: seq<MemberNode>, dstMs: seq<MemberNode>)
    requires e.MethodEntry?
    ensures ExactPairs(env, e, srcMs, dstMs).Err? <==> exists m :: m in srcMs && Desc(env.srcTree, m, env.ids.srcNamed).None?
  {
    ExactPairsFailsLacking(env, e, srcMs, dstMs);
    LacksDescMeaning(env.srcTree, srcMs, env.ids.srcNamed);
  }

  lemma {:induction false} ExactPairsLeft(env: Env, e: Entry, srcMs: seq<MemberNode>, dstMs: seq<MemberNode>)
    requires e.MethodEntry?
    ensures var r := ExactPairs(env, e, srcMs, dstMs);
      r.Ok? ==> Subseq(r.value.srcLeft, srcMs) && Subseq(r.value.dstLeft, dstMs)
    decreases |srcMs|
  {
    if |srcMs| == 0 {
      SubseqRefl(dstMs);
    } else {
      var r := ExactPairs(env, e, srcMs, dstMs);
      var tail := srcMs[1..];
      match Desc(env.srcTree, srcMs[0], env.ids.srcNamed)
      case None =>
      case Some(sd) =>
        match FindByDesc(env.dstTree, dstMs, FwdDesc(env, sd), env.ids.dstNamed)
        case None =>
          ExactPairsLeft(env, e, tail, dstMs);
          if r.Ok? {
            var rest := ExactPairs(env, e, tail, dstMs).value;
            assert r.value.srcLeft == [srcMs[0]] + rest.srcLeft;
            assert r.value.srcLeft[1..] == rest.srcLeft;
          }
        case Some(i) =>
          var dropped := dstMs[..i] + dstMs[i + 1..];
          ExactPairsLeft(env, e, tail, dropped);
          if r.Ok? {
            SubseqRemove(dstMs, i);
            SubseqTrans(ExactPairs(env, e, tail, dropped).value.dstLeft, dropped, dstMs);
          }
    }
  }

  /** Some member of `ms` has the descriptor `d` in namespace `id`. */
  predicate Carries(tree: Tree, ms: seq<MemberNode>, id: int, d: Option<string>) {
    exists m :: m in ms && Desc(tree, m, id) == d
  }

  /** Every entry's descriptors are carried by some overload on each side. */
  predicate AllCarried(env: Env, xs: seq<Entry>, srcMs: seq<MemberNode>, dstMs: seq<MemberNode>) {
    forall k :: 0 <= k < |xs| ==>
      && xs[k].MethodEntry?
      && Carries(env.srcTree, srcMs, env.ids.srcNamed, xs[k].srcDesc)
      && Carries(env.dstTree, dstMs, env.ids.dstNamed, xs[k].dstDesc)
  }

  lemma AllCarriedWithin(env: Env, xs: seq<Entry>, srcA: seq<MemberNode>, dstA: seq<MemberNode>, srcB: seq<MemberNode>, dstB: seq<MemberNode>)
    requires forall m :: m in srcA ==> m in srcB
    requires forall m :: m in dstA ==> m in dstB
    requires AllCarried(env, xs, srcA, dstA)
    ensures AllCarried(env, xs, srcB, dstB)
  {
    forall k | 0 <= k < |xs|
      ensures Carries(env.srcTree, srcB, env.ids.srcNamed, xs[k].srcDesc)
      ensures Carries(env.dstTree, dstB, env.ids.dstNamed, xs[k].dstDesc)
    {
      var ms :| ms in srcA && Desc(env.srcTree, ms, env.ids.srcNamed) == xs[k].srcDesc;
      var md :| md in dstA && Desc(env.dstTree, md, env.ids.dstNamed) == xs[k].dstDesc;
      assert ms in srcB && md in dstB;
    }
  }

  lemma AllCarriedCons(env: Env, x: Entry, xs: seq<Entry>, srcMs: seq<MemberNode>, dstMs: seq<MemberNode>)
    requires x.MethodEntry?
    requires Carries(env.srcTree, srcMs, env.ids.srcNamed, x.srcDesc)
    requires Carries(env.dstTree, dstMs, env.ids.dstNamed, x.dstDesc)
    requires AllCarried(env, xs, srcMs, dstMs)
    ensures AllCarried(env, [x] + xs, srcMs, dstMs)
  {
    forall k | 0 <= k < |[x] + xs|
      ensures ([x] + xs)[k] == if k == 0 then x else xs[k - 1]
    {
    }
  }

  lemma {:induction false} ExactPairsFrom(env: Env, e: Entry, srcMs: seq<MemberNode>, dstMs: seq<MemberNode>)
    requires e.MethodEntry?
    ensures var r := ExactPairs(env, e, srcMs, dstMs);
      r.Ok? ==> AllCarried(env, r.value.entries, srcMs, dstMs)
    decreases |srcMs|
  {
    if |srcMs| > 0 {
      var r := ExactPairs(env, e, srcMs, dstMs);
      var tail := srcMs[1..];
      assert forall m :: m in tail ==> m in srcMs;
      match Desc(env.srcTree, srcMs[0], env.ids.srcNamed)
      case None =>
      case Some(sd) =>
        var dd := FwdDesc(env, sd);
        match FindByDesc(env.dstTree, dstMs, dd, env.ids.dstNamed)
        case None =>
          ExactPairsFrom(env, e, tail, dstMs);
          if r.Ok? {
            assert ExactPairs(env, e, tail, dstMs).Ok?;
            AllCarriedWithin(env, ExactPairs(env, e, tail, dstMs).value.entries, tail, dstMs, srcMs, dstMs);
          }
        case Some(i) =>
          var dropped := dstMs[..i] + dstMs[i + 1..];
          assert forall m :: m in dropped ==> m in dstMs;
          ExactPairsFrom(env, e, tail, dropped);
          if r.Ok? {
            assert ExactPairs(env, e, tail, dropped).Ok?;
            var rest := ExactPairs(env, e, tail, dropped).value.entries;
            AllCarriedWithin(env, rest, tail, dropped, srcMs, dstMs);
            assert srcMs[0] in srcMs && dstMs[i] in dstMs;
            AllCarriedCons(env, WithDescs(e, Some(sd), Some(dd)), rest, srcMs, dstMs);
          }
    }
  }

  lemma {:induction false} ExactPairsMaximal(env: Env, e: Entry, srcMs: seq<MemberNode>, dstMs: seq<MemberNode>)
    requires e.MethodEntry?
    ensures var r := ExactPairs(env, e, srcMs, dstMs);
      r.Ok? ==> forall s, d :: s in r.value.srcLeft && d in r.value.dstLeft ==> Unpartnered(env, s, d)
    decreases |srcMs|
  {
    if |srcMs| > 0 {
      var r := ExactPairs(env, e, srcMs, dstMs);
      var tail := srcMs[1..];
      match Desc(env.srcTree, srcMs[0], env.ids.srcNamed)
      case None =>
      case Some(sd) =>
        match FindByDesc(env.dstTree, dstMs, FwdDesc(env, sd), env.ids.dstNamed)
        case None =>
          ExactPairsMaximal(env, e, tail, dstMs);
          ExactPairsLeft(env, e, tail, dstMs);
          if r.Ok? {
            var rest := ExactPairs(env, e, tail, dstMs).value;
            SubseqIn(rest.dstLeft, dstMs);
            assert r.value.srcLeft == [srcMs[0]] + rest.srcLeft;
            forall d | d in rest.dstLeft ensures Unpartnered(env, srcMs[0], d) {
              var j :| 0 <= j < |dstMs| && dstMs[j] == d;
            }
          }
        case Some(i) =>
          ExactPairsMaximal(env, e, tail, dstMs[..i] + dstMs[i + 1..]);
    }
  }

  /** `zip`: the remaining overloads paired in order. */
  function ZipLeft(env: Env, e: Entry, srcMs: seq<MemberNode>, dstMs: seq<MemberNode>): (r: seq<Entry>)
    requires e.MethodEntry?
    ensures |r| == if |srcMs| < |dstMs| then |srcMs| else |dstMs|
    ensures forall k :: 0 <= k < |r| ==>
      r[k] == WithDescs(e, Desc(env.srcTree, srcMs[k], env.ids.srcNamed), Desc(env.dstTree, dstMs[k], env.ids.dstNamed))
  {
    if |srcMs| == 0 || |dstMs| == 0 then []
    else
      var first := WithDescs(e, Desc(env.srcTree, srcMs[0], env.ids.srcNamed), Desc(env.dstTree, dstMs[0], env.ids.dstNamed));
      [first] + ZipLeft(env, e, srcMs[1..], dstMs[1..])
  }

  /** Descriptors of members, `None` when one lacks a descriptor. */
  function AllDescs(tree: Tree, ms: seq<MemberNode>, id: int): (r: Option<seq<string>>)
    ensures r.Some? ==> |r.value| == |ms| && forall k :: 0 <= k < |ms| ==> Desc(tree, ms[k], id) == Some(r.value[k])
    ensures r.None? ==> exists k :: 0 <= k < |ms| && Desc(tree, ms[k], id).None?
  {
    if |ms| == 0 then Some([])
    else match (Desc(tree, ms[0], id), AllDescs(tree, ms[1..], id))
      case (Some(d), Some(rest)) => Some([d] + rest)
      case (None, _) => None
      case (_, None) => None
  }

  /** Destination descriptors in source terms. */
  function BwdDescs(env: Env, ds: seq<string>): (r: seq<string>)
    ensures |r| == |ds| && forall k :: 0 <= k < |ds| ==> r[k] == BwdDesc(env, ds[k])
  {
    if |ds| == 0 then [] else [BwdDesc(env, ds[0])] + BwdDescs(env, ds[1..])
  }

  /** `mutableSetOf` filled in order: first occurrences, in order. */
  function Dedup(xs: seq<string>): (r: seq<string>)
    ensures forall x :: x in r <==> x in xs
    ensures forall i, j :: 0 <= i < j < |r| ==> r[i] != r[j]
  {
    if |xs| == 0 then []
    else
      var init := Dedup(xs[..|xs| - 1]);
      assert forall x :: x in xs <==> x in xs[..|xs| - 1] || x == xs[|xs| - 1];
      if xs[|xs| - 1] in init then init else init + [xs[|xs| - 1]]
  }

  /** One entry per source-side descriptor. */
  function EntriesFor(env: Env, e: Entry, descs: seq<string>): (r: seq<Entry>)
    requires e.MethodEntry?
    ensures |r| == |descs|
    ensures forall k :: 0 <= k < |descs| ==> r[k] == WithDescs(e, Some(descs[k]), Some(FwdDesc(env, descs[k])))
  {
    if |descs| == 0 then [] else [WithDescs(e, Some(descs[0]), Some(FwdDesc(env, descs[0])))] + EntriesFor(env, e, descs[1..])
  }

  /** With as many overloads on both sides: the exact pairs, then the
      rest in order. Every source overload gives exactly one entry. */
  function PairOverloads(env: Env, e: Entry, srcMs: seq<MemberNode>, dstMs: seq<MemberNode>): (r: Result<seq<Entry>, ResolveError>)
    requires e.MethodEntry? && |srcMs| == |dstMs|
    ensures r.Ok? ==> |r.value| == |srcMs|
    ensures r.Ok? ==> forall x :: x in r.value ==> SameMethod(x, e)
    ensures r.Err? ==> r.error == MissingDescriptor(e.line)
  {
    var p :- ExactPairs(env, e, srcMs, dstMs);
    Ok(p.entries + ZipLeft(env, e, p.srcLeft, p.dstLeft))
  }

  /** With different overload counts: every descriptor of either side,
      in source terms, once each, in order of appearance; `None` when an
      overload has no descriptor. */
  function OverloadDescs(env: Env, srcMs: seq<MemberNode>, dstMs: seq<MemberNode>): (r: Option<seq<string>>)
    ensures r.Some? ==> forall i, j :: 0 <= i < j < |r.value| ==> r.value[i] != r.value[j]
  {
    match (AllDescs(env.srcTree, srcMs, env.ids.srcNamed), AllDescs(env.dstTree, dstMs, env.ids.dstNamed))
    case (Some(sds), Some(dds)) => Some(Dedup(sds + BwdDescs(env, dds)))
    case _ => None
  }

  /** Every overload's descriptor is collected, a destination one mapped
      back to source terms. */
  lemma OverloadDescsCover(env: Env, srcMs: seq<MemberNode>, dstMs: seq<MemberNode>)
    requires OverloadDescs(env, srcMs, dstMs).Some?
    ensures var r := OverloadDescs(env, srcMs, dstMs).value;
      forall m :: m in srcMs ==> Desc(env.srcTree, m, env.ids.srcNamed).Some? && Desc(env.srcTree, m, env.ids.srcNamed).value in r
    ensures var r := OverloadDescs(env, srcMs, dstMs).value;
      forall m :: m in dstMs ==> Desc(env.dstTree, m, env.ids.dstNamed).Some? && BwdDesc(env, Desc(env.dstTree, m, env.ids.dstNamed).value) in r
  {
    var sds := AllDescs(env.srcTree, srcMs, env.ids.srcNamed).value;
    var dds := AllDescs(env.dstTree, dstMs, env.ids.dstNamed).value;
    var all := sds + BwdDescs(env, dds);
    forall m | m in srcMs
      ensures Desc(env.srcTree, m, env.ids.srcNamed).Some? && Desc(env.srcTree, m, env.ids.srcNamed).value in all
    {
      var k :| 0 <= k < |srcMs| && srcMs[k] == m;
      assert all[k] == sds[k];
    }
    forall m | m in dstMs
      ensures Desc(env.dstTree, m, env.ids.dstNamed).Some? && BwdDesc(env, Desc(env.dstTree, m, env.ids.dstNamed).value) in all
    {
      var k :| 0 <= k < |dstMs| && dstMs[k] == m;
      assert all[|sds| + k] == BwdDesc(env, dds[k]);
    }
  }

  /** Only overloads' descriptors are collected. */
  lemma OverloadDescsOnly(env: Env, srcMs: seq<MemberNode>, dstMs: seq<MemberNode>, d: string)
    requires OverloadDescs(env, srcMs, dstMs).Some?
    requires d in OverloadDescs(env, srcMs, dstMs).value
    ensures (exists m :: m in srcMs && Desc(env.srcTree, m, env.ids.srcNamed) == Some(d))
      || (exists m :: m in dstMs && Desc(env.dstTree, m, env.ids.dstNamed).Some? && BwdDesc(env, Desc(env.dstTree, m, env.ids.dstNamed).value) == d)
  {
    var sds := AllDescs(env.srcTree, srcMs, env.ids.srcNamed).value;
    var dds := AllDescs(env.dstTree, dstMs, env.ids.dstNamed).value;
    var bwd := BwdDescs(env, dds);
    assert d in sds + bwd;
    if d in sds {
      var k :| 0 <= k < |sds| && sds[k] == d;
      assert srcMs[k] in srcMs;
    } else {
      assert d in bwd;
      var k :| 0 <= k < |bwd| && bwd[k] == d;
      assert dstMs[k] in dstMs;
    }
  }

  /** Collecting fails exactly when an overload has no descriptor. */
  lemma OverloadDescsFail(env: Env, srcMs: seq<MemberNode>, dstMs: seq<MemberNode>)
    ensures OverloadDescs(env, srcMs, dstMs).None? <==> ((exists m :: m in srcMs && Desc(env.srcTree, m, env.ids.srcNamed).None?)
      || (exists m :: m in dstMs && Desc(env.dstTree, m, env.ids.dstNamed).None?))
  {
    var sa := AllDescs(env.srcTree, srcMs, env.ids.srcNamed);
    var da := AllDescs(env.dstTree, dstMs, env.ids.dstNamed);
    if sa.None? {
      var k :| 0 <= k < |srcMs| && Desc(env.srcTree, srcMs[k], env.ids.srcNamed).None?;
      assert srcMs[k] in srcMs;
    } else if da.None? {
      var k :| 0 <= k < |dstMs| && Desc(env.dstTree, dstMs[k], env.ids.dstNamed).None?;
      assert dstMs[k] in dstMs;
    }
  }

  /** What completing one entry gives: the completed entries and the
      problems logged. */
  datatype Outcome = Outcome(entries: seq<Entry>, problems: seq<Problem>)

  /** The source class's methods named like the entry's source side. */
  function SrcOverloads(env: Env, e: Entry): (r: seq<MemberNode>)
    requires !e.ClassEntry?
    ensures forall m :: m in r ==> Name(m.names, env.ids.srcNamed) == Some(e.srcName)
  {
    Named(MethodsOf(GetClass(env.srcTree, e.srcClsName, env.ids.srcNamed)), e.srcName, env.ids.srcNamed)
  }

  /** The destination class's methods named like the entry's destination side. */
  function DstOverloads(env: Env, e: Entry): (r: seq<MemberNode>)
    requires !e.ClassEntry? && e.dstClsName.Some?
    ensures forall m :: m in r ==> Name(m.names, env.ids.dstNamed) == Some(e.dstName)
  {
    Named(MethodsOf(GetClass(env.dstTree, e.dstClsName.value, env.ids.dstNamed)), e.dstName, env.ids.dstNamed)
  }

  /** The descriptor-less method entry `e` (its destination class already
      set) completed from the overloads of both classes: a missing
      signature is logged exactly when neither class is known, a missing
      method exactly when a class is known but neither side has an overload
      of that name, and no entry is made exactly then; otherwise equal
      overload counts are paired and unequal ones collected. */
  function CompleteOverloads(env: Env, e: Entry): (r: Result<Outcome, ResolveError>)
    requires e.MethodEntry? && e.dstClsName.Some?
    ensures r.Ok? ==> ((|r.value.entries| == 0 && |r.value.problems| == 1 && r.value.problems[0].line == e.line)
                   || (|r.value.entries| > 0 && |r.value.problems| == 0))
    ensures r.Ok? ==> forall x :: x in r.value.entries ==> SameMethod(x, e)
    ensures r.Err? ==> r.error == MissingDescriptor(e.line)
    ensures r == Ok(Outcome([], [NoSignature(e.line)])) <==>
      GetClass(env.srcTree, e.srcClsName, env.ids.srcNamed).None? && GetClass(env.dstTree, e.dstClsName.value, env.ids.dstNamed).None?
    ensures r == Ok(Outcome([], [NoSuchMethod(e.line)])) <==>
      (GetClass(env.srcTree, e.srcClsName, env.ids.srcNamed).Some? || GetClass(env.dstTree, e.dstClsName.value, env.ids.dstNamed).Some?)
      && |SrcOverloads(env, e)| == 0 && |DstOverloads(env, e)| == 0
    ensures (r.Ok? && |r.value.entries| == 0) <==> |SrcOverloads(env, e)| == 0 && |DstOverloads(env, e)| == 0
    ensures 0 < |SrcOverloads(env, e)| == |DstOverloads(env, e)| ==>
      && (r.Err? <==> PairOverloads(env, e, SrcOverloads(env, e), DstOverloads(env, e)).Err?)
      && (r.Ok? ==> r.value == Outcome(PairOverloads(env, e, SrcOverloads(env, e), DstOverloads(env, e)).value, []))
    ensures |SrcOverloads(env, e)| != |DstOverloads(env, e)| ==> r == UnequalOverloads(env, e, SrcOverloads(env, e), DstOverloads(env, e))
  {
    var srcCls := GetClass(env.srcTree, e.srcClsName, env.ids.srcNamed);
    var dstCls := GetClass(env.dstTree, e.dstClsName.value, env.ids.dstNamed);
    if srcCls.None? && dstCls.None? then Ok(Outcome([], [NoSignature(e.line)]))
    else
      var srcMs := SrcOverloads(env, e);
      var dstMs := DstOverloads(env, e);
      if |srcMs| == 0 && |dstMs| == 0 then Ok(Outcome([], [NoSuchMethod(e.line)]))
      else if |srcMs| == |dstMs| then
        var entries :- PairOverloads(env, e, srcMs, dstMs);
        Ok(Outcome(entries, []))
      else UnequalOverloads(env, e, srcMs, dstMs)
  }

  /** With different overload counts, at least one of them non-zero: one
      entry per collected descriptor. */
  function UnequalOverloads(env: Env, e: Entry, srcMs: seq<MemberNode>, dstMs: seq<MemberNode>): (r: Result<Outcome, ResolveError>)
    requires e.MethodEntry? && (|srcMs| > 0 || |dstMs| > 0)
    ensures r.Ok? ==> |r.value.entries| > 0 && |r.value.problems| == 0
    ensures r.Ok? ==> forall x :: x in r.value.entries ==> SameMethod(x, e)
    ensures r.Err? ==> r.error == MissingDescriptor(e.line)
    ensures r.Err? <==> OverloadDescs(env, srcMs, dstMs).None?
    ensures r.Ok? ==> r.value.entries == EntriesFor(env, e, OverloadDescs(env, srcMs, dstMs).value)
  {
    match OverloadDescs(env, srcMs, dstMs)
    case None => Err(MissingDescriptor(e.line))
    case Some(descs) =>
      OverloadDescsCover(env, srcMs, dstMs);
      assert |srcMs| > 0 ==> srcMs[0] in srcMs;
      assert |dstMs| > 0 ==> dstMs[0] in dstMs;
      Ok(Outcome(EntriesFor(env, e, descs), []))
  }

  /** The descriptor `d`, in source terms, is that of an overload of
      either side. */
  predicate OfOverload(env: Env, srcMs: seq<MemberNode>, dstMs: seq<MemberNode>, d: string) {
    || (exists m :: m in srcMs && Desc(env.srcTree, m, env.ids.srcNamed) == Some(d))
    || (exists m :: m in dstMs && Desc(env.dstTree, m, env.ids.dstNamed).Some? && BwdDesc(env, Desc(env.dstTree, m, env.ids.dstNamed).value) == d)
  }

  /** Some entry of `xs` has the source descriptor `d`. */
  predicate HasSrcDesc(xs: seq<Entry>, d: string) {
    exists x :: x in xs && x.MethodEntry? && x.srcDesc == Some(d)
  }

  /** With unequal overload counts, completion fails exactly when an
      overload has no descriptor; otherwise every overload's descriptor,
      in source terms, has exactly one entry, no other entry is made, and
      each entry's destination descriptor is its source one mapped. */
  lemma UnequalOverloadsMeaning(env: Env, e: Entry, srcMs: seq<MemberNode>, dstMs: seq<MemberNode>)
    requires e.MethodEntry? && (|srcMs| > 0 || |dstMs| > 0)
    ensures UnequalOverloads(env, e, srcMs, dstMs).Err? <==>
      (exists m :: m in srcMs && Desc(env.srcTree, m, env.ids.srcNamed).None?)
      || (exists m :: m in dstMs && Desc(env.dstTree, m, env.ids.dstNamed).None?)
    ensures var r := UnequalOverloads(env, e, srcMs, dstMs);
      r.Ok? ==> forall m :: m in srcMs ==> HasSrcDesc(r.value.entries, Desc(env.srcTree, m, env.ids.srcNamed).value)
    ensures var r := UnequalOverloads(env, e, srcMs, dstMs);
      r.Ok? ==> forall m :: m in dstMs ==> HasSrcDesc(r.value.entries, BwdDesc(env, Desc(env.dstTree, m, env.ids.dstNamed).value))
    ensures var r := UnequalOverloads(env, e, srcMs, dstMs);
      r.Ok? ==> forall x :: x in r.value.entries ==>
        (x.srcDesc.Some? && x.dstDesc == Some(FwdDesc(env, x.srcDesc.value)) && OfOverload(env, srcMs, dstMs, x.srcDesc.value))
    ensures var r := UnequalOverloads(env, e, srcMs, dstMs);
      r.Ok? ==> forall i, j :: 0 <= i < j < |r.value.entries| ==> r.value.entries[i].srcDesc != r.value.entries[j].srcDesc
  {
    OverloadDescsFail(env, srcMs, dstMs);
    if UnequalOverloads(env, e, srcMs, dstMs).Ok? {
      UnequalOverloadsCover(env, e, srcMs, dstMs);
      UnequalOverloadsOnly(env, e, srcMs, dstMs);
    }
  }

  lemma UnequalOverloadsCover(env: Env, e: Entry, srcMs: seq<MemberNode>, dstMs: seq<MemberNode>)
    requires e.MethodEntry? && (|srcMs| > 0 || |dstMs| > 0)
    requires UnequalOverloads(env, e, srcMs, dstMs).Ok?
    ensures var xs := UnequalOverloads(env, e, srcMs, dstMs).value.entries;
      && (forall m :: m in srcMs ==> HasSrcDesc(xs, Desc(env.srcTree, m, env.ids.srcNamed).value))
      && (forall m :: m in dstMs ==> HasSrcDesc(xs, BwdDesc(env, Desc(env.dstTree, m, env.ids.dstNamed).value)))
  {
    var descs := OverloadDescs(env, srcMs, dstMs).value;
    var xs := UnequalOverloads(env, e, srcMs, dstMs).value.entries;
    OverloadDescsCover(env, srcMs, dstMs);
    forall d | d in descs
      ensures HasSrcDesc(xs, d)
    {
      var k :| 0 <= k < |descs| && descs[k] == d;
      assert xs[k] in xs;
    }
  }

  lemma UnequalOverloadsOnly(env: Env, e: Entry, srcMs: seq<MemberNode>, dstMs: seq<MemberNode>)
    requires e.MethodEntry? && (|srcMs| > 0 || |dstMs| > 0)
    requires UnequalOverloads(env, e, srcMs, dstMs).Ok?
    ensures var xs := UnequalOverloads(env, e, srcMs, dstMs).value.entries;
      forall x :: x in xs ==>
        (x.srcDesc.Some? && x.dstDesc == Some(FwdDesc(env, x.srcDesc.value)) && OfOverload(env, srcMs, dstMs, x.srcDesc.value))
  {
    var descs := OverloadDescs(env, srcMs, dstMs).value;
    var xs := UnequalOverloads(env, e, srcMs, dstMs).value.entries;
    forall x | x in xs
      ensures x.srcDesc.Some? && x.dstDesc == Some(FwdDesc(env, x.srcDesc.value)) && OfOverload(env, srcMs, dstMs, x.srcDesc.value)
    {
      var k :| 0 <= k < |xs| && xs[k] == x;
      OverloadDescsOnly(env, srcMs, dstMs, descs[k]);
    }
  }

  /** With equal overload counts, completion fails exactly when a source
      overload has no descriptor. Otherwise the exact pairs come first,
      each pairing a source overload with a destination overload that
      carries its descriptor mapped forward; then the overloads left over
      on both sides, as many on each, are paired by position, none of them
      having an exact partner among those left on the other side. */
  lemma PairOverloadsMeaning(env: Env, e: Entry, srcMs: seq<MemberNode>, dstMs: seq<MemberNode>)
    requires e.MethodEntry? && |srcMs| == |dstMs|
    ensures PairOverloads(env, e, srcMs, dstMs).Err? <==> exists m :: m in srcMs && Desc(env.srcTree, m, env.ids.srcNamed).None?
    ensures var r := PairOverloads(env, e, srcMs, dstMs);
      r.Ok? ==> var p := ExactPairs(env, e, srcMs, dstMs).value;
        && |p.srcLeft| == |p.dstLeft| && |r.value| == |p.entries| + |p.srcLeft|
        && Subseq(p.srcLeft, srcMs) && Subseq(p.dstLeft, dstMs)
        && (forall k :: 0 <= k < |p.entries| ==>
              (r.value[k] == p.entries[k] && r.value[k].srcDesc.Some?
               && r.value[k].dstDesc == Some(FwdDesc(env, r.value[k].srcDesc.value))
               && Carries(env.srcTree, srcMs, env.ids.srcNamed, r.value[k].srcDesc)
               && Carries(env.dstTree, dstMs, env.ids.dstNamed, r.value[k].dstDesc)))
        && (forall i :: 0 <= i < |p.srcLeft| ==>
              r.value[|p.entries| + i] == WithDescs(e, Desc(env.srcTree, p.srcLeft[i], env.ids.srcNamed), Desc(env.dstTree, p.dstLeft[i], env.ids.dstNamed)))
        && (forall s, d :: s in p.srcLeft && d in p.dstLeft ==> Unpartnered(env, s, d))
  {
    ExactPairsMeaning(env, e, srcMs, dstMs);
  }

  /** A method entry with its destination class set. */
  function CompleteMethod(env: Env, e: Entry): (r: Result<Outcome, ResolveError>)
    requires e.MethodEntry? && e.dstClsName.Some?
    ensures e.srcDesc.Some? && e.dstDesc.Some? ==> r == Ok(Outcome([e], []))
    ensures e.srcDesc.Some? && e.dstDesc.None? ==> r == Ok(Outcome([WithDescs(e, e.srcDesc, Some(FwdDesc(env, e.srcDesc.value)))], []))
    ensures e.srcDesc.None? && e.dstDesc.Some? ==> r == Ok(Outcome([WithDescs(e, Some(BwdDesc(env, e.dstDesc.value)), e.dstDesc)], []))
  {
    if e.srcDesc.Some? || e.dstDesc.Some? then
      var srcDesc := if e.srcDesc.Some? then e.srcDesc.value else BwdDesc(env, e.dstDesc.value);
      var dstDesc := if e.dstDesc.Some? then e.dstDesc.value else FwdDesc(env, e.srcDesc.value);
      Ok(Outcome([WithDescs(e, Some(srcDesc), Some(dstDesc))], []))
    else CompleteOverloads(env, e)
  }

  /** `x` is a completion of `e`: the same entry with its destination
      class found and, for a method, its descriptors filled in where the
      file left them out. */
  predicate Completes(x: Entry, e: Entry) {
    && x.line == e.line && x.SrcClass() == e.SrcClass()
    && x.ClassEntry? == e.ClassEntry? && x.FieldEntry? == e.FieldEntry?
    && (e.ClassEntry? ==> x == e)
    && (!e.ClassEntry? ==> x.srcName == e.srcName && x.dstName == e.dstName)
    && (!e.ClassEntry? ==> x.dstClsName.Some? && (e.dstClsName.Some? ==> x.dstClsName == e.dstClsName))
    && (e.MethodEntry? && e.srcDesc.Some? ==> x.srcDesc == e.srcDesc)
    && (e.MethodEntry? && e.dstDesc.Some? ==> x.dstDesc == e.dstDesc)
  }

  /** An entry with every class it needs: member entries name their
      destination class. */
  predicate Completed(e: Entry) {
    !e.ClassEntry? ==> e.dstClsName.Some?
  }

  /** The `flatMap` body for one entry: class entries pass through;
      member entries either give their completions or are dropped with
      one problem logged at their line. */
  function CompleteEntry(env: Env, e: Entry): (r: Result<Outcome, ResolveError>)
    ensures e.ClassEntry? ==> r == Ok(Outcome([e], []))
    ensures r.Ok? ==> ((|r.value.entries| == 0 && |r.value.problems| == 1 && r.value.problems[0].line == e.line)
                   || (|r.value.entries| > 0 && |r.value.problems| == 0))
    ensures r.Ok? ==> forall x :: x in r.value.entries ==> Completes(x, e) && Completed(x)
    ensures r.Err? ==> r.error.line == e.line
  {
    if e.ClassEntry? then Ok(Outcome([e], []))
    else
      var found :- if e.dstClsName.Some? then Ok(Found(e.dstClsName.value)) else FindDstCls(env, e.line, e.srcClsName);
      match found
      case NotFound(p) => Ok(Outcome([], [p]))
      case Found(n) =>
        var e' := e.(dstClsName := Some(n));
        if e'.FieldEntry? then Ok(Outcome([e'], [])) else CompleteMethod(env, e')
  }

  /** All entries in order; the first error aborts. */
  function CompleteAll(env: Env, es: seq<Entry>): (r: Result<Outcome, ResolveError>)
  {
    if |es| == 0 then Ok(Outcome([], []))
    else
      var first :- CompleteEntry(env, es[0]);
      var rest :- CompleteAll(env, es[1..]);
      Ok(Outcome(first.entries + rest.entries, first.problems + rest.problems))
  }

  /** Completing a file gives completions of its entries only, and logs
      problems at their lines only. */
  lemma CompleteAllSound(env: Env, es: seq<Entry>)
    requires CompleteAll(env, es).Ok?
    ensures forall x :: x in CompleteAll(env, es).value.entries ==> Completed(x) && exists k :: 0 <= k < |es| && Completes(x, es[k])
    ensures forall p :: p in CompleteAll(env, es).value.problems ==> exists k :: 0 <= k < |es| && p.line == es[k].line
  {
    CompleteAllEntries(env, es);
    CompleteAllLines(env, es);
  }

  /** The entries half of `CompleteAllSound`. */
  lemma {:induction false} CompleteAllEntries(env: Env, es: seq<Entry>)
    requires CompleteAll(env, es).Ok?
    ensures forall x :: x in CompleteAll(env, es).value.entries ==> Completed(x) && exists k :: 0 <= k < |es| && Completes(x, es[k])
  {
    if |es| > 0 {
      var first := CompleteEntry(env, es[0]).value;
      var rest := CompleteAll(env, es[1..]).value;
      CompleteAllEntries(env, es[1..]);
      assert CompleteAll(env, es).value.entries == first.entries + rest.entries;
      forall x | x in rest.entries
        ensures exists k :: 0 <= k < |es| && Completes(x, es[k])
      {
        var k :| 0 <= k < |es[1..]| && Completes(x, es[1..][k]);
        assert es[1..][k] == es[k + 1];
      }
    }
  }

  /** The problems half of `CompleteAllSound`. */
  lemma {:induction false} CompleteAllLines(env: Env, es: seq<Entry>)
    requires CompleteAll(env, es).Ok?
    ensures forall p :: p in CompleteAll(env, es).value.problems ==> exists k :: 0 <= k < |es| && p.line == es[k].line
  {
    if |es| > 0 {
      var first := CompleteEntry(env, es[0]).value;
      var rest := CompleteAll(env, es[1..]).value;
      CompleteAllLines(env, es[1..]);
      assert CompleteAll(env, es).value.problems == first.problems + rest.problems;
      forall p | p in rest.problems
        ensures exists k :: 0 <= k < |es| && p.line == es[k].line
      {
        var k :| 0 <= k < |es[1..]| && p.line == es[1..][k].line;
        assert es[1..][k] == es[k + 1];
      }
    }
  }

  /** An entry shows in an outcome: through a completion or a problem
      logged at its line. */
  predicate Accounted(o: Outcome, e: Entry) {
    (exists x :: x in o.entries && Completes(x, e)) || (exists p :: p in o.problems && p.line == e.line)
  }

  lemma AccountedAfter(first: Outcome, o: Outcome, e: Entry)
    requires Accounted(o, e)
    ensures Accounted(Outcome(first.entries + o.entries, first.problems + o.problems), e)
  {
    if exists x :: x in o.entries && Completes(x, e) {
      var x :| x in o.entries && Completes(x, e);
      assert x in first.entries + o.entries;
    } else {
      var p :| p in o.problems && p.line == e.line;
      assert p in first.problems + o.problems;
    }
  }

  /** No entry of a file is lost silently: each is completed or has a
      problem logged at its line. */
  lemma {:induction false} CompleteAllComplete(env: Env, es: seq<Entry>)
    requires CompleteAll(env, es).Ok?
    ensures forall k :: 0 <= k < |es| ==> Accounted(CompleteAll(env, es).value, es[k])
  {
    if |es| > 0 {
      var first := CompleteEntry(env, es[0]).value;
      var rest := CompleteAll(env, es[1..]).value;
      CompleteAllComplete(env, es[1..]);
      var out := CompleteAll(env, es).value;
      assert out == Outcome(first.entries + rest.entries, first.problems + rest.problems);
      assert Accounted(out, es[0]) by {
        if |first.entries| > 0 {
          assert first.entries[0] in out.entries && Completes(first.entries[0], es[0]);
        } else {
          assert first.problems[0] in out.problems;
        }
      }
      forall k | 1 <= k < |es|
        ensures Accounted(out, es[k])
      {
        assert es[k] == es[1..][k - 1];
        AccountedAfter(first, rest, es[k]);
      }
    }
  }

  // ---------------------------------------------------------------------
  // The backward direction

  /** An entry read the other way: source and destination swapped for the
      class, the member name and the descriptors. */
  function Swap(e: Entry): (r: Entry)
    requires Completed(e)
    ensures Completed(r) && r.line == e.line
    ensures r.ClassEntry? == e.ClassEntry? && r.FieldEntry? == e.FieldEntry?
    ensures !e.ClassEntry? ==> !r.ClassEntry? && r.SrcClass() == e.dstClsName.value && r.dstClsName == Some(e.SrcClass())
  {
    match e
    case ClassEntry(line, src, dst) => ClassEntry(line, dst, src)
    case FieldEntry(line, cls, dstCls, src, dst) => FieldEntry(line, dstCls.value, Some(cls), dst, src)
    case MethodEntry(line, cls, dstCls, src, dst, srcDesc, dstDesc) => MethodEntry(line, dstCls.value, Some(cls), dst, src, dstDesc, srcDesc)
  }

  /** Swapping twice gives the entry back. */
  lemma SwapTwice(e: Entry)
    requires Completed(e)
    ensures Swap(Swap(e)) == e
  {
  }

  function SwapAll(es: seq<Entry>): (r: seq<Entry>)
    requires forall x :: x in es ==> Completed(x)
    ensures |r| == |es| && forall k :: 0 <= k < |es| ==> r[k] == Swap(es[k])
  {
    if |es| == 0 then [] else [Swap(es[0])] + SwapAll(es[1..])
  }
}
