/** Strict-mode `mergeMappings`: the source tree's classes and members
    renamed to the destination tree's named names, matched through the
    shared namespace, with a table of manual mappings taking priority and
    every manual mapping the trees did not use appended. */
module StrictMerge {
  import opened Wrappers
  import opened Trees

  const NamedNs: string := "named"

  /** The four namespace ids `mergeMappings` works with, each looked up in
      the tree it belongs to. */
  datatype MergeIds = MergeIds(srcNamed: int, srcShared: int, dstShared: int, dstNamed: int)

  function MergeIdsOf(srcTree: Tree, dstTree: Tree, shared: string): (r: MergeIds)
    ensures NamespaceName(srcTree, r.srcNamed) == (if NamedNs == srcTree.srcNs || NamedNs in srcTree.dstNs then Some(NamedNs) else None)
    ensures NamespaceName(srcTree, r.srcShared) == (if shared == srcTree.srcNs || shared in srcTree.dstNs then Some(shared) else None)
    ensures NamespaceName(dstTree, r.dstShared) == (if shared == dstTree.srcNs || shared in dstTree.dstNs then Some(shared) else None)
    ensures NamespaceName(dstTree, r.dstNamed) == (if NamedNs == dstTree.srcNs || NamedNs in dstTree.dstNs then Some(NamedNs) else None)
  {
    NamespaceIdMeaning(srcTree, NamedNs);
    NamespaceIdMeaning(srcTree, shared);
    NamespaceIdMeaning(dstTree, shared);
    NamespaceIdMeaning(dstTree, NamedNs);
    MergeIds(NamespaceId(srcTree, NamedNs), NamespaceId(srcTree, shared), NamespaceId(dstTree, shared), NamespaceId(dstTree, NamedNs))
  }

  /** What is logged for a manual member that has no descriptor. */
  datatype Kind = FieldKind | MethodKind
  datatype Logged = MissingDescriptor(kind: Kind, owner: string, member: string)

  // ---------------------------------------------------------------------
  // Small helpers

  /** The sequence without its `i`th element. */
  function RemoveAt<T>(s: seq<T>, i: nat): (r: seq<T>)
    requires i < |s|
    ensures |r| == |s| - 1
    ensures forall x :: x in r ==> x in s
    ensures forall x :: x in s && x != s[i] ==> x in r
  {
    assert s == s[..i] + [s[i]] + s[i + 1..];
    s[..i] + s[i + 1..]
  }

  // ---------------------------------------------------------------------
  // Members

  /** `m` is a manual member the lookup `getField` / `getMethod(name, desc)`
      can return: the same name, and the same descriptor unless none is
      asked for. */
  predicate Claims(name: string, desc: Option<string>, m: TableMember) {
    m.src == name && (desc.None? || m.desc == desc)
  }

  /** The first manual member a lookup returns. */
  function FindExt(ms: seq<TableMember>, name: string, desc: Option<string>): (r: Option<nat>)
    ensures r.Some? ==> r.value < |ms| && Claims(name, desc, ms[r.value])
    ensures r.None? ==> forall m :: m in ms ==> !Claims(name, desc, m)
  {
    if |ms| == 0 then None
    else if Claims(name, desc, ms[0]) then Some(0)
    else match FindExt(ms[1..], name, desc)
      case None => None
      case Some(i) => Some(i + 1)
  }

  /** A source member claims a manual member: its named name and named
      descriptor look that member up. */
  predicate ClaimedBy(srcTree: Tree, ids: MergeIds, s: MemberNode, m: TableMember) {
    Name(s.names, ids.srcNamed).Some? && Claims(Name(s.names, ids.srcNamed).value, Desc(srcTree, s, ids.srcNamed), m)
  }

  /** The named name a source member gets through the shared namespace:
      that of the destination member with the same shared name and
      descriptor, else of the first with the same shared name. */
  function SharedMember(srcTree: Tree, dstTree: Tree, ids: MergeIds, s: MemberNode, dstMs: seq<MemberNode>): (r: Option<string>)
    ensures r.Some? ==> exists d :: d in dstMs && Name(d.names, ids.dstNamed) == r && Name(d.names, ids.dstShared) == Name(s.names, ids.srcShared)
  {
    match Name(s.names, ids.srcShared)
    case None => None
    case Some(sn) =>
      var d := GetMember(dstTree, dstMs, sn, Desc(srcTree, s, ids.srcShared), ids.dstShared).OrElse(GetMember(dstTree, dstMs, sn, None, ids.dstShared));
      match d
      case None => None
      case Some(dm) => Name(dm.names, ids.dstNamed)
  }

  /** Members emitted and manual members not yet used. */
  datatype Pass = Pass(out: seq<TableMember>, left: seq<TableMember>)

  /** The field or method loop of one class: a source member without a
      named name is passed over; one that claims a manual member takes its
      destination name and uses it up; any other takes the name found
      through the shared namespace, or is passed over. */
  function MergeMembers(srcTree: Tree, dstTree: Tree, ids: MergeIds, srcMs: seq<MemberNode>, ext: seq<TableMember>, dstMs: seq<MemberNode>): (r: Pass)
    decreases |srcMs|
  {
    if |srcMs| == 0 then Pass([], ext)
    else
      var s := srcMs[0];
      match Name(s.names, ids.srcNamed)
      case None => MergeMembers(srcTree, dstTree, ids, srcMs[1..], ext, dstMs)
      case Some(name) =>
        var desc := Desc(srcTree, s, ids.srcNamed);
        match FindExt(ext, name, desc)
        case Some(i) =>
          var rest := MergeMembers(srcTree, dstTree, ids, srcMs[1..], RemoveAt(ext, i), dstMs);
          Pass([TableMember(name, desc, ext[i].dst)] + rest.out, rest.left)
        case None =>
          var rest := MergeMembers(srcTree, dstTree, ids, srcMs[1..], ext, dstMs);
          match SharedMember(srcTree, dstTree, ids, s, dstMs)
          case None => rest
          case Some(dn) => Pass([TableMember(name, desc, dn)] + rest.out, rest.left)
  }

  /** Unused manual members are manual members. */
  lemma {:induction false} MembersLeftFromExt(srcTree: Tree, dstTree: Tree, ids: MergeIds, srcMs: seq<MemberNode>, ext: seq<TableMember>, dstMs: seq<MemberNode>)
    ensures forall m :: m in MergeMembers(srcTree, dstTree, ids, srcMs, ext, dstMs).left ==> m in ext
    decreases |srcMs|
  {
    if |srcMs| > 0 {
      var s := srcMs[0];
      if Name(s.names, ids.srcNamed).Some? {
        var name := Name(s.names, ids.srcNamed).value;
        var desc := Desc(srcTree, s, ids.srcNamed);
        var i := FindExt(ext, name, desc);
        if i.Some? {
          MembersLeftFromExt(srcTree, dstTree, ids, srcMs[1..], RemoveAt(ext, i.value), dstMs);
        } else {
          MembersLeftFromExt(srcTree, dstTree, ids, srcMs[1..], ext, dstMs);
        }
      } else {
        MembersLeftFromExt(srcTree, dstTree, ids, srcMs[1..], ext, dstMs);
      }
    }
  }

  /** Every manual member is used, under its own name and destination
      name, or left over. */
  lemma {:induction false} MembersKeepExt(srcTree: Tree, dstTree: Tree, ids: MergeIds, srcMs: seq<MemberNode>, ext: seq<TableMember>, dstMs: seq<MemberNode>)
    ensures var r := MergeMembers(srcTree, dstTree, ids, srcMs, ext, dstMs);
      forall m :: m in ext ==> m in r.left || exists o :: o in r.out && o.src == m.src && o.dst == m.dst
    decreases |srcMs|
  {
    if |srcMs| > 0 {
      var r := MergeMembers(srcTree, dstTree, ids, srcMs, ext, dstMs);
      var s := srcMs[0];
      if Name(s.names, ids.srcNamed).Some? {
        var name := Name(s.names, ids.srcNamed).value;
        var desc := Desc(srcTree, s, ids.srcNamed);
        var i := FindExt(ext, name, desc);
        if i.Some? {
          var ext' := RemoveAt(ext, i.value);
          var rest := MergeMembers(srcTree, dstTree, ids, srcMs[1..], ext', dstMs);
          MembersKeepExt(srcTree, dstTree, ids, srcMs[1..], ext', dstMs);
          assert r.out == [TableMember(name, desc, ext[i.value].dst)] + rest.out && r.left == rest.left;
          assert r.out[0].src == ext[i.value].src && r.out[0].dst == ext[i.value].dst;
        } else {
          MembersKeepExt(srcTree, dstTree, ids, srcMs[1..], ext, dstMs);
        }
      } else {
        MembersKeepExt(srcTree, dstTree, ids, srcMs[1..], ext, dstMs);
      }
    }
  }

  /** Every emitted member is a source member under its named name and
      descriptor, renamed by a manual member it claims or through the
      shared namespace. */
  lemma {:induction false} MembersFrom(srcTree: Tree, dstTree: Tree, ids: MergeIds, srcMs: seq<MemberNode>, ext: seq<TableMember>, dstMs: seq<MemberNode>)
    ensures forall o :: o in MergeMembers(srcTree, dstTree, ids, srcMs, ext, dstMs).out ==>
      exists s :: (s in srcMs && Name(s.names, ids.srcNamed) == Some(o.src) && Desc(srcTree, s, ids.srcNamed) == o.desc
        && ((exists m :: m in ext && ClaimedBy(srcTree, ids, s, m) && m.dst == o.dst) || SharedMember(srcTree, dstTree, ids, s, dstMs) == Some(o.dst)))
    decreases |srcMs|
  {
    if |srcMs| > 0 {
      var s := srcMs[0];
      var r := MergeMembers(srcTree, dstTree, ids, srcMs, ext, dstMs);
      if Name(s.names, ids.srcNamed).Some? {
        var name := Name(s.names, ids.srcNamed).value;
        var desc := Desc(srcTree, s, ids.srcNamed);
        var i := FindExt(ext, name, desc);
        if i.Some? {
          var ext' := RemoveAt(ext, i.value);
          MembersFrom(srcTree, dstTree, ids, srcMs[1..], ext', dstMs);
          var rest := MergeMembers(srcTree, dstTree, ids, srcMs[1..], ext', dstMs);
          assert r.out == [TableMember(name, desc, ext[i.value].dst)] + rest.out;
          assert ext[i.value] in ext;
        } else {
          MembersFrom(srcTree, dstTree, ids, srcMs[1..], ext, dstMs);
        }
      } else {
        MembersFrom(srcTree, dstTree, ids, srcMs[1..], ext, dstMs);
      }
    }
  }

  /** No manual member is claimed by two source members, and no source
      member claims two different manual members: what unique keys in
      both trees give. */
  predicate Unambiguous(srcTree: Tree, ids: MergeIds, srcMs: seq<MemberNode>, ext: seq<TableMember>) {
    && (forall i, j, m :: 0 <= i < j < |srcMs| && m in ext && ClaimedBy(srcTree, ids, srcMs[i], m) ==> !ClaimedBy(srcTree, ids, srcMs[j], m))
    && (forall i, m1, m2 :: 0 <= i < |srcMs| && m1 in ext && m2 in ext && ClaimedBy(srcTree, ids, srcMs[i], m1) && ClaimedBy(srcTree, ids, srcMs[i], m2) ==> m1 == m2)
  }

  lemma UnambiguousTail(srcTree: Tree, ids: MergeIds, srcMs: seq<MemberNode>, ext: seq<TableMember>, ext': seq<TableMember>)
    requires |srcMs| > 0 && Unambiguous(srcTree, ids, srcMs, ext)
    requires forall m :: m in ext' ==> m in ext
    ensures Unambiguous(srcTree, ids, srcMs[1..], ext')
  {
    forall i, j, m | 0 <= i < j < |srcMs[1..]| && m in ext' && ClaimedBy(srcTree, ids, srcMs[1..][i], m)
      ensures !ClaimedBy(srcTree, ids, srcMs[1..][j], m)
    {
      assert srcMs[1..][i] == srcMs[i + 1] && srcMs[1..][j] == srcMs[j + 1];
    }
    forall i, m1, m2 | 0 <= i < |srcMs[1..]| && m1 in ext' && m2 in ext' && ClaimedBy(srcTree, ids, srcMs[1..][i], m1) && ClaimedBy(srcTree, ids, srcMs[1..][i], m2)
      ensures m1 == m2
    {
      assert srcMs[1..][i] == srcMs[i + 1];
    }
  }

  /** Manual mappings win: a source member that claims a manual member is
      emitted under that member's destination name. */
  lemma {:induction false} ExtMemberWins(srcTree: Tree, dstTree: Tree, ids: MergeIds, srcMs: seq<MemberNode>, ext: seq<TableMember>, dstMs: seq<MemberNode>, k: nat, m: TableMember)
    requires Unambiguous(srcTree, ids, srcMs, ext)
    requires k < |srcMs| && m in ext && ClaimedBy(srcTree, ids, srcMs[k], m)
    ensures TableMember(m.src, Desc(srcTree, srcMs[k], ids.srcNamed), m.dst) in MergeMembers(srcTree, dstTree, ids, srcMs, ext, dstMs).out
    decreases |srcMs|
  {
    var s := srcMs[0];
    var r := MergeMembers(srcTree, dstTree, ids, srcMs, ext, dstMs);
    if k == 0 {
      var name := Name(s.names, ids.srcNamed).value;
      var desc := Desc(srcTree, s, ids.srcNamed);
      var i := FindExt(ext, name, desc).value;
      assert ext[i] in ext && ClaimedBy(srcTree, ids, s, ext[i]);
      assert r.out[0] == TableMember(name, desc, m.dst);
    } else {
      assert srcMs[1..][k - 1] == srcMs[k];
      if Name(s.names, ids.srcNamed).Some? {
        var name := Name(s.names, ids.srcNamed).value;
        var desc := Desc(srcTree, s, ids.srcNamed);
        var i := FindExt(ext, name, desc);
        if i.Some? {
          var ext' := RemoveAt(ext, i.value);
          assert ext[i.value] in ext && ClaimedBy(srcTree, ids, s, ext[i.value]);
          assert m != ext[i.value];
          UnambiguousTail(srcTree, ids, srcMs, ext, ext');
          ExtMemberWins(srcTree, dstTree, ids, srcMs[1..], ext', dstMs, k - 1, m);
        } else {
          UnambiguousTail(srcTree, ids, srcMs, ext, ext);
          ExtMemberWins(srcTree, dstTree, ids, srcMs[1..], ext, dstMs, k - 1, m);
        }
      } else {
        UnambiguousTail(srcTree, ids, srcMs, ext, ext);
        ExtMemberWins(srcTree, dstTree, ids, srcMs[1..], ext, dstMs, k - 1, m);
      }
    }
  }

  /** A source member that claims no manual member is emitted under the
      name found through the shared namespace. */
  lemma {:induction false} SharedMemberUsed(srcTree: Tree, dstTree: Tree, ids: MergeIds, srcMs: seq<MemberNode>, ext: seq<TableMember>, dstMs: seq<MemberNode>, k: nat, dn: string)
    requires k < |srcMs| && Name(srcMs[k].names, ids.srcNamed).Some?
    requires forall m :: m in ext ==> !ClaimedBy(srcTree, ids, srcMs[k], m)
    requires SharedMember(srcTree, dstTree, ids, srcMs[k], dstMs) == Some(dn)
    ensures TableMember(Name(srcMs[k].names, ids.srcNamed).value, Desc(srcTree, srcMs[k], ids.srcNamed), dn) in MergeMembers(srcTree, dstTree, ids, srcMs, ext, dstMs).out
    decreases |srcMs|
  {
    var s := srcMs[0];
    if k > 0 {
      assert srcMs[1..][k - 1] == srcMs[k];
      if Name(s.names, ids.srcNamed).Some? {
        var i := FindExt(ext, Name(s.names, ids.srcNamed).value, Desc(srcTree, s, ids.srcNamed));
        if i.Some? {
          SharedMemberUsed(srcTree, dstTree, ids, srcMs[1..], RemoveAt(ext, i.value), dstMs, k - 1, dn);
        } else {
          SharedMemberUsed(srcTree, dstTree, ids, srcMs[1..], ext, dstMs, k - 1, dn);
        }
      } else {
        SharedMemberUsed(srcTree, dstTree, ids, srcMs[1..], ext, dstMs, k - 1, dn);
      }
    } else {
      var name := Name(s.names, ids.srcNamed).value;
      var desc := Desc(srcTree, s, ids.srcNamed);
      forall m | m in ext ensures !Claims(name, desc, m) {
        assert !ClaimedBy(srcTree, ids, srcMs[k], m);
      }
    }
  }

  // ---------------------------------------------------------------------
  // Manual members the trees did not use

  datatype Injected = Injected(out: seq<TableMember>, logs: seq<Logged>)

  /** `injectExtraMembers` for one kind: a manual member with a
      descriptor is emitted as it stands; one without is logged against
      its owner and dropped. */
  function Inject(kind: Kind, owner: string, ms: seq<TableMember>): (r: Injected)
    ensures forall m :: m in r.out <==> m in ms && m.desc.Some?
    ensures forall l :: l in r.logs <==> exists m :: m in ms && m.desc.None? && l == MissingDescriptor(kind, owner, m.src)
  {
    if |ms| == 0 then Injected([], [])
    else
      var rest := Inject(kind, owner, ms[1..]);
      assert forall m :: m in ms <==> m == ms[0] || m in ms[1..];
      if ms[0].desc.Some? then Injected([ms[0]] + rest.out, rest.logs)
      else Injected(rest.out, [MissingDescriptor(kind, owner, ms[0].src)] + rest.logs)
  }

  // ---------------------------------------------------------------------
  // Classes

  /** The first manual class with that source name. */
  function FindClass(t: Table, name: string): (r: Option<nat>)
    ensures r.Some? ==> r.value < |t| && t[r.value].src == name
    ensures r.None? ==> forall c :: c in t ==> c.src != name
  {
    if |t| == 0 then None
    else if t[0].src == name then Some(0)
    else match FindClass(t[1..], name)
      case None => None
      case Some(i) => Some(i + 1)
  }

  /** The destination class a source class finds through the shared
      namespace. */
  function SharedClass(srcTree: Tree, dstTree: Tree, ids: MergeIds, c: ClassNode): (r: Option<ClassNode>)
    ensures r.Some? ==> r.value in dstTree.classes && Name(r.value.names, ids.dstShared) == Name(c.names, ids.srcShared)
  {
    match Name(c.names, ids.srcShared)
    case None => None
    case Some(sn) => GetClass(dstTree, sn, ids.dstShared)
  }

  /** One class emitted, with what was logged for it. */
  datatype Emitted = Emitted(cls: TableClass, logs: seq<Logged>)

  /** A source class with a manual class `e`: it takes `e`'s destination
      name; its members are looked up in the destination class of that
      name, or in none when the destination tree lacks it (the stand-in
      class `mergeMappings` makes has no members); `e`'s unused members
      follow the tree's. */
  function ConsumeClass(srcTree: Tree, dstTree: Tree, ids: MergeIds, c: ClassNode, e: TableClass): (r: Emitted)
    ensures r.cls.src == e.src && r.cls.dst == e.dst
  {
    var dc := GetClass(dstTree, e.dst, ids.dstNamed);
    var fp := MergeMembers(srcTree, dstTree, ids, c.fields, e.fields, if dc.Some? then dc.value.fields else []);
    var mp := MergeMembers(srcTree, dstTree, ids, c.methods, e.methods, if dc.Some? then dc.value.methods else []);
    var fi := Inject(FieldKind, e.src, fp.left);
    var mi := Inject(MethodKind, e.src, mp.left);
    Emitted(TableClass(e.src, e.dst, fp.out + fi.out, mp.out + mi.out), fi.logs + mi.logs)
  }

  /** A manual class no source class used: emitted with its members. */
  function InjectClass(e: TableClass): (r: Emitted)
    ensures r.cls.src == e.src && r.cls.dst == e.dst
  {
    var fi := Inject(FieldKind, e.src, e.fields);
    var mi := Inject(MethodKind, e.src, e.methods);
    Emitted(TableClass(e.src, e.dst, fi.out, mi.out), fi.logs + mi.logs)
  }

  /** The merged table and the log. */
  datatype Merged = Merged(classes: Table, logs: seq<Logged>)

  /** The loop over the source classes, then the manual classes left. A
      source class without a named name is passed over; one with a manual
      class uses it up; any other is renamed through the shared namespace
      or passed over. */
  function MergeFrom(srcTree: Tree, dstTree: Tree, ids: MergeIds, cs: seq<ClassNode>, ext: Table): (r: Merged)
    decreases |cs|, |ext|
  {
    if |cs| == 0 then
      if |ext| == 0 then Merged([], [])
      else
        var here := InjectClass(ext[0]);
        var rest := MergeFrom(srcTree, dstTree, ids, cs, ext[1..]);
        Merged([here.cls] + rest.classes, here.logs + rest.logs)
    else
      var c := cs[0];
      match Name(c.names, ids.srcNamed)
      case None => MergeFrom(srcTree, dstTree, ids, cs[1..], ext)
      case Some(name) =>
        match FindClass(ext, name)
        case Some(i) =>
          var here := ConsumeClass(srcTree, dstTree, ids, c, ext[i]);
          var rest := MergeFrom(srcTree, dstTree, ids, cs[1..], RemoveAt(ext, i));
          Merged([here.cls] + rest.classes, here.logs + rest.logs)
        case None =>
          var rest := MergeFrom(srcTree, dstTree, ids, cs[1..], ext);
          match SharedClass(srcTree, dstTree, ids, c)
          case None => rest
          case Some(dc) =>
            match Name(dc.names, ids.dstNamed)
            case None => rest
            case Some(dn) =>
              var fs := MergeMembers(srcTree, dstTree, ids, c.fields, [], dc.fields).out;
              var ms := MergeMembers(srcTree, dstTree, ids, c.methods, [], dc.methods).out;
              Merged([TableClass(name, dn, fs, ms)] + rest.classes, rest.logs)
  }

  /** `mergeMappings(srcTree, dstTree, extTree, sharedNamespace)`. */
  function MergeMappings(srcTree: Tree, dstTree: Tree, ext: Table, shared: string): Merged {
    MergeFrom(srcTree, dstTree, MergeIdsOf(srcTree, dstTree, shared), srcTree.classes, ext)
  }

  /** A manual class carried into an emitted class: the same names, and
      each of its members emitted under its own source and destination
      names or logged as lacking a descriptor. */
  predicate Carried(e: TableClass, o: TableClass, logs: seq<Logged>) {
    && o.src == e.src && o.dst == e.dst
    && (forall m :: m in e.fields ==>
          (exists f :: f in o.fields && f.src == m.src && f.dst == m.dst) || MissingDescriptor(FieldKind, e.src, m.src) in logs)
    && (forall m :: m in e.methods ==>
          (exists f :: f in o.methods && f.src == m.src && f.dst == m.dst) || MissingDescriptor(MethodKind, e.src, m.src) in logs)
  }

  /** Members carried through one member loop and the injection after it. */
  lemma MembersCarried(srcTree: Tree, dstTree: Tree, ids: MergeIds, kind: Kind, owner: string, srcMs: seq<MemberNode>, ext: seq<TableMember>, dstMs: seq<MemberNode>)
    ensures var p := MergeMembers(srcTree, dstTree, ids, srcMs, ext, dstMs);
      var inj := Inject(kind, owner, p.left);
      forall m :: m in ext ==>
        (exists f :: f in p.out + inj.out && f.src == m.src && f.dst == m.dst) || MissingDescriptor(kind, owner, m.src) in inj.logs
  {
    var p := MergeMembers(srcTree, dstTree, ids, srcMs, ext, dstMs);
    var inj := Inject(kind, owner, p.left);
    MembersKeepExt(srcTree, dstTree, ids, srcMs, ext, dstMs);
    forall m | m in ext
      ensures (exists f :: f in p.out + inj.out && f.src == m.src && f.dst == m.dst) || MissingDescriptor(kind, owner, m.src) in inj.logs
    {
      if m in p.left {
        if m.desc.Some? {
          assert m in p.out + inj.out;
        }
      } else {
        var o :| o in p.out && o.src == m.src && o.dst == m.dst;
        assert o in p.out + inj.out;
      }
    }
  }

  /** A used-up manual class is carried into the class it produces. */
  lemma ConsumeCarries(srcTree: Tree, dstTree: Tree, ids: MergeIds, c: ClassNode, e: TableClass)
    ensures var r := ConsumeClass(srcTree, dstTree, ids, c, e); Carried(e, r.cls, r.logs)
  {
    var dc := GetClass(dstTree, e.dst, ids.dstNamed);
    MembersCarried(srcTree, dstTree, ids, FieldKind, e.src, c.fields, e.fields, if dc.Some? then dc.value.fields else []);
    MembersCarried(srcTree, dstTree, ids, MethodKind, e.src, c.methods, e.methods, if dc.Some? then dc.value.methods else []);
  }

  /** A manual class left over is carried too. */
  lemma InjectCarries(e: TableClass)
    ensures var r := InjectClass(e); Carried(e, r.cls, r.logs)
  {
  }

  lemma CarriedMore(e: TableClass, o: TableClass, logs: seq<Logged>, logs': seq<Logged>)
    requires Carried(e, o, logs) && forall l :: l in logs ==> l in logs'
    ensures Carried(e, o, logs')
  {
  }

  /** Every manual class in `ext` is carried into one of `r`'s classes. */
  predicate AllCarried(ext: Table, r: Merged) {
    forall e :: e in ext ==> exists o :: o in r.classes && Carried(e, o, r.logs)
  }

  /** Putting one class and its logs in front keeps what was carried. */
  lemma CarriedAfter(ext: Table, cls: TableClass, logs: seq<Logged>, rest: Merged)
    requires AllCarried(ext, rest)
    ensures AllCarried(ext, Merged([cls] + rest.classes, logs + rest.logs))
  {
    var r := Merged([cls] + rest.classes, logs + rest.logs);
    forall e | e in ext ensures exists o :: o in r.classes && Carried(e, o, r.logs) {
      var o :| o in rest.classes && Carried(e, o, rest.logs);
      CarriedMore(e, o, rest.logs, r.logs);
      assert o in r.classes;
    }
  }

  /** The class emitted in front carries `e`; the rest carries `ext`. */
  lemma CarriedWith(e: TableClass, ext: Table, here: Emitted, rest: Merged)
    requires Carried(e, here.cls, here.logs) && AllCarried(ext, rest)
    ensures AllCarried([e] + ext, Merged([here.cls] + rest.classes, here.logs + rest.logs))
  {
    var r := Merged([here.cls] + rest.classes, here.logs + rest.logs);
    CarriedAfter(ext, here.cls, here.logs, rest);
    CarriedMore(e, here.cls, here.logs, r.logs);
    assert here.cls in r.classes;
  }

  /** No manual class is lost: each is carried into some emitted class,
      whether a source class used it up or it was appended at the end. */
  lemma {:induction false} ExtClassesKept(srcTree: Tree, dstTree: Tree, ids: MergeIds, cs: seq<ClassNode>, ext: Table)
    ensures AllCarried(ext, MergeFrom(srcTree, dstTree, ids, cs, ext))
    decreases |cs|, |ext|
  {
    var r := MergeFrom(srcTree, dstTree, ids, cs, ext);
    if |cs| == 0 {
      if |ext| > 0 {
        var here := InjectClass(ext[0]);
        var rest := MergeFrom(srcTree, dstTree, ids, cs, ext[1..]);
        assert r == Merged([here.cls] + rest.classes, here.logs + rest.logs);
        ExtClassesKept(srcTree, dstTree, ids, cs, ext[1..]);
        InjectCarries(ext[0]);
        CarriedWith(ext[0], ext[1..], here, rest);
        assert [ext[0]] + ext[1..] == ext;
      }
    } else {
      var c := cs[0];
      if Name(c.names, ids.srcNamed).None? {
        ExtClassesKept(srcTree, dstTree, ids, cs[1..], ext);
        assert r == MergeFrom(srcTree, dstTree, ids, cs[1..], ext);
      } else {
        var i := FindClass(ext, Name(c.names, ids.srcNamed).value);
        if i.Some? {
          var here := ConsumeClass(srcTree, dstTree, ids, c, ext[i.value]);
          var ext' := RemoveAt(ext, i.value);
          var rest := MergeFrom(srcTree, dstTree, ids, cs[1..], ext');
          assert r == Merged([here.cls] + rest.classes, here.logs + rest.logs);
          ExtClassesKept(srcTree, dstTree, ids, cs[1..], ext');
          ConsumeCarries(srcTree, dstTree, ids, c, ext[i.value]);
          CarriedWith(ext[i.value], ext', here, rest);
          assert forall e :: e in ext ==> e in [ext[i.value]] + ext';
        } else {
          var rest := MergeFrom(srcTree, dstTree, ids, cs[1..], ext);
          ExtClassesKept(srcTree, dstTree, ids, cs[1..], ext);
          if r != rest {
            assert r == Merged([r.classes[0]] + rest.classes, [] + rest.logs);
            CarriedAfter(ext, r.classes[0], [], rest);
          }
        }
      }
    }
  }

  /** A class renamed through the shared namespace: a source class of
      that named name whose shared name finds a destination class of that
      named name. */
  predicate FromSource(srcTree: Tree, dstTree: Tree, ids: MergeIds, cs: seq<ClassNode>, o: TableClass) {
    exists c :: c in cs && Name(c.names, ids.srcNamed) == Some(o.src) && SharedClass(srcTree, dstTree, ids, c).Some?
      && Name(SharedClass(srcTree, dstTree, ids, c).value.names, ids.dstNamed) == Some(o.dst)
  }

  /** A class named as a manual class says. */
  predicate FromExt(ext: Table, o: TableClass) {
    exists e :: e in ext && e.src == o.src && e.dst == o.dst
  }

  predicate AllFrom(srcTree: Tree, dstTree: Tree, ids: MergeIds, cs: seq<ClassNode>, ext: Table, classes: Table) {
    forall o :: o in classes ==> FromExt(ext, o) || FromSource(srcTree, dstTree, ids, cs, o)
  }

  lemma AllFromWiden(srcTree: Tree, dstTree: Tree, ids: MergeIds, cs: seq<ClassNode>, ext: Table, ext': Table, classes: Table)
    requires |cs| > 0 && AllFrom(srcTree, dstTree, ids, cs[1..], ext', classes)
    requires forall e :: e in ext' ==> e in ext
    ensures AllFrom(srcTree, dstTree, ids, cs, ext, classes)
  {
    forall o | o in classes ensures FromExt(ext, o) || FromSource(srcTree, dstTree, ids, cs, o) {
      if !FromExt(ext', o) {
        var c :| c in cs[1..] && Name(c.names, ids.srcNamed) == Some(o.src) && SharedClass(srcTree, dstTree, ids, c).Some?
          && Name(SharedClass(srcTree, dstTree, ids, c).value.names, ids.dstNamed) == Some(o.dst);
        assert c in cs;
      } else {
        var e :| e in ext' && e.src == o.src && e.dst == o.dst;
        assert e in ext;
      }
    }
  }

  /** Every emitted class is named as a manual class says or as the
      destination tree says through the shared namespace: a source class
      with neither is not emitted. */
  lemma {:induction false} ClassesFrom(srcTree: Tree, dstTree: Tree, ids: MergeIds, cs: seq<ClassNode>, ext: Table)
    ensures AllFrom(srcTree, dstTree, ids, cs, ext, MergeFrom(srcTree, dstTree, ids, cs, ext).classes)
    decreases |cs|, |ext|
  {
    var r := MergeFrom(srcTree, dstTree, ids, cs, ext);
    if |cs| == 0 {
      if |ext| > 0 {
        var rest := MergeFrom(srcTree, dstTree, ids, cs, ext[1..]);
        ClassesFrom(srcTree, dstTree, ids, cs, ext[1..]);
        assert r.classes == [InjectClass(ext[0]).cls] + rest.classes;
        assert ext[0] in ext;
        forall o | o in r.classes ensures FromExt(ext, o) {
          if o != r.classes[0] {
            assert o in rest.classes;
            var e :| e in ext[1..] && e.src == o.src && e.dst == o.dst;
            assert e in ext;
          }
        }
      }
    } else {
      var c := cs[0];
      if Name(c.names, ids.srcNamed).None? {
        ClassesFrom(srcTree, dstTree, ids, cs[1..], ext);
        assert r == MergeFrom(srcTree, dstTree, ids, cs[1..], ext);
        AllFromWiden(srcTree, dstTree, ids, cs, ext, ext, r.classes);
      } else {
        var i := FindClass(ext, Name(c.names, ids.srcNamed).value);
        if i.Some? {
          var ext' := RemoveAt(ext, i.value);
          var rest := MergeFrom(srcTree, dstTree, ids, cs[1..], ext');
          ClassesFrom(srcTree, dstTree, ids, cs[1..], ext');
          AllFromWiden(srcTree, dstTree, ids, cs, ext, ext', rest.classes);
          assert r.classes == [ConsumeClass(srcTree, dstTree, ids, c, ext[i.value]).cls] + rest.classes;
          assert ext[i.value] in ext;
        } else {
          var rest := MergeFrom(srcTree, dstTree, ids, cs[1..], ext);
          ClassesFrom(srcTree, dstTree, ids, cs[1..], ext);
          AllFromWiden(srcTree, dstTree, ids, cs, ext, ext, rest.classes);
          assert c in cs;
          assert forall o :: o in r.classes ==> o in rest.classes || o == r.classes[0];
        }
      }
    }
  }

  /** The class a source class without a manual class produces. */
  function SharedClassMerged(srcTree: Tree, dstTree: Tree, ids: MergeIds, name: string, dn: string, c: ClassNode, dc: ClassNode): TableClass {
    TableClass(name, dn, MergeMembers(srcTree, dstTree, ids, c.fields, [], dc.fields).out,
      MergeMembers(srcTree, dstTree, ids, c.methods, [], dc.methods).out)
  }

  /** A source class no manual class names is emitted under the named
      name of the destination class its shared name finds, its members
      renamed through that class. */
  lemma {:induction false} SharedClassUsed(srcTree: Tree, dstTree: Tree, ids: MergeIds, cs: seq<ClassNode>, ext: Table, k: nat, dc: ClassNode, dn: string)
    requires k < |cs| && Name(cs[k].names, ids.srcNamed).Some?
    requires forall e :: e in ext ==> e.src != Name(cs[k].names, ids.srcNamed).value
    requires SharedClass(srcTree, dstTree, ids, cs[k]) == Some(dc) && Name(dc.names, ids.dstNamed) == Some(dn)
    ensures SharedClassMerged(srcTree, dstTree, ids, Name(cs[k].names, ids.srcNamed).value, dn, cs[k], dc) in MergeFrom(srcTree, dstTree, ids, cs, ext).classes
    decreases |cs|
  {
    var r := MergeFrom(srcTree, dstTree, ids, cs, ext);
    var c := cs[0];
    if k == 0 {
      var name := Name(c.names, ids.srcNamed).value;
      assert FindClass(ext, name).None?;
      assert r.classes[0] == SharedClassMerged(srcTree, dstTree, ids, name, dn, c, dc);
    } else {
      assert cs[1..][k - 1] == cs[k];
      if Name(c.names, ids.srcNamed).None? {
        SharedClassUsed(srcTree, dstTree, ids, cs[1..], ext, k - 1, dc, dn);
        assert r == MergeFrom(srcTree, dstTree, ids, cs[1..], ext);
      } else {
        var i := FindClass(ext, Name(c.names, ids.srcNamed).value);
        if i.Some? {
          var ext' := RemoveAt(ext, i.value);
          SharedClassUsed(srcTree, dstTree, ids, cs[1..], ext', k - 1, dc, dn);
          assert r.classes == [ConsumeClass(srcTree, dstTree, ids, c, ext[i.value]).cls] + MergeFrom(srcTree, dstTree, ids, cs[1..], ext').classes;
        } else {
          var rest := MergeFrom(srcTree, dstTree, ids, cs[1..], ext);
          SharedClassUsed(srcTree, dstTree, ids, cs[1..], ext, k - 1, dc, dn);
          assert forall o :: o in rest.classes ==> o in r.classes;
        }
      }
    }
  }

  /** A manual class wins: the first source class of its name uses it,
      taking its destination name and members. */
  lemma {:induction false} ExtClassWins(srcTree: Tree, dstTree: Tree, ids: MergeIds, cs: seq<ClassNode>, ext: Table, k: nat, e: TableClass)
    requires e in ext && forall e' :: e' in ext && e'.src == e.src ==> e' == e
    requires k < |cs| && Name(cs[k].names, ids.srcNamed) == Some(e.src)
    requires forall j :: 0 <= j < k ==> Name(cs[j].names, ids.srcNamed) != Some(e.src)
    ensures ConsumeClass(srcTree, dstTree, ids, cs[k], e).cls in MergeFrom(srcTree, dstTree, ids, cs, ext).classes
    decreases |cs|
  {
    var r := MergeFrom(srcTree, dstTree, ids, cs, ext);
    var c := cs[0];
    if k == 0 {
      var i := FindClass(ext, e.src).value;
      assert ext[i] in ext;
      assert r.classes[0] == ConsumeClass(srcTree, dstTree, ids, c, e).cls;
    } else {
      assert cs[1..][k - 1] == cs[k];
      assert Name(c.names, ids.srcNamed) != Some(e.src);
      forall j | 0 <= j < k - 1 ensures Name(cs[1..][j].names, ids.srcNamed) != Some(e.src) {
        assert cs[1..][j] == cs[j + 1];
      }
      if Name(c.names, ids.srcNamed).None? {
        ExtClassWins(srcTree, dstTree, ids, cs[1..], ext, k - 1, e);
        assert r == MergeFrom(srcTree, dstTree, ids, cs[1..], ext);
      } else {
        var i := FindClass(ext, Name(c.names, ids.srcNamed).value);
        if i.Some? {
          var ext' := RemoveAt(ext, i.value);
          assert ext[i.value] != e;
          ExtClassWins(srcTree, dstTree, ids, cs[1..], ext', k - 1, e);
          assert r.classes == [ConsumeClass(srcTree, dstTree, ids, c, ext[i.value]).cls] + MergeFrom(srcTree, dstTree, ids, cs[1..], ext').classes;
        } else {
          var rest := MergeFrom(srcTree, dstTree, ids, cs[1..], ext);
          ExtClassWins(srcTree, dstTree, ids, cs[1..], ext, k - 1, e);
          assert forall o :: o in rest.classes ==> o in r.classes;
        }
      }
    }
  }
}
