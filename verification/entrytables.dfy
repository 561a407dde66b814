/** `entriesToMappingTree`: completed manual entries turned into a
    two-namespace table, one class per source class in order of first
    appearance, its members in entry order. */
module EntryTables {
  import opened Wrappers
  import opened Trees
  import opened ExtraParse

  /** `groupBy`'s keys: the entries' source classes, each once, in order
      of first appearance. */
  function GroupKeys(es: seq<Entry>): (r: seq<string>)
    ensures forall i, j :: 0 <= i < j < |r| ==> r[i] != r[j]
    ensures forall k :: k in r <==> exists e :: e in es && e.SrcClass() == k
  {
    if |es| == 0 then []
    else
      var init := GroupKeys(es[..|es| - 1]);
      var k := es[|es| - 1].SrcClass();
      assert forall e :: e in es <==> e in es[..|es| - 1] || e == es[|es| - 1];
      if k in init then init else init + [k]
  }

  /** The entries about one source class, in order. */
  function Group(es: seq<Entry>, k: string): (r: seq<Entry>)
    ensures forall e :: e in r <==> e in es && e.SrcClass() == k
  {
    if |es| == 0 then []
    else
      var last := es[|es| - 1];
      assert forall e :: e in es <==> e in es[..|es| - 1] || e == last;
      Group(es[..|es| - 1], k) + (if last.SrcClass() == k then [last] else [])
  }

  /** `firstNotNullOfOrNull { (it as? ClassEntry)?.dstName }`. */
  function FirstClassDst(es: seq<Entry>): (r: Option<string>)
    ensures r.Some? ==> exists e :: e in es && e.ClassEntry? && e.dstName == r.value
    ensures r.None? ==> forall e :: e in es ==> !e.ClassEntry?
  {
    if |es| == 0 then None
    else if es[0].ClassEntry? then Some(es[0].dstName)
    else FirstClassDst(es[1..])
  }

  /** The descriptor a field entry gets: the one of the tree's field with
      that name, found by name alone. */
  function FieldDesc(tree: Tree, ns: int, cls: Option<ClassNode>, name: string): Option<string> {
    if cls.None? then None
    else match GetMember(tree, cls.value.fields, name, None, ns)
      case None => None
      case Some(f) => Desc(tree, f, ns)
  }

  // ---------------------------------------------------------------------
  // Visiting members

  /** The member, if any, that visiting an entry puts into a table class. */
  type Visitor = Entry -> Option<TableMember>

  /** Two table members a table class cannot tell apart: the library's
      tree keys its members by source name and descriptor. */
  predicate SameKey(a: TableMember, b: TableMember) {
    a.src == b.src && a.desc == b.desc
  }

  predicate UniqueKeys(ms: seq<TableMember>) {
    forall i, j :: 0 <= i < j < |ms| ==> !SameKey(ms[i], ms[j])
  }

  /** Visiting `e` puts a member with name `src` and descriptor `desc`. */
  predicate VisitsKey(f: Visitor, e: Entry, src: string, desc: Option<string>) {
    f(e).Some? && f(e).value.src == src && f(e).value.desc == desc
  }

  /** Dropping the first member keeps keys unique, and the first
      member's key is not among the rest. */
  lemma UniqueSplit(ms: seq<TableMember>)
    requires |ms| > 0
    ensures UniqueKeys(ms) ==> UniqueKeys(ms[1..]) && forall x :: x in ms[1..] ==> !SameKey(ms[0], x)
  {
    if UniqueKeys(ms) {
      forall i, j | 0 <= i < j < |ms[1..]| ensures !SameKey(ms[1..][i], ms[1..][j]) {
        assert ms[1..][i] == ms[i + 1] && ms[1..][j] == ms[j + 1];
      }
      forall x | x in ms[1..] ensures !SameKey(ms[0], x) {
        var j :| 0 <= j < |ms[1..]| && ms[1..][j] == x;
        assert ms[j + 1] == x;
      }
    }
  }

  /** A member whose key is new can be put in front. */
  lemma UniqueCons(h: TableMember, rest: seq<TableMember>)
    ensures UniqueKeys(rest) && (forall x :: x in rest ==> !SameKey(h, x)) ==> UniqueKeys([h] + rest)
  {
    if UniqueKeys(rest) && (forall x :: x in rest ==> !SameKey(h, x)) {
      forall i, j | 0 <= i < j < |[h] + rest| ensures !SameKey(([h] + rest)[i], ([h] + rest)[j]) {
        if i == 0 {
          assert ([h] + rest)[j] == rest[j - 1] && rest[j - 1] in rest;
        } else {
          assert ([h] + rest)[i] == rest[i - 1] && ([h] + rest)[j] == rest[j - 1];
        }
      }
    }
  }

  /** `visitField` or `visitMethod`, then `visitDstName`: the member with
      `m`'s name and descriptor is given `m`'s destination name in place;
      a member not there yet is appended. */
  function PutMember(ms: seq<TableMember>, m: TableMember): (r: seq<TableMember>)
    ensures UniqueKeys(ms) ==> UniqueKeys(r) && forall x :: x in r <==> (x in ms && !SameKey(x, m)) || x == m
    ensures (forall x :: x in ms ==> !SameKey(x, m)) ==> r == ms + [m]
    ensures (exists x :: x in ms && SameKey(x, m)) ==> |r| == |ms|
  {
    if |ms| == 0 then [m]
    else if SameKey(ms[0], m) then
      assert ms[0] in ms;
      [m] + ms[1..]
    else
      var rest := PutMember(ms[1..], m);
      assert forall x :: x in ms <==> x == ms[0] || x in ms[1..];
      UniqueSplit(ms);
      UniqueCons(ms[0], rest);
      [ms[0]] + rest
  }

  /** The destination name the last entry visiting the key (`src`,
      `desc`) gives, if any entry visits it. */
  function LastVisited(es: seq<Entry>, f: Visitor, src: string, desc: Option<string>): (r: Option<string>)
    ensures r.None? <==> forall j :: 0 <= j < |es| ==> !VisitsKey(f, es[j], src, desc)
    ensures r.Some? ==> exists j :: (0 <= j < |es| && f(es[j]) == Some(TableMember(src, desc, r.value))
      && forall l :: j < l < |es| ==> !VisitsKey(f, es[l], src, desc))
    decreases |es|
  {
    if |es| == 0 then None
    else
      var init := es[..|es| - 1];
      var last := es[|es| - 1];
      assert forall j :: 0 <= j < |init| ==> init[j] == es[j];
      if VisitsKey(f, last, src, desc) then
        assert f(es[|es| - 1]) == Some(TableMember(src, desc, f(last).value.dst));
        Some(f(last).value.dst)
      else
        LastVisited(init, f, src, desc)
  }

  /** The members of a table class after visiting `es` in order: one per
      key, each with the destination name of the last visit to it. */
  function Visit(es: seq<Entry>, f: Visitor): (r: seq<TableMember>)
    ensures UniqueKeys(r)
    ensures forall m :: m in r <==> LastVisited(es, f, m.src, m.desc) == Some(m.dst)
    decreases |es|
  {
    if |es| == 0 then []
    else
      var init := Visit(es[..|es| - 1], f);
      match f(es[|es| - 1])
      case None => init
      case Some(p) => PutMember(init, p)
  }

  /** Visiting a non-empty sequence is visiting its last entry after the
      others. */
  lemma VisitLast(es: seq<Entry>, f: Visitor)
    requires |es| > 0
    ensures Visit(es, f) == match f(es[|es| - 1])
      case None => Visit(es[..|es| - 1], f)
      case Some(p) => PutMember(Visit(es[..|es| - 1], f), p)
  {
  }

  /** A visitor that puts members for entries about class `k` only. */
  ghost predicate OnlyAbout(f: Visitor, k: string) {
    forall e :: f(e).Some? ==> e.SrcClass() == k
  }

  /** Visiting the group of `k` is visiting every entry, when only entries
      about `k` put members. */
  lemma {:induction false} VisitGroup(es: seq<Entry>, f: Visitor, k: string)
    requires OnlyAbout(f, k)
    ensures Visit(Group(es, k), f) == Visit(es, f)
    decreases |es|
  {
    if |es| > 0 {
      var init, last := es[..|es| - 1], es[|es| - 1];
      VisitGroup(init, f, k);
      var g := Group(init, k);
      if last.SrcClass() == k {
        var g2 := g + [last];
        assert Group(es, k) == g2;
        assert g2[..|g2| - 1] == g && g2[|g2| - 1] == last;
        VisitLast(g2, f);
        VisitLast(es, f);
      } else {
        assert Group(es, k) == g;
        assert f(last).None?;
        VisitLast(es, f);
      }
    }
  }

  /** The method a method entry about class `k` puts. */
  function MethodVisit(k: string): Visitor {
    (e: Entry) => if e.MethodEntry? && e.srcClsName == k then Some(TableMember(e.srcName, e.srcDesc, e.dstName)) else None
  }

  /** The field a field entry about class `k` puts, with the descriptor of
      the tree's field of that name. */
  function FieldVisit(tree: Tree, ns: int, cls: Option<ClassNode>, k: string): Visitor {
    (e: Entry) => if e.FieldEntry? && e.srcClsName == k then Some(TableMember(e.srcName, FieldDesc(tree, ns, cls, e.srcName), e.dstName)) else None
  }

  predicate IsMethod(e: Entry, k: string, name: string, desc: Option<string>) {
    e.MethodEntry? && e.srcClsName == k && e.srcName == name && e.srcDesc == desc
  }

  predicate IsField(e: Entry, k: string, name: string) {
    e.FieldEntry? && e.srcClsName == k && e.srcName == name
  }

  /** The destination name a table over `es` gives the method `name` with
      descriptor `desc` of class `k`: that of the last method entry about
      them, none when there is none. */
  function MethodDst(es: seq<Entry>, k: string, name: string, desc: Option<string>): (r: Option<string>)
    ensures r.None? <==> forall j :: 0 <= j < |es| ==> !IsMethod(es[j], k, name, desc)
    ensures r.Some? ==> exists j :: (0 <= j < |es| && IsMethod(es[j], k, name, desc) && es[j].dstName == r.value
      && forall l :: j < l < |es| ==> !IsMethod(es[l], k, name, desc))
  {
    var f := MethodVisit(k);
    assert forall e :: VisitsKey(f, e, name, desc) <==> IsMethod(e, k, name, desc);
    LastVisited(es, f, name, desc)
  }

  /** The destination name a table over `es` built against `tree` gives
      the field `name` of class `k`: that of the last field entry about
      them, none when there is none. */
  function FieldDst(tree: Tree, named: string, es: seq<Entry>, k: string, name: string): (r: Option<string>)
    ensures r.None? <==> forall j :: 0 <= j < |es| ==> !IsField(es[j], k, name)
    ensures r.Some? ==> exists j :: (0 <= j < |es| && IsField(es[j], k, name) && es[j].dstName == r.value
      && forall l :: j < l < |es| ==> !IsField(es[l], k, name))
  {
    var ns := NamespaceId(tree, named);
    var cls := GetClass(tree, k, ns);
    var f := FieldVisit(tree, ns, cls, k);
    assert forall e :: VisitsKey(f, e, name, FieldDesc(tree, ns, cls, name)) <==> IsField(e, k, name);
    LastVisited(es, f, name, FieldDesc(tree, ns, cls, name))
  }

  /** The table class of one source class. */
  function ClassOf(tree: Tree, ns: int, es: seq<Entry>, k: string): (r: TableClass)
    ensures r.src == k
  {
    var g := Group(es, k);
    var cls := GetClass(tree, k, ns);
    TableClass(k, FirstClassDst(g).GetOr(k), Visit(g, FieldVisit(tree, ns, cls, k)), Visit(g, MethodVisit(k)))
  }

  function ClassesOf(tree: Tree, ns: int, es: seq<Entry>, keys: seq<string>): (r: Table)
    ensures |r| == |keys| && forall i :: 0 <= i < |keys| ==> r[i] == ClassOf(tree, ns, es, keys[i])
  {
    if |keys| == 0 then [] else [ClassOf(tree, ns, es, keys[0])] + ClassesOf(tree, ns, es, keys[1..])
  }

  /** `entriesToMappingTree(tree, named, entries)`. */
  function EntriesToTable(tree: Tree, named: string, es: seq<Entry>): Table {
    ClassesOf(tree, NamespaceId(tree, named), es, GroupKeys(es))
  }

  /** The table's classes are the group keys, in order. */
  lemma TableSources(tree: Tree, named: string, es: seq<Entry>)
    ensures var t := EntriesToTable(tree, named, es);
      |t| == |GroupKeys(es)| && forall i :: 0 <= i < |t| ==> t[i].src == GroupKeys(es)[i]
  {
  }

  /** No source class has two table classes. */
  lemma TableDistinct(tree: Tree, named: string, es: seq<Entry>)
    ensures var t := EntriesToTable(tree, named, es);
      forall i, j :: 0 <= i < j < |t| ==> t[i].src != t[j].src
  {
    TableSources(tree, named, es);
  }

  /** Every table class is the source class of some entry ... */
  lemma TableFromEntries(tree: Tree, named: string, es: seq<Entry>)
    ensures var t := EntriesToTable(tree, named, es);
      forall i :: 0 <= i < |t| ==> exists e :: e in es && e.SrcClass() == t[i].src
  {
    var keys := GroupKeys(es);
    TableSources(tree, named, es);
    forall i | 0 <= i < |keys| ensures exists e :: e in es && e.SrcClass() == keys[i] {
      assert keys[i] in keys;
    }
  }

  /** ... and every entry's source class has a table class. */
  lemma TableCovers(tree: Tree, named: string, es: seq<Entry>)
    ensures var t := EntriesToTable(tree, named, es);
      forall e :: e in es ==> exists i :: 0 <= i < |t| && t[i].src == e.SrcClass()
  {
    var keys := GroupKeys(es);
    TableSources(tree, named, es);
    forall e | e in es ensures exists i :: 0 <= i < |keys| && keys[i] == e.SrcClass() {
      assert e.SrcClass() in keys;
    }
  }

  /** A table class is named by the first class entry for it, else after
      itself. */
  lemma TableClassDst(tree: Tree, named: string, es: seq<Entry>, i: nat)
    requires i < |EntriesToTable(tree, named, es)|
    ensures var c := EntriesToTable(tree, named, es)[i];
      && (c.dst == c.src || exists e :: e in es && e.ClassEntry? && e.srcName == c.src && e.dstName == c.dst)
      && ((forall e :: e in es ==> !(e.ClassEntry? && e.srcName == c.src)) ==> c.dst == c.src)
  {
    var keys := GroupKeys(es);
    assert keys[i] in keys;
  }

  /** A table class holds one method per name and descriptor among the
      method entries about it, named as the last of those entries says. */
  lemma TableClassMethods(tree: Tree, named: string, es: seq<Entry>, i: nat)
    requires i < |EntriesToTable(tree, named, es)|
    ensures var c := EntriesToTable(tree, named, es)[i];
      && UniqueKeys(c.methods)
      && forall m :: m in c.methods <==> MethodDst(es, c.src, m.src, m.desc) == Some(m.dst)
  {
    var keys := GroupKeys(es);
    assert keys[i] in keys;
    VisitGroup(es, MethodVisit(keys[i]), keys[i]);
  }

  /** A table class holds one field per name among the field entries about
      it, with the descriptor of the tree's field of that name, named as
      the last of those entries says. */
  lemma TableClassFields(tree: Tree, named: string, es: seq<Entry>, i: nat)
    requires i < |EntriesToTable(tree, named, es)|
    ensures var c := EntriesToTable(tree, named, es)[i];
      var ns := NamespaceId(tree, named);
      && UniqueKeys(c.fields)
      && forall m :: m in c.fields <==>
           m.desc == FieldDesc(tree, ns, GetClass(tree, c.src, ns), m.src) && FieldDst(tree, named, es, c.src, m.src) == Some(m.dst)
  {
    var keys := GroupKeys(es);
    var ns := NamespaceId(tree, named);
    var cls := GetClass(tree, keys[i], ns);
    var f := FieldVisit(tree, ns, cls, keys[i]);
    assert keys[i] in keys;
    assert EntriesToTable(tree, named, es)[i].fields == Visit(Group(es, keys[i]), f);
    VisitGroup(es, f, keys[i]);
    forall m: TableMember ensures LastVisited(es, f, m.src, m.desc).Some? ==> m.desc == FieldDesc(tree, ns, cls, m.src) {
      FieldKeys(es, tree, ns, cls, keys[i], m.src, m.desc);
    }
  }

  /** Only the descriptor of the tree's field of that name is ever visited
      with a field name. */
  lemma FieldKeys(es: seq<Entry>, tree: Tree, ns: int, cls: Option<ClassNode>, k: string, src: string, desc: Option<string>)
    ensures LastVisited(es, FieldVisit(tree, ns, cls, k), src, desc).Some? ==> desc == FieldDesc(tree, ns, cls, src)
  {
    var f := FieldVisit(tree, ns, cls, k);
    if LastVisited(es, f, src, desc).Some? {
      var j :| 0 <= j < |es| && VisitsKey(f, es[j], src, desc);
    }
  }

  /** The table has a class for `cls` listing the method `src` with
      descriptor `desc`, renamed to `dst`. */
  predicate HasMethod(t: Table, cls: string, src: string, desc: Option<string>, dst: Option<string>) {
    dst.Some? && exists i :: 0 <= i < |t| && t[i].src == cls && TableMember(src, desc, dst.value) in t[i].methods
  }

  /** The table has a class for `cls` with a field renamed `src` to `dst`. */
  predicate HasField(t: Table, cls: string, src: string, dst: Option<string>) {
    dst.Some? && exists i, m :: 0 <= i < |t| && t[i].src == cls && m in t[i].fields && m.src == src && m.dst == dst.value
  }

  /** Every method entry's name and descriptor land in its class, renamed
      as the last entry for them says. */
  lemma MethodLands(tree: Tree, named: string, es: seq<Entry>, x: Entry)
    requires x in es && x.MethodEntry?
    ensures HasMethod(EntriesToTable(tree, named, es), x.srcClsName, x.srcName, x.srcDesc, MethodDst(es, x.srcClsName, x.srcName, x.srcDesc))
  {
    var t := EntriesToTable(tree, named, es);
    TableCovers(tree, named, es);
    var i :| 0 <= i < |t| && t[i].src == x.SrcClass();
    var k :| 0 <= k < |es| && es[k] == x;
    assert IsMethod(es[k], x.srcClsName, x.srcName, x.srcDesc);
    TableClassMethods(tree, named, es, i);
  }

  /** Every field entry's name lands in its class, renamed as the last
      entry for it says. */
  lemma FieldLands(tree: Tree, named: string, es: seq<Entry>, x: Entry)
    requires x in es && x.FieldEntry?
    ensures HasField(EntriesToTable(tree, named, es), x.srcClsName, x.srcName, FieldDst(tree, named, es, x.srcClsName, x.srcName))
  {
    var t := EntriesToTable(tree, named, es);
    var ns := NamespaceId(tree, named);
    TableCovers(tree, named, es);
    var i :| 0 <= i < |t| && t[i].src == x.SrcClass();
    var k :| 0 <= k < |es| && es[k] == x;
    assert IsField(es[k], x.srcClsName, x.srcName);
    TableClassFields(tree, named, es, i);
    var d := FieldDst(tree, named, es, x.srcClsName, x.srcName).value;
    var m := TableMember(x.srcName, FieldDesc(tree, ns, GetClass(tree, x.srcClsName, ns), x.srcName), d);
    assert m in t[i].fields;
  }

  /** Two lines `a.B x y` and `a.B x z` give class `a/B` the one field
      `x -> z`. */
  lemma LastFieldWins(tree: Tree, named: string)
    ensures var es := [FieldEntry(1, "a/B", None, "x", "y"), FieldEntry(2, "a/B", None, "x", "z")];
      var c := EntriesToTable(tree, named, es)[0];
      |EntriesToTable(tree, named, es)| == 1 && c.src == "a/B" && |c.fields| == 1 && c.fields[0].src == "x" && c.fields[0].dst == "z"
  {
    var es := [FieldEntry(1, "a/B", None, "x", "y"), FieldEntry(2, "a/B", None, "x", "z")];
    var ns := NamespaceId(tree, named);
    var f := FieldVisit(tree, ns, GetClass(tree, "a/B", ns), "a/B");
    var d := FieldDesc(tree, ns, GetClass(tree, "a/B", ns), "x");
    assert es[..1] == [es[0]] && es[..1][..0] == [];
    assert GroupKeys(es) == ["a/B"];
    assert Group(es, "a/B") == es;
    assert EntriesToTable(tree, named, es) == [ClassOf(tree, ns, es, "a/B")];
    assert f(es[0]) == Some(TableMember("x", d, "y")) && f(es[1]) == Some(TableMember("x", d, "z"));
    VisitLast(es[..1], f);
    assert Visit(es[..1], f) == [TableMember("x", d, "y")];
    VisitLast(es, f);
    assert Visit(es, f) == PutMember([TableMember("x", d, "y")], TableMember("x", d, "z"));
  }
}
