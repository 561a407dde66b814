/** `ExtraMapping.resolve`: a manual mapping file turned into a forward
    table (source names to destination names) and the mirrored backward
    table, with the problems logged for entries that had to be dropped. */
module Resolution {
  import opened Wrappers
  import opened Trees
  import opened ExtraParse
  import opened ClassTables
  import opened ExtraResolve
  import opened EntryTables

  datatype Resolved = Resolved(entries: seq<Entry>, forward: Table, backward: Table, problems: seq<Problem>)

  /** The class table `resolve` builds from the file's class entries and
      the trees' agreed classes. */
  function EnvOf(srcTree: Tree, dstTree: Tree, ids: Ids, internal: seq<Entry>): Env {
    var extra := VisitAll([], ClassPairs(internal));
    Env(srcTree, dstTree, ids, extra, ClassTableOf(srcTree, dstTree, ids, extra))
  }

  /** A failed completion names the line of the entry that failed. */
  lemma {:induction false} CompleteAllError(env: Env, es: seq<Entry>)
    requires CompleteAll(env, es).Err?
    ensures exists k :: 0 <= k < |es| && CompleteAll(env, es).error.line == es[k].line
  {
    if CompleteEntry(env, es[0]).Ok? {
      CompleteAllError(env, es[1..]);
      var k :| 0 <= k < |es[1..]| && CompleteAll(env, es).error.line == es[1..][k].line;
      assert es[1..][k] == es[k + 1];
    }
  }

  /** The forward table from the completed entries and the backward one
      from the same entries read the other way. */
  function Tables(srcTree: Tree, dstTree: Tree, named: string, done: Outcome): (r: Resolved)
    requires forall x :: x in done.entries ==> Completed(x)
    ensures r.entries == done.entries && r.problems == done.problems
  {
    Resolved(done.entries, EntriesToTable(srcTree, named, done.entries),
             EntriesToTable(dstTree, named, SwapAll(done.entries)), done.problems)
  }

  /** `resolve` with the namespace ids given: the file's entries converted
      to internal names, completed against the trees, and tabled. */
  function ResolveWith(entries: seq<Entry>, srcTree: Tree, dstTree: Tree, named: string, ids: Ids): Result<Resolved, ResolveError>
  {
    var internal :- AllToInternal(entries);
    var env := EnvOf(srcTree, dstTree, ids, internal);
    var done :- CompleteAll(env, internal);
    CompleteAllSound(env, internal);
    Ok(Tables(srcTree, dstTree, named, done))
  }

  /** `resolve(logger, srcTree, dstTree, namedNamespace, sharedNamespace)`
      as written: all four namespace ids are looked up in the source tree. */
  function Resolve(entries: seq<Entry>, srcTree: Tree, dstTree: Tree, named: string, shared: string): (r: Result<Resolved, ResolveError>)
    ensures r.Err? ==> exists k :: 0 <= k < |entries| && r.error.line == entries[k].line
  {
    ResolveErrors(entries, srcTree, dstTree, named, IdsAsWritten(srcTree, dstTree, named, shared));
    ResolveWith(entries, srcTree, dstTree, named, IdsAsWritten(srcTree, dstTree, named, shared))
  }

  /** The same with the destination ids looked up in the destination tree. */
  function ResolveCorrected(entries: seq<Entry>, srcTree: Tree, dstTree: Tree, named: string, shared: string): (r: Result<Resolved, ResolveError>)
    ensures r.Err? ==> exists k :: 0 <= k < |entries| && r.error.line == entries[k].line
  {
    ResolveErrors(entries, srcTree, dstTree, named, ResolveIds(srcTree, dstTree, named, shared));
    ResolveWith(entries, srcTree, dstTree, named, ResolveIds(srcTree, dstTree, named, shared))
  }

  // The lemmas below hold whatever the ids, so for `Resolve` and
  // `ResolveCorrected` alike.

  /** A failed resolution names the line of an entry of the file. */
  lemma ResolveErrors(entries: seq<Entry>, srcTree: Tree, dstTree: Tree, named: string, ids: Ids)
    ensures ResolveWith(entries, srcTree, dstTree, named, ids).Err? ==>
      exists k :: 0 <= k < |entries| && ResolveWith(entries, srcTree, dstTree, named, ids).error.line == entries[k].line
  {
    if ResolveWith(entries, srcTree, dstTree, named, ids).Err? && AllToInternal(entries).Ok? {
      CompletionErrors(entries, srcTree, dstTree, named, ids);
    }
  }

  lemma CompletionErrors(entries: seq<Entry>, srcTree: Tree, dstTree: Tree, named: string, ids: Ids)
    requires AllToInternal(entries).Ok?
    requires ResolveWith(entries, srcTree, dstTree, named, ids).Err?
    ensures exists k :: 0 <= k < |entries| && ResolveWith(entries, srcTree, dstTree, named, ids).error.line == entries[k].line
  {
    var internal := AllToInternal(entries).value;
    var env := EnvOf(srcTree, dstTree, ids, internal);
    assert ResolveWith(entries, srcTree, dstTree, named, ids) == Err(CompleteAll(env, internal).error);
    CompleteAllError(env, internal);
    var k :| 0 <= k < |internal| && CompleteAll(env, internal).error.line == internal[k].line;
    assert EntryToInternal(entries[k]) == Some(internal[k]);
    EntryToInternalMeaning(entries[k]);
  }

  /** Every resolved entry completes one entry of the file, its class
      names converted to internal form. */
  lemma ResolveSound(entries: seq<Entry>, srcTree: Tree, dstTree: Tree, named: string, ids: Ids)
    ensures ResolveWith(entries, srcTree, dstTree, named, ids).Ok? ==>
      forall x :: x in ResolveWith(entries, srcTree, dstTree, named, ids).value.entries ==>
        && Completed(x)
        && exists k :: 0 <= k < |entries| && EntryToInternal(entries[k]).Some? && Completes(x, EntryToInternal(entries[k]).value)
  {
    if ResolveWith(entries, srcTree, dstTree, named, ids).Ok? {
      var internal := AllToInternal(entries).value;
      var env := EnvOf(srcTree, dstTree, ids, internal);
      CompleteAllSound(env, internal);
      forall x | x in CompleteAll(env, internal).value.entries
        ensures exists k :: 0 <= k < |entries| && EntryToInternal(entries[k]).Some? && Completes(x, EntryToInternal(entries[k]).value)
      {
        var k :| 0 <= k < |internal| && Completes(x, internal[k]);
        assert EntryToInternal(entries[k]) == Some(internal[k]);
      }
    }
  }

  /** No entry of the file is dropped without a trace: each is completed
      or has a problem logged at its line. */
  lemma ResolveAccounts(entries: seq<Entry>, srcTree: Tree, dstTree: Tree, named: string, ids: Ids)
    ensures ResolveWith(entries, srcTree, dstTree, named, ids).Ok? ==>
      var r := ResolveWith(entries, srcTree, dstTree, named, ids).value;
      forall k :: 0 <= k < |entries| ==>
        EntryToInternal(entries[k]).Some? && Accounted(Outcome(r.entries, r.problems), EntryToInternal(entries[k]).value)
  {
    if ResolveWith(entries, srcTree, dstTree, named, ids).Ok? {
      var internal := AllToInternal(entries).value;
      var env := EnvOf(srcTree, dstTree, ids, internal);
      CompleteAllComplete(env, internal);
    }
  }

  // ---------------------------------------------------------------------
  // The backward table

  predicate IsBackMethod(e: Entry, k: string, name: string, desc: Option<string>) {
    e.MethodEntry? && e.dstClsName == Some(k) && e.dstName == name && e.dstDesc == desc
  }

  predicate IsBackField(e: Entry, k: string, name: string) {
    e.FieldEntry? && e.dstClsName == Some(k) && e.dstName == name
  }

  /** The method a method entry about destination class `k` puts into the
      backward table. */
  function BackMethodVisit(k: string): Visitor {
    (e: Entry) => if e.MethodEntry? && e.dstClsName == Some(k) then Some(TableMember(e.dstName, e.dstDesc, e.srcName)) else None
  }

  /** The field a field entry about destination class `k` puts into the
      backward table, with the descriptor of `tree`'s field of that name. */
  function BackFieldVisit(tree: Tree, ns: int, cls: Option<ClassNode>, k: string): Visitor {
    (e: Entry) => if e.FieldEntry? && e.dstClsName == Some(k) then Some(TableMember(e.dstName, FieldDesc(tree, ns, cls, e.dstName), e.srcName)) else None
  }

  /** The name the backward table gives the method `name` with descriptor
      `desc` of destination class `k`: the source name of the last entry
      with those destination names. */
  function BackMethodDst(es: seq<Entry>, k: string, name: string, desc: Option<string>): (r: Option<string>)
    ensures r.None? <==> forall j :: 0 <= j < |es| ==> !IsBackMethod(es[j], k, name, desc)
    ensures r.Some? ==> exists j :: (0 <= j < |es| && IsBackMethod(es[j], k, name, desc) && es[j].srcName == r.value
      && forall l :: j < l < |es| ==> !IsBackMethod(es[l], k, name, desc))
  {
    var f := BackMethodVisit(k);
    assert forall e :: VisitsKey(f, e, name, desc) <==> IsBackMethod(e, k, name, desc);
    LastVisited(es, f, name, desc)
  }

  /** The name the backward table built against `tree` gives the field
      `name` of destination class `k`: the source name of the last entry
      with those destination names. */
  function BackFieldDst(tree: Tree, named: string, es: seq<Entry>, k: string, name: string): (r: Option<string>)
    ensures r.None? <==> forall j :: 0 <= j < |es| ==> !IsBackField(es[j], k, name)
    ensures r.Some? ==> exists j :: (0 <= j < |es| && IsBackField(es[j], k, name) && es[j].srcName == r.value
      && forall l :: j < l < |es| ==> !IsBackField(es[l], k, name))
  {
    var ns := NamespaceId(tree, named);
    var cls := GetClass(tree, k, ns);
    var f := BackFieldVisit(tree, ns, cls, k);
    assert forall e :: VisitsKey(f, e, name, FieldDesc(tree, ns, cls, name)) <==> IsBackField(e, k, name);
    LastVisited(es, f, name, FieldDesc(tree, ns, cls, name))
  }

  /** Visiting the swapped entries with `f` is visiting the entries with
      `g`, when `f` sees a swapped entry as `g` sees the entry. */
  lemma {:induction false} LastVisitedSwap(es: seq<Entry>, f: Visitor, g: Visitor, name: string, desc: Option<string>)
    requires forall x :: x in es ==> Completed(x)
    requires forall x :: x in es ==> f(Swap(x)) == g(x)
    ensures LastVisited(SwapAll(es), f, name, desc) == LastVisited(es, g, name, desc)
    decreases |es|
  {
    if |es| > 0 {
      var init, last := es[..|es| - 1], es[|es| - 1];
      var sw := SwapAll(es);
      assert forall x :: x in init ==> x in es;
      SwapAllInit(es);
      LastVisitedSwap(init, f, g, name, desc);
      assert last in es;
      assert f(sw[|sw| - 1]) == g(last);
      assert LastVisited(sw, f, name, desc) ==
        if VisitsKey(f, sw[|sw| - 1], name, desc) then Some(f(sw[|sw| - 1]).value.dst) else LastVisited(sw[..|sw| - 1], f, name, desc);
    }
  }

  /** Swapping all but the last entry gives all but the last swapped one. */
  lemma SwapAllInit(es: seq<Entry>)
    requires |es| > 0 && forall x :: x in es ==> Completed(x)
    ensures forall x :: x in es[..|es| - 1] ==> Completed(x)
    ensures SwapAll(es)[..|es| - 1] == SwapAll(es[..|es| - 1])
  {
    assert forall x :: x in es[..|es| - 1] ==> x in es;
  }

  /** Tabling the swapped entries renames a method as the last entry with
      those destination names says. */
  lemma SwapMethodDst(es: seq<Entry>, k: string, name: string, desc: Option<string>)
    requires forall x :: x in es ==> Completed(x)
    ensures MethodDst(SwapAll(es), k, name, desc) == BackMethodDst(es, k, name, desc)
  {
    LastVisitedSwap(es, MethodVisit(k), BackMethodVisit(k), name, desc);
  }

  /** The same for a field. */
  lemma SwapFieldDst(tree: Tree, named: string, es: seq<Entry>, k: string, name: string)
    requires forall x :: x in es ==> Completed(x)
    ensures FieldDst(tree, named, SwapAll(es), k, name) == BackFieldDst(tree, named, es, k, name)
  {
    var ns := NamespaceId(tree, named);
    var cls := GetClass(tree, k, ns);
    LastVisitedSwap(es, FieldVisit(tree, ns, cls, k), BackFieldVisit(tree, ns, cls, k), name, FieldDesc(tree, ns, cls, name));
  }

  /** A resolved method is in the forward table under its source class,
      and read the other way in the backward table under its destination
      class. When several resolved methods share a key, the last one's
      name is kept. */
  lemma ResolveMirrorsMethod(entries: seq<Entry>, srcTree: Tree, dstTree: Tree, named: string, ids: Ids, x: Entry)
    ensures ResolveWith(entries, srcTree, dstTree, named, ids).Ok? &&
            x in ResolveWith(entries, srcTree, dstTree, named, ids).value.entries && x.MethodEntry? ==>
      && x.dstClsName.Some?
      && var r := ResolveWith(entries, srcTree, dstTree, named, ids).value;
         && HasMethod(r.forward, x.srcClsName, x.srcName, x.srcDesc, MethodDst(r.entries, x.srcClsName, x.srcName, x.srcDesc))
         && HasMethod(r.backward, x.dstClsName.value, x.dstName, x.dstDesc, BackMethodDst(r.entries, x.dstClsName.value, x.dstName, x.dstDesc))
  {
    if ResolveWith(entries, srcTree, dstTree, named, ids).Ok? &&
       x in ResolveWith(entries, srcTree, dstTree, named, ids).value.entries && x.MethodEntry? {
      var internal := AllToInternal(entries).value;
      var env := EnvOf(srcTree, dstTree, ids, internal);
      var done := CompleteAll(env, internal).value;
      CompleteAllSound(env, internal);
      MethodLands(srcTree, named, done.entries, x);
      var k :| 0 <= k < |done.entries| && done.entries[k] == x;
      var back := SwapAll(done.entries);
      assert back[k] == Swap(x) && Swap(x) in back;
      MethodLands(dstTree, named, back, Swap(x));
      SwapMethodDst(done.entries, x.dstClsName.value, x.dstName, x.dstDesc);
    }
  }

  /** The same for a resolved field. */
  lemma ResolveMirrorsField(entries: seq<Entry>, srcTree: Tree, dstTree: Tree, named: string, ids: Ids, x: Entry)
    ensures ResolveWith(entries, srcTree, dstTree, named, ids).Ok? &&
            x in ResolveWith(entries, srcTree, dstTree, named, ids).value.entries && x.FieldEntry? ==>
      && x.dstClsName.Some?
      && var r := ResolveWith(entries, srcTree, dstTree, named, ids).value;
         && HasField(r.forward, x.srcClsName, x.srcName, FieldDst(srcTree, named, r.entries, x.srcClsName, x.srcName))
         && HasField(r.backward, x.dstClsName.value, x.dstName, BackFieldDst(dstTree, named, r.entries, x.dstClsName.value, x.dstName))
  {
    if ResolveWith(entries, srcTree, dstTree, named, ids).Ok? &&
       x in ResolveWith(entries, srcTree, dstTree, named, ids).value.entries && x.FieldEntry? {
      var internal := AllToInternal(entries).value;
      var env := EnvOf(srcTree, dstTree, ids, internal);
      var done := CompleteAll(env, internal).value;
      CompleteAllSound(env, internal);
      FieldLands(srcTree, named, done.entries, x);
      var k :| 0 <= k < |done.entries| && done.entries[k] == x;
      var back := SwapAll(done.entries);
      assert back[k] == Swap(x) && Swap(x) in back;
      FieldLands(dstTree, named, back, Swap(x));
      SwapFieldDst(dstTree, named, done.entries, x.dstClsName.value, x.dstName);
    }
  }
}
