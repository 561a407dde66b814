/** The mapping-set algebra of `MappingUtils.kt`: a mapping set renames
    classes (keyed by obfuscated name, with nested inner classes) and
    their fields and methods (keyed by obfuscated signature). The
    operations split the class renames off a set, merge two sets keeping
    both sides' entries, and join two sets into their composition. */
module MappingSets {
  import opened Wrappers
  import opened Descriptors

  // ---------------------------------------------------------------------
  // Data model

  /** A member signature: name and descriptor (empty for a field whose
      type is not recorded). */
  datatype Sig = Sig(name: string, desc: string)

  /** A field or method mapping: its obfuscated signature and the name it
      is renamed to. */
  datatype Member = Member(sig: Sig, deobfName: string) {
    /** `getDeobfuscatedSignature`: the new name with the descriptor's
        class references deobfuscated by `ren`, the class renaming of the
        set the member belongs to. */
    function DeobfSig(ren: string -> string): (r: Sig)
      ensures r.name == deobfName
      ensures (forall n :: ren(n) == n) ==> r.desc == sig.desc
    {
      MapDescIdentityIf(sig.desc, ren);
      Sig(deobfName, MapDesc(sig.desc, ren))
    }
  }

  /** Renaming nothing leaves a descriptor as it stands. */
  lemma MapDescIdentityIf(d: string, ren: string -> string)
    ensures (forall n :: ren(n) == n) ==> MapDesc(d, ren) == d
  {
    if forall n :: ren(n) == n {
      MapDescIdentity(d, ren);
    }
  }

  /** A class mapping: the name it is renamed to, its members in
      insertion order, and its inner classes keyed by obfuscated name. */
  datatype ClassMapping = ClassMapping(deobf: string, fields: seq<Member>, methods: seq<Member>,
                                       inners: map<string, ClassMapping>)

  /** Top-level classes keyed by obfuscated name. */
  type MappingSet = map<string, ClassMapping>

  // ---------------------------------------------------------------------
  // Class names

  /** The position of the last `$` in a name. */
  function LastDollar(n: string): (r: Option<nat>)
    ensures r.Some? ==> r.value < |n| && n[r.value] == '$'
    ensures r.Some? ==> forall j :: r.value < j < |n| ==> n[j] != '$'
    ensures r.None? ==> forall j :: 0 <= j < |n| ==> n[j] != '$'
  {
    if |n| == 0 then None
    else if n[|n| - 1] == '$' then Some(|n| - 1)
    else LastDollar(n[..|n| - 1])
  }

  /** `computeClassMapping` followed by `getFullDeobfuscatedName`: the
      mapping of the class named `n` and its full new name. A top-level
      name is looked up directly; `P$I` looks up `P` and then its inner
      class `I`, which is created renamed to itself when `P` lacks it, so
      its full new name is `P`'s, `$` and `I`. None when the outermost
      class is not in the set. */
  function ComputeClass(a: MappingSet, n: string): (r: Option<(ClassMapping, string)>)
    ensures LastDollar(n).None? ==> r == (if n in a then Some((a[n], a[n].deobf)) else None)
    decreases |n|
  {
    match LastDollar(n)
    case None => if n in a then Some((a[n], a[n].deobf)) else None
    case Some(i) =>
      var inner := n[i + 1..];
      match ComputeClass(a, n[..i])
      case None => None
      case Some((p, full)) =>
        if inner in p.inners then Some((p.inners[inner], full + "$" + p.inners[inner].deobf))
        else Some((ClassMapping(inner, [], [], map[]), full + "$" + inner))
  }

  /** `MappingSet.deobfuscate` on a class name: its full new name, or the
      name itself when the set does not know the class. */
  function DeobfClass(a: MappingSet, n: string): (r: string)
    ensures LastDollar(n).None? && n in a ==> r == a[n].deobf
    ensures LastDollar(n).None? && n !in a ==> r == n
  {
    match ComputeClass(a, n)
    case Some((_, full)) => full
    case None => n
  }

  /** The class renaming of a set, as descriptors are deobfuscated with it. */
  function Renaming(a: MappingSet): string -> string {
    n => DeobfClass(a, n)
  }

  /** A set that renames class `x` to `Foo` deobfuscates a method of
      descriptor `(Lx;)V` renamed to `bar` to `bar(LFoo;)V`. */
  lemma DeobfSigExample()
    ensures var a := map["x" := ClassMapping("Foo", [], [], map[])];
      Member(Sig("m", "(Lx;)V"), "bar").DeobfSig(Renaming(a)) == Sig("bar", "(LFoo;)V")
  {
    var a := map["x" := ClassMapping("Foo", [], [], map[])];
    assert LastDollar("x") == None;
    assert DeobfClass(a, "x") == "Foo";
    var d := "(Lx;)V";
    MapDescOfChar(d, Renaming(a));
    assert d[1..] == "L" + "x" + ";" + ")V";
    MapDescOfBuiltRef("x", ")V", Renaming(a));
    MapDescPrimitive(")V", Renaming(a));
  }

  /** An inner class is named after its outer class's full new name. */
  lemma DeobfInnerExample()
    ensures var a := map["x" := ClassMapping("Foo", [], [], map["y" := ClassMapping("Bar", [], [], map[])])];
      DeobfClass(a, "x$y") == "Foo$Bar" && DeobfClass(a, "x$z") == "Foo$z" && DeobfClass(a, "w$y") == "w$y"
  {
    var a := map["x" := ClassMapping("Foo", [], [], map["y" := ClassMapping("Bar", [], [], map[])])];
    assert LastDollar("x") == None && LastDollar("w") == None;
    assert LastDollar("x$y") == Some(1) && "x$y"[..1] == "x" && "x$y"[2..] == "y";
    assert LastDollar("x$z") == Some(1) && "x$z"[..1] == "x" && "x$z"[2..] == "z";
    assert LastDollar("w$y") == Some(1) && "w$y"[..1] == "w";
    assert ComputeClass(a, "x") == Some((a["x"], "Foo"));
  }

  // ---------------------------------------------------------------------
  // Member tables

  /** Lookup by exact signature (`getFieldMapping(sig)`, `getMethodMapping(sig)`). */
  function FindSig(ms: seq<Member>, s: Sig): (r: Option<Member>)
    ensures r.Some? ==> r.value in ms && r.value.sig == s
    ensures r.None? ==> forall m :: m in ms ==> m.sig != s
  {
    if |ms| == 0 then None
    else if ms[0].sig == s then Some(ms[0])
    else FindSig(ms[1..], s)
  }

  /** `getFieldMapping(name)`: Lorenz keeps a by-name index that every
      newly created field overwrites, so the lookup finds the last member
      with that name. */
  function LastNamed(ms: seq<Member>, name: string): (r: Option<Member>)
    ensures r.Some? ==> r.value in ms && r.value.sig.name == name
    ensures r.None? ==> forall m :: m in ms ==> m.sig.name != name
  {
    if |ms| == 0 then None
    else if ms[|ms| - 1].sig.name == name then Some(ms[|ms| - 1])
    else LastNamed(ms[..|ms| - 1], name)
  }

  /** No member after the one found carries the name. */
  lemma {:induction false} LastNamedIsLast(ms: seq<Member>, name: string)
    ensures LastNamed(ms, name).Some? ==> exists k :: (0 <= k < |ms| && ms[k] == LastNamed(ms, name).value &&
      forall j :: k < j < |ms| ==> ms[j].sig.name != name)
    decreases |ms|
  {
    if |ms| > 0 && ms[|ms| - 1].sig.name != name {
      var p := ms[..|ms| - 1];
      LastNamedIsLast(p, name);
      if LastNamed(p, name).Some? {
        var k :| 0 <= k < |p| && p[k] == LastNamed(p, name).value && forall j :: k < j < |p| ==> p[j].sig.name != name;
        assert ms[k] == p[k];
        forall j | k < j < |ms| ensures ms[j].sig.name != name {
          if j < |p| { assert ms[j] == p[j]; }
        }
      }
    }
  }

  /** `methodMappings.find { name == it.obfuscatedName }`: the first
      method with that name in table order. */
  function FirstNamed(ms: seq<Member>, name: string): (r: Option<Member>)
    ensures r.Some? ==> r.value in ms && r.value.sig.name == name
    ensures r.None? ==> forall m :: m in ms ==> m.sig.name != name
  {
    if |ms| == 0 then None
    else if ms[0].sig.name == name then Some(ms[0])
    else FirstNamed(ms[1..], name)
  }

  /** No member before the one found carries the name. */
  lemma {:induction false} FirstNamedIsFirst(ms: seq<Member>, name: string)
    ensures FirstNamed(ms, name).Some? ==> exists k :: (0 <= k < |ms| && ms[k] == FirstNamed(ms, name).value &&
      forall j :: 0 <= j < k ==> ms[j].sig.name != name)
    decreases |ms|
  {
    if |ms| > 0 && ms[0].sig.name != name {
      var p := ms[1..];
      FirstNamedIsFirst(p, name);
      if FirstNamed(p, name).Some? {
        var k :| 0 <= k < |p| && p[k] == FirstNamed(p, name).value && forall j :: 0 <= j < k ==> p[j].sig.name != name;
        assert ms[k + 1] == p[k];
        forall j | 0 <= j < k + 1 ensures ms[j].sig.name != name {
          if j > 0 { assert ms[j] == p[j - 1]; }
        }
      }
    } else if |ms| > 0 {
      assert ms[0] == FirstNamed(ms, name).value;
    }
  }

  /** Signatures are keys: no two members share one. */
  predicate Unique(ms: seq<Member>) {
    forall i, j :: 0 <= i < j < |ms| ==> ms[i].sig != ms[j].sig
  }

  /** `createFieldMapping` / `createMethodMapping` / `copy`: the member
      replaces the one with the same signature, or is added. */
  function Put(ms: seq<Member>, m: Member): (r: seq<Member>)
    ensures FindSig(r, m.sig) == Some(m)
    ensures forall s :: s != m.sig ==> FindSig(r, s) == FindSig(ms, s)
  {
    if |ms| == 0 then [m]
    else if ms[0].sig == m.sig then [m] + ms[1..]
    else [ms[0]] + Put(ms[1..], m)
  }

  /** Putting adds no member but the one put. */
  lemma {:induction false} PutFrom(ms: seq<Member>, m: Member)
    ensures forall x :: x in Put(ms, m) ==> x == m || x in ms
    decreases |ms|
  {
    if |ms| > 0 && ms[0].sig != m.sig {
      PutFrom(ms[1..], m);
      assert Put(ms, m) == [ms[0]] + Put(ms[1..], m);
    }
  }

  /** Putting keeps signatures unique. */
  lemma {:induction false} PutUnique(ms: seq<Member>, m: Member)
    requires Unique(ms)
    ensures Unique(Put(ms, m))
    decreases |ms|
  {
    if |ms| > 0 && ms[0].sig != m.sig {
      PutUnique(ms[1..], m);
      PutFrom(ms[1..], m);
      var rest := Put(ms[1..], m);
      assert Put(ms, m) == [ms[0]] + rest;
      forall x | x in rest ensures x.sig != ms[0].sig {
        if x != m {
          var k :| 0 <= k < |ms[1..]| && ms[1..][k] == x;
          assert ms[k + 1] == x;
        }
      }
      UniqueCons(ms[0], rest);
    } else if |ms| > 0 {
      assert Put(ms, m) == [m] + ms[1..];
      ReplaceUnique(ms, m);
    }
  }

  /** Replacing the first member by one with its signature keeps the
      table unique. */
  lemma ReplaceUnique(ms: seq<Member>, m: Member)
    requires Unique(ms) && |ms| > 0 && ms[0].sig == m.sig
    ensures Unique([m] + ms[1..])
  {
    var r := [m] + ms[1..];
    forall i, j | 0 <= i < j < |r| ensures r[i].sig != r[j].sig {
      assert r[j] == ms[j];
      if i > 0 {
        assert r[i] == ms[i];
      }
    }
  }

  /** The members put one after the other. */
  function PutAll(acc: seq<Member>, ms: seq<Member>): (r: seq<Member>)
    decreases |ms|
  {
    if |ms| == 0 then acc else PutAll(Put(acc, ms[0]), ms[1..])
  }

  /** The last member with signature `s`. */
  function LastWith(ms: seq<Member>, s: Sig): (r: Option<Member>)
    ensures r.Some? ==> r.value in ms && r.value.sig == s
    ensures r.None? ==> forall m :: m in ms ==> m.sig != s
  {
    if |ms| == 0 then None
    else if ms[|ms| - 1].sig == s then Some(ms[|ms| - 1])
    else LastWith(ms[..|ms| - 1], s)
  }

  /** After putting `ms`, a signature maps to the last member of `ms`
      carrying it, or else to what it mapped to before. */
  lemma {:induction false} PutAllFind(acc: seq<Member>, ms: seq<Member>, s: Sig)
    ensures FindSig(PutAll(acc, ms), s) == LastWith(ms, s).OrElse(FindSig(acc, s))
    decreases |ms|
  {
    if |ms| > 0 {
      PutAllFind(Put(acc, ms[0]), ms[1..], s);
      LastWithCons(ms, s);
    }
  }

  lemma {:induction false} LastWithCons(ms: seq<Member>, s: Sig)
    requires |ms| > 0
    ensures LastWith(ms, s) == LastWith(ms[1..], s).OrElse(if ms[0].sig == s then Some(ms[0]) else None)
    decreases |ms|
  {
    if |ms| > 1 && ms[|ms| - 1].sig != s {
      assert ms[..|ms| - 1][1..] == ms[1..][..|ms| - 2];
      LastWithCons(ms[..|ms| - 1], s);
    }
  }

  /** In a table with unique signatures the last member with a signature
      is the only one. */
  lemma {:induction false} LastWithUnique(ms: seq<Member>, s: Sig)
    requires Unique(ms)
    ensures LastWith(ms, s) == FindSig(ms, s)
    decreases |ms|
  {
    if |ms| > 0 {
      LastWithCons(ms, s);
      LastWithUnique(ms[1..], s);
      if ms[0].sig == s {
        assert forall m :: m in ms[1..] ==> m.sig != s by {
          forall m | m in ms[1..] ensures m.sig != s {
            var j :| 0 <= j < |ms[1..]| && ms[1..][j] == m;
            assert ms[j + 1] == m;
          }
        }
      }
    }
  }

  /** A member added in front of a table keeps it unique when its
      signature is new. */
  lemma UniqueCons(m: Member, rest: seq<Member>)
    requires Unique(rest) && forall x :: x in rest ==> x.sig != m.sig
    ensures Unique([m] + rest)
  {
    var r := [m] + rest;
    forall i, j | 0 <= i < j < |r| ensures r[i].sig != r[j].sig {
      if i == 0 {
        assert r[j] == rest[j - 1];
      } else {
        assert r[i] == rest[i - 1] && r[j] == rest[j - 1];
      }
    }
  }

  /** In a table with unique signatures each member is found by its own signature. */
  lemma {:induction false} FindSigAt(ms: seq<Member>, i: int)
    requires Unique(ms) && 0 <= i < |ms|
    ensures FindSig(ms, ms[i].sig) == Some(ms[i])
    decreases |ms|
  {
    if i > 0 {
      assert ms[1..][i - 1] == ms[i];
      assert Unique(ms[1..]) by {
        forall a, b | 0 <= a < b < |ms[1..]| ensures ms[1..][a].sig != ms[1..][b].sig {
          assert ms[1..][a] == ms[a + 1] && ms[1..][b] == ms[b + 1];
        }
      }
      FindSigAt(ms[1..], i - 1);
    }
  }

  /** Putting a table of unique members into an empty one gives the same lookups. */
  lemma PutAllFresh(ms: seq<Member>, s: Sig)
    requires Unique(ms)
    ensures FindSig(PutAll([], ms), s) == FindSig(ms, s)
  {
    PutAllFind([], ms, s);
    LastWithUnique(ms, s);
  }

  // ---------------------------------------------------------------------
  // Splitting off the class renames

  /** The class renames of a class, without members, recursively. */
  function ClassOnly(c: ClassMapping): (r: ClassMapping)
    ensures r.deobf == c.deobf && r.fields == [] && r.methods == []
    ensures r.inners.Keys == c.inners.Keys
    decreases c
  {
    ClassMapping(c.deobf, [], [], map k | k in c.inners :: ClassOnly(c.inners[k]))
  }

  /** The class with every class name reset to the obfuscated one
      (`obf` is the class's own key), members untouched. */
  function Identity(c: ClassMapping, obf: string): (r: ClassMapping)
    decreases c
  {
    ClassMapping(obf, c.fields, c.methods, map k | k in c.inners :: Identity(c.inners[k], k))
  }

  /** `splitOffClassMappings`: returns the class renames, and the set as
      the call leaves it, with its classes renamed to themselves. */
  function SplitOff(m: MappingSet): (r: (MappingSet, MappingSet))
    ensures r.0.Keys == m.Keys && r.1.Keys == m.Keys
  {
    (map k | k in m :: ClassOnly(m[k]), map k | k in m :: Identity(m[k], k))
  }

  /** Every class of the stripped set (inner ones included) is renamed to
      its own obfuscated name. */
  predicate IsIdentity(c: ClassMapping, obf: string)
    decreases c
  {
    && c.deobf == obf
    && forall k :: k in c.inners ==> IsIdentity(c.inners[k], k)
  }

  lemma {:induction false} IdentityIsIdentity(c: ClassMapping, obf: string)
    ensures IsIdentity(Identity(c, obf), obf)
    ensures Identity(c, obf).fields == c.fields && Identity(c, obf).methods == c.methods
    ensures Identity(c, obf).inners.Keys == c.inners.Keys
    decreases c
  {
    forall k | k in c.inners ensures IsIdentity(Identity(c.inners[k], k), k) {
      IdentityIsIdentity(c.inners[k], k);
    }
  }

  /** Puts class renames back onto a set's bodies. */
  function Restore(names: ClassMapping, body: ClassMapping): ClassMapping
    decreases body
  {
    ClassMapping(names.deobf, body.fields, body.methods,
                 map k | k in body.inners && k in names.inners :: Restore(names.inners[k], body.inners[k]))
  }

  /** Splitting loses nothing: the renames put back onto the stripped
      classes give the original classes. */
  lemma {:induction false} SplitOffRoundTrip(c: ClassMapping, obf: string)
    ensures Restore(ClassOnly(c), Identity(c, obf)) == c
    decreases c
  {
    var r := Restore(ClassOnly(c), Identity(c, obf));
    forall k | k in c.inners ensures r.inners[k] == c.inners[k] {
      SplitOffRoundTrip(c.inners[k], k);
    }
    assert r.inners == c.inners;
  }

  /** The same on whole sets: the returned set holds every original class
      rename, and the set left behind is the identity on class names with
      the members kept. */
  lemma SplitOffMeaning(m: MappingSet)
    ensures var (names, stripped) := SplitOff(m);
      forall k :: k in m ==>
        && names[k].deobf == m[k].deobf
        && IsIdentity(stripped[k], k)
        && stripped[k].fields == m[k].fields && stripped[k].methods == m[k].methods
        && Restore(names[k], stripped[k]) == m[k]
  {
    forall k | k in m
      ensures IsIdentity(Identity(m[k], k), k)
      ensures Restore(ClassOnly(m[k]), Identity(m[k], k)) == m[k]
    {
      IdentityIsIdentity(m[k], k);
      SplitOffRoundTrip(m[k], k);
    }
  }

  // ---------------------------------------------------------------------
  // Member join

  /** Field and method `join`: `a`'s signature, `with`'s new name. */
  function JoinMember(a: Member, with: Member): (r: Member)
    ensures r.sig == a.sig && r.deobfName == with.deobfName
  {
    Member(a.sig, with.deobfName)
  }

  // ---------------------------------------------------------------------
  // mergeBoth
  //
  // Throughout, `ren` is the class renaming of `a`, the set whose members
  // are deobfuscated (`Renaming(a)` at the top).

  /** An `a` member in `mergeBoth`: joined with the `b` member found, or copied. */
  function MergedMember(m: Member, found: Option<Member>): (r: Member)
    ensures r.sig == m.sig
    ensures found.Some? ==> r.deobfName == found.value.deobfName
    ensures found.None? ==> r == m
  {
    match found
    case Some(g) => JoinMember(m, g)
    case None => m
  }

  /** The `a` fields of a class merge: each looks up the `b` field named
      like its deobfuscated name. */
  function MergedFields(aFs: seq<Member>, bFs: seq<Member>): (r: seq<Member>)
    ensures |r| == |aFs| && forall i :: 0 <= i < |r| ==> r[i] == MergedMember(aFs[i], LastNamed(bFs, aFs[i].deobfName))
  {
    if |aFs| == 0 then []
    else [MergedMember(aFs[0], LastNamed(bFs, aFs[0].deobfName))] + MergedFields(aFs[1..], bFs)
  }

  /** The `a` methods of a class merge: each looks up the `b` method with
      its deobfuscated signature. */
  function MergedMethods(ren: string -> string, aMs: seq<Member>, bMs: seq<Member>): (r: seq<Member>)
    ensures |r| == |aMs| && forall i :: 0 <= i < |r| ==> r[i] == MergedMember(aMs[i], FindSig(bMs, aMs[i].DeobfSig(ren)))
  {
    if |aMs| == 0 then []
    else [MergedMember(aMs[0], FindSig(bMs, aMs[0].DeobfSig(ren)))] + MergedMethods(ren, aMs[1..], bMs)
  }

  /** Whether some `a` member's deobfuscated signature is `s`. */
  predicate Claims(ren: string -> string, aMs: seq<Member>, s: Sig) {
    exists c :: c in aMs && c.DeobfSig(ren) == s
  }

  /** The `b` members no `a` member leads to, in order. */
  function Unclaimed(ren: string -> string, aMs: seq<Member>, bMs: seq<Member>): (r: seq<Member>)
    ensures forall g :: g in r <==> g in bMs && !Claims(ren, aMs, g.sig)
  {
    if |bMs| == 0 then []
    else
      var rest := Unclaimed(ren, aMs, bMs[1..]);
      if Claims(ren, aMs, bMs[0].sig) then rest else [bMs[0]] + rest
  }

  /** Whether some class of `a` is renamed to `name`. */
  predicate ClaimsClass(a: map<string, ClassMapping>, name: string) {
    exists j :: j in a && a[j].deobf == name
  }

  /** Class-level `mergeBoth`: the merged class takes `b`'s name; `a`'s
      members and inner classes are merged or copied, then `b`'s
      unclaimed ones are copied. */
  function MergeClass(ren: string -> string, aC: ClassMapping, bC: ClassMapping): (r: ClassMapping)
    ensures r.deobf == bC.deobf
    ensures r.inners.Keys == aC.inners.Keys + set k | k in bC.inners && !ClaimsClass(aC.inners, k)
    ensures forall k :: k in bC.inners && !ClaimsClass(aC.inners, k) ==> r.inners[k] == bC.inners[k]
    ensures forall k :: k in aC.inners && !(k in bC.inners && !ClaimsClass(aC.inners, k)) ==>
      r.inners[k].deobf == (if aC.inners[k].deobf in bC.inners then bC.inners[aC.inners[k].deobf].deobf else aC.inners[k].deobf)
    decreases aC
  {
    var fromA := map k | k in aC.inners ::
      if aC.inners[k].deobf in bC.inners then MergeClass(ren, aC.inners[k], bC.inners[aC.inners[k].deobf])
      else aC.inners[k];
    var fromB := map k | k in bC.inners && !ClaimsClass(aC.inners, k) :: bC.inners[k];
    ClassMapping(
      bC.deobf,
      PutAll(PutAll([], MergedFields(aC.fields, bC.fields)), Unclaimed(ren, aC.fields, bC.fields)),
      PutAll(PutAll([], MergedMethods(ren, aC.methods, bC.methods)), Unclaimed(ren, aC.methods, bC.methods)),
      fromA + fromB)
  }

  /** The `a` members of a merge keep their signatures, so a table with
      unique signatures stays one. */
  lemma MergedUnique(aMs: seq<Member>, merged: seq<Member>)
    requires Unique(aMs) && |merged| == |aMs|
    requires forall i :: 0 <= i < |aMs| ==> merged[i].sig == aMs[i].sig
    ensures Unique(merged)
  {
  }

  /** The unclaimed `b` members keep `b`'s order, so they are unique when `b`'s are. */
  lemma {:induction false} UnclaimedUnique(ren: string -> string, aMs: seq<Member>, bMs: seq<Member>)
    requires Unique(bMs)
    ensures Unique(Unclaimed(ren, aMs, bMs))
    decreases |bMs|
  {
    if |bMs| > 0 {
      assert Unique(bMs[1..]) by {
        forall a, b | 0 <= a < b < |bMs[1..]| ensures bMs[1..][a].sig != bMs[1..][b].sig {
          assert bMs[1..][a] == bMs[a + 1] && bMs[1..][b] == bMs[b + 1];
        }
      }
      UnclaimedUnique(ren, aMs, bMs[1..]);
      var rest := Unclaimed(ren, aMs, bMs[1..]);
      forall x | x in rest ensures x.sig != bMs[0].sig {
        var j :| 0 <= j < |bMs[1..]| && bMs[1..][j] == x;
        assert bMs[j + 1] == x;
      }
      if !Claims(ren, aMs, bMs[0].sig) {
        UniqueCons(bMs[0], rest);
      }
    }
  }

  /** A signature of the merged class maps to `b`'s unclaimed member with
      it, else to the merged `a` member with it. */
  lemma MergeClassFind(merged: seq<Member>, bRest: seq<Member>, s: Sig)
    ensures FindSig(PutAll(PutAll([], merged), bRest), s) == LastWith(bRest, s).OrElse(LastWith(merged, s))
  {
    PutAllFind(PutAll([], merged), bRest, s);
    PutAllFind([], merged, s);
  }

  /** Entries of `b` that no `a` entry leads to are preserved by a class
      merge, for fields and methods alike. */
  lemma MergeKeepsB(ren: string -> string, aC: ClassMapping, bC: ClassMapping)
    requires Unique(bC.fields) && Unique(bC.methods)
    ensures forall g :: g in bC.fields && !Claims(ren, aC.fields, g.sig) ==> FindSig(MergeClass(ren, aC, bC).fields, g.sig) == Some(g)
    ensures forall g :: g in bC.methods && !Claims(ren, aC.methods, g.sig) ==> FindSig(MergeClass(ren, aC, bC).methods, g.sig) == Some(g)
  {
    forall g | g in bC.fields && !Claims(ren, aC.fields, g.sig)
      ensures FindSig(MergeClass(ren, aC, bC).fields, g.sig) == Some(g)
    {
      KeptFromB(ren, aC.fields, MergedFields(aC.fields, bC.fields), bC.fields, g);
    }
    forall g | g in bC.methods && !Claims(ren, aC.methods, g.sig)
      ensures FindSig(MergeClass(ren, aC, bC).methods, g.sig) == Some(g)
    {
      KeptFromB(ren, aC.methods, MergedMethods(ren, aC.methods, bC.methods), bC.methods, g);
    }
  }

  lemma KeptFromB(ren: string -> string, aMs: seq<Member>, merged: seq<Member>, bMs: seq<Member>, g: Member)
    requires Unique(bMs) && g in bMs && !Claims(ren, aMs, g.sig)
    ensures FindSig(PutAll(PutAll([], merged), Unclaimed(ren, aMs, bMs)), g.sig) == Some(g)
  {
    var rest := Unclaimed(ren, aMs, bMs);
    MergeClassFind(merged, rest, g.sig);
    UnclaimedUnique(ren, aMs, bMs);
    LastWithUnique(rest, g.sig);
    var i :| 0 <= i < |rest| && rest[i] == g;
    FindSigAt(rest, i);
  }

  /** An `a` member that no unclaimed `b` member overrides keeps its
      signature in the merged class and takes the name of the `b` member
      its new name leads to (or keeps its own). */
  lemma MergeKeepsA(ren: string -> string, aC: ClassMapping, bC: ClassMapping)
    requires Unique(aC.fields) && Unique(aC.methods)
    ensures forall i :: 0 <= i < |aC.fields| && (forall g :: g in bC.fields && !Claims(ren, aC.fields, g.sig) ==> g.sig != aC.fields[i].sig) ==>
      FindSig(MergeClass(ren, aC, bC).fields, aC.fields[i].sig) == Some(MergedMember(aC.fields[i], LastNamed(bC.fields, aC.fields[i].deobfName)))
    ensures forall i :: 0 <= i < |aC.methods| && (forall g :: g in bC.methods && !Claims(ren, aC.methods, g.sig) ==> g.sig != aC.methods[i].sig) ==>
      FindSig(MergeClass(ren, aC, bC).methods, aC.methods[i].sig) == Some(MergedMember(aC.methods[i], FindSig(bC.methods, aC.methods[i].DeobfSig(ren))))
  {
    var mf := MergedFields(aC.fields, bC.fields);
    var mm := MergedMethods(ren, aC.methods, bC.methods);
    forall i | 0 <= i < |aC.fields| && (forall g :: g in bC.fields && !Claims(ren, aC.fields, g.sig) ==> g.sig != aC.fields[i].sig)
      ensures FindSig(MergeClass(ren, aC, bC).fields, aC.fields[i].sig) == Some(mf[i])
    {
      KeptFromA(aC.fields, mf, Unclaimed(ren, aC.fields, bC.fields), i);
    }
    forall i | 0 <= i < |aC.methods| && (forall g :: g in bC.methods && !Claims(ren, aC.methods, g.sig) ==> g.sig != aC.methods[i].sig)
      ensures FindSig(MergeClass(ren, aC, bC).methods, aC.methods[i].sig) == Some(mm[i])
    {
      KeptFromA(aC.methods, mm, Unclaimed(ren, aC.methods, bC.methods), i);
    }
  }

  lemma KeptFromA(aMs: seq<Member>, merged: seq<Member>, bRest: seq<Member>, i: int)
    requires Unique(aMs) && |merged| == |aMs| && 0 <= i < |aMs|
    requires forall j :: 0 <= j < |aMs| ==> merged[j].sig == aMs[j].sig
    requires forall g :: g in bRest ==> g.sig != aMs[i].sig
    ensures FindSig(PutAll(PutAll([], merged), bRest), aMs[i].sig) == Some(merged[i])
  {
    MergeClassFind(merged, bRest, aMs[i].sig);
    MergedUnique(aMs, merged);
    LastWithUnique(merged, aMs[i].sig);
    FindSigAt(merged, i);
  }

  /** `mergeBoth` on sets: like a merge, except that entries of `b` that
      `a` does not lead to are kept. Members of `a` are deobfuscated
      through `a`'s own class renames. */
  function MergeBoth(a: MappingSet, b: MappingSet): (r: MappingSet)
    ensures r.Keys == a.Keys + set k | k in b && !ClaimsClass(a, k)
    ensures forall k :: k in b && !ClaimsClass(a, k) ==> r[k] == b[k]
    ensures forall k :: k in a && !(k in b && !ClaimsClass(a, k)) ==>
      r[k].deobf == (if a[k].deobf in b then b[a[k].deobf].deobf else a[k].deobf)
  {
    var fromA := map k | k in a ::
      if a[k].deobf in b then MergeClass(Renaming(a), a[k], b[a[k].deobf]) else a[k];
    var fromB := map k | k in b && !ClaimsClass(a, k) :: b[k];
    fromA + fromB
  }

  // ---------------------------------------------------------------------
  // join

  /** Which member table a lookup works on: the by-name fallbacks of
      `join` differ between fields and methods. */
  datatype Table = Fields | Methods

  /** The `b` member an `a` member is joined with: the one with its
      deobfuscated signature, else one named like its deobfuscated name
      (the last such field, the first such method). */
  function Partner(t: Table, ren: string -> string, m: Member, bMs: seq<Member>): (r: Option<Member>)
    ensures FindSig(bMs, m.DeobfSig(ren)).Some? ==> r == FindSig(bMs, m.DeobfSig(ren))
    ensures FindSig(bMs, m.DeobfSig(ren)).None? && t == Fields ==> r == LastNamed(bMs, m.deobfName)
    ensures FindSig(bMs, m.DeobfSig(ren)).None? && t == Methods ==> r == FirstNamed(bMs, m.deobfName)
    ensures r.Some? ==> r.value in bMs && r.value.sig.name == m.deobfName
    ensures r.None? <==> forall g :: g in bMs ==> g.sig.name != m.deobfName
  {
    FindSig(bMs, m.DeobfSig(ren)).OrElse(if t == Fields then LastNamed(bMs, m.deobfName) else FirstNamed(bMs, m.deobfName))
  }

  /** The joined members, in `a`'s order; those without a partner are dropped. */
  function JoinMembers(t: Table, ren: string -> string, aMs: seq<Member>, bMs: seq<Member>): (r: seq<Member>)
    ensures forall x :: x in r ==> exists m :: m in aMs && Partner(t, ren, m, bMs).Some? && x == JoinMember(m, Partner(t, ren, m, bMs).value)
    ensures forall m :: m in aMs && Partner(t, ren, m, bMs).Some? ==> JoinMember(m, Partner(t, ren, m, bMs).value) in r
  {
    if |aMs| == 0 then []
    else
      var rest := JoinMembers(t, ren, aMs[1..], bMs);
      match Partner(t, ren, aMs[0], bMs)
      case None => rest
      case Some(g) => [JoinMember(aMs[0], g)] + rest
  }

  /** What a joined table maps `a`'s member to: its partner's name, or nothing. */
  function JoinedWith(t: Table, ren: string -> string, f: Option<Member>, bMs: seq<Member>): Option<Member> {
    match f
    case None => None
    case Some(m) =>
      match Partner(t, ren, m, bMs)
      case None => None
      case Some(g) => Some(JoinMember(m, g))
  }

  /** Joined members are looked up like `a`'s, then through the partner. */
  lemma {:induction false} JoinMembersFind(t: Table, ren: string -> string, aMs: seq<Member>, bMs: seq<Member>, s: Sig)
    requires Unique(aMs)
    ensures Unique(JoinMembers(t, ren, aMs, bMs))
    ensures FindSig(JoinMembers(t, ren, aMs, bMs), s) == JoinedWith(t, ren, FindSig(aMs, s), bMs)
    decreases |aMs|
  {
    if |aMs| > 0 {
      assert Unique(aMs[1..]) by {
        forall a, b | 0 <= a < b < |aMs[1..]| ensures aMs[1..][a].sig != aMs[1..][b].sig {
          assert aMs[1..][a] == aMs[a + 1] && aMs[1..][b] == aMs[b + 1];
        }
      }
      JoinMembersFind(t, ren, aMs[1..], bMs, s);
      var rest := JoinMembers(t, ren, aMs[1..], bMs);
      assert forall x :: x in aMs[1..] ==> x.sig != aMs[0].sig by {
        forall x | x in aMs[1..] ensures x.sig != aMs[0].sig {
          var j :| 0 <= j < |aMs[1..]| && aMs[1..][j] == x;
          assert aMs[j + 1] == x;
        }
      }
      if Partner(t, ren, aMs[0], bMs).Some? {
        UniqueCons(JoinMember(aMs[0], Partner(t, ren, aMs[0], bMs).value), rest);
      }
    }
  }

  /** A joined class maps a signature exactly when `a` maps it and `b`
      has a partner for `a`'s new name; then to the partner's new name.
      Everything else of `a` is dropped. */
  lemma JoinClassFind(ren: string -> string, aC: ClassMapping, bC: ClassMapping, s: Sig)
    requires Unique(aC.fields) && Unique(aC.methods)
    ensures FindSig(JoinClass(ren, aC, bC).fields, s) == JoinedWith(Fields, ren, FindSig(aC.fields, s), bC.fields)
    ensures FindSig(JoinClass(ren, aC, bC).methods, s) == JoinedWith(Methods, ren, FindSig(aC.methods, s), bC.methods)
  {
    JoinMembersFind(Fields, ren, aC.fields, bC.fields, s);
    JoinMembersFind(Methods, ren, aC.methods, bC.methods, s);
    PutAllFresh(JoinMembers(Fields, ren, aC.fields, bC.fields), s);
    PutAllFresh(JoinMembers(Methods, ren, aC.methods, bC.methods), s);
  }

  /** Class-level `join` (the top-level and the inner variant do the same). */
  function JoinClass(ren: string -> string, aC: ClassMapping, bC: ClassMapping): (r: ClassMapping)
    ensures r.deobf == bC.deobf
    ensures r.inners.Keys == set k | k in aC.inners && aC.inners[k].deobf in bC.inners
    decreases aC
  {
    ClassMapping(
      bC.deobf,
      PutAll([], JoinMembers(Fields, ren, aC.fields, bC.fields)),
      PutAll([], JoinMembers(Methods, ren, aC.methods, bC.methods)),
      map k | k in aC.inners && aC.inners[k].deobf in bC.inners ::
        JoinClass(ren, aC.inners[k], bC.inners[aC.inners[k].deobf]))
  }

  /** `join` on sets: only the classes of `a` whose new name is a class
      of `b` survive. Members of `a` are deobfuscated through `a`'s own
      class renames. */
  function Join(a: MappingSet, b: MappingSet): (r: MappingSet)
    ensures forall k :: k in r <==> k in a && a[k].deobf in b
    ensures forall k :: k in r ==> r[k].deobf == b[a[k].deobf].deobf
  {
    map k | k in a && a[k].deobf in b :: JoinClass(Renaming(a), a[k], b[a[k].deobf])
  }
}
