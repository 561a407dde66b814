/** Shared-class inference (`inferSharedClassMappings`, `tryInferMapping`
    in `PreprocessTask.kt`). Intermediate mappings name fields and methods
    (`field_…`, `func_…`) but not classes; two versions' classes are
    paired when, by the members they share, each is the other's single
    best candidate. Paired classes get a fresh shared name `class_N`.

    Each tree is seen through its classes' names in the shared namespace:
    the class name and the names of its fields and methods, in tree order. */
module Inference {
  import opened Wrappers
  import opened Text

  datatype Shape = Shape(name: string, fields: seq<string>, methods: seq<string>)

  /** Shared member name -> the (not yet paired) classes declaring it,
      once per declaration, in tree order. */
  type Index = map<string, seq<string>>

  const FieldPrefix: string := "field_"
  const MethodPrefix: string := "func_"

  /** Whether the class declares `m` as a member the index records: a
      field named `field_…` or a method named `func_…`. */
  predicate Indexed(s: Shape, m: string) {
    || (m in s.fields && StartsWith(m, FieldPrefix))
    || (m in s.methods && StartsWith(m, MethodPrefix))
  }

  /** Whether the index lists class `c` under member name `m`. */
  predicate Lists(idx: Index, m: string, c: string) {
    m in idx && c in idx[m]
  }

  /** Whether some class of the tree is (currently) named `name`. */
  predicate Names(shapes: seq<Shape>, name: string) {
    exists i :: 0 <= i < |shapes| && shapes[i].name == name
  }

  /** Class names are unique within the namespace. */
  predicate DistinctNames(shapes: seq<Shape>) {
    forall i, j :: 0 <= i < j < |shapes| ==> shapes[i].name != shapes[j].name
  }

  /** The naming discipline of intermediate mappings: no field is named
      like a method (`func_…`) and no method like a field (`field_…`). */
  predicate KindsApart(shapes: seq<Shape>) {
    forall i :: 0 <= i < |shapes| ==>
      && (forall m :: m in shapes[i].fields ==> !StartsWith(m, MethodPrefix))
      && (forall m :: m in shapes[i].methods ==> !StartsWith(m, FieldPrefix))
  }

  // ---------------------------------------------------------------------
  // Member index (the `srcMemberToClass` / `dstMemberToClass` loops)

  /** Appends `owner` under every name of `names` that carries `prefix`. */
  function AddNames(idx: Index, names: seq<string>, prefix: string, owner: string): (r: Index)
    ensures forall m, c :: Lists(r, m, c) <==> Lists(idx, m, c) || (c == owner && m in names && StartsWith(m, prefix))
    decreases |names|
  {
    if |names| == 0 then idx
    else
      var m := names[0];
      var idx' := if StartsWith(m, prefix) then idx[m := (if m in idx then idx[m] else []) + [owner]] else idx;
      AddNames(idx', names[1..], prefix, owner)
  }

  /** The index over the classes whose name is not done. */
  function BuildIndex(shapes: seq<Shape>, done: set<string>): (r: Index)
    ensures forall m, c :: Lists(r, m, c) <==> exists i :: 0 <= i < |shapes| && shapes[i].name == c && c !in done && Indexed(shapes[i], m)
  {
    if |shapes| == 0 then map[]
    else
      var s := shapes[|shapes| - 1];
      var prev := BuildIndex(shapes[..|shapes| - 1], done);
      if s.name in done then prev
      else AddNames(AddNames(prev, s.fields, FieldPrefix, s.name), s.methods, MethodPrefix, s.name)
  }

  // ---------------------------------------------------------------------
  // Candidates (`tryInferMapping`)

  /** The classes listed under each of `names`, concatenated. */
  function Gather(names: seq<string>, idx: Index): (r: seq<string>)
    ensures forall c :: c in r <==> exists m :: m in names && Lists(idx, m, c)
  {
    if |names| == 0 then []
    else
      var head := if names[0] in idx then idx[names[0]] else [];
      assert forall c :: c in head <==> Lists(idx, names[0], c);
      assert forall m :: m in names <==> m == names[0] || m in names[1..];
      head + Gather(names[1..], idx)
  }

  /** One entry per (member of the class, class of the other tree sharing
      that member's name): a candidate occurs as often as it is counted. */
  function Candidates(s: Shape, idx: Index): (r: seq<string>)
    ensures forall c :: c in r <==> exists m :: (m in s.fields || m in s.methods) && Lists(idx, m, c)
  {
    Gather(s.fields, idx) + Gather(s.methods, idx)
  }

  function Count(cs: seq<string>, x: string): nat {
    multiset(cs)[x]
  }

  /** `b` is counted strictly more often than every other candidate. */
  predicate Beats(cs: seq<string>, b: string) {
    b in cs && forall o :: o in cs && o != b ==> Count(cs, o) < Count(cs, b)
  }

  /** The outcome for one class: no candidate, a single one, or all
      candidates when none is strictly best. */
  datatype Guess = NoCandidate | Single(name: string) | Ambiguous(names: set<string>)

  function WinnerFrom(cs: seq<string>, k: nat): (r: Option<string>)
    requires k <= |cs|
    ensures r.Some? ==> Beats(cs, r.value)
    ensures r.None? ==> forall j :: k <= j < |cs| ==> !Beats(cs, cs[j])
    decreases |cs| - k
  {
    if k == |cs| then None
    else if Beats(cs, cs[k]) then Some(cs[k])
    else WinnerFrom(cs, k + 1)
  }

  /** The `candidates.maxBy` choice and the strictness test after it. */
  function Best(cs: seq<string>): (r: Guess)
    ensures r.NoCandidate? <==> |cs| == 0
    ensures r.Single? ==> Beats(cs, r.name)
    ensures r.Ambiguous? ==> r.names == (set x | x in cs) && forall x :: !Beats(cs, x)
  {
    if |cs| == 0 then NoCandidate
    else match WinnerFrom(cs, 0)
      case Some(b) => Single(b)
      case None => Ambiguous(set x | x in cs)
  }

  /** At most one candidate beats all others, so a single guess is the
      only possible one; an ambiguous guess has at least two candidates. */
  lemma BestMeaning(cs: seq<string>)
    ensures forall a, b :: Beats(cs, a) && Beats(cs, b) ==> a == b
    ensures Best(cs).Ambiguous? ==> exists x, y :: x in Best(cs).names && y in Best(cs).names && x != y
  {
    if Best(cs).Ambiguous? {
      var x := cs[0];
      assert !Beats(cs, x);
      var y :| y in cs && y != x && Count(cs, y) >= Count(cs, x);
      assert x in Best(cs).names && y in Best(cs).names;
    }
  }

  /** Guesses for the classes not yet done, keyed by class name; a later
      class with the same name overwrites an earlier one. */
  function Infer(shapes: seq<Shape>, idx: Index, done: set<string>): (r: map<string, Guess>)
    ensures forall k :: k in r <==> k !in done && Names(shapes, k)
  {
    if |shapes| == 0 then map[]
    else
      var s := shapes[|shapes| - 1];
      var prev := Infer(shapes[..|shapes| - 1], idx, done);
      assert forall k :: Names(shapes[..|shapes| - 1], k) ==> Names(shapes, k) by {
        forall k | Names(shapes[..|shapes| - 1], k) ensures Names(shapes, k) {
          var i :| 0 <= i < |shapes| - 1 && shapes[..|shapes| - 1][i].name == k;
          assert shapes[i].name == k;
        }
      }
      if s.name in done then prev else prev[s.name := Best(Candidates(s, idx))]
  }

  /** With unique names, each class not done gets the guess of its own candidates. */
  lemma {:induction false} InferAt(shapes: seq<Shape>, idx: Index, done: set<string>, i: int)
    requires DistinctNames(shapes) && 0 <= i < |shapes| && shapes[i].name !in done
    ensures Infer(shapes, idx, done)[shapes[i].name] == Best(Candidates(shapes[i], idx))
    decreases |shapes|
  {
    var n := |shapes|;
    if i < n - 1 {
      var p := shapes[..n - 1];
      assert p[i] == shapes[i];
      assert DistinctNames(p) by {
        forall a, b | 0 <= a < b < |p| ensures p[a].name != p[b].name {
          assert p[a] == shapes[a] && p[b] == shapes[b];
        }
      }
      InferAt(p, idx, done, i);
    }
  }

  /** In general each guess is that of some class with the key's name. */
  lemma {:induction false} InferValue(shapes: seq<Shape>, idx: Index, done: set<string>, k: string)
    requires k in Infer(shapes, idx, done)
    ensures exists i :: 0 <= i < |shapes| && shapes[i].name == k && Infer(shapes, idx, done)[k] == Best(Candidates(shapes[i], idx))
    decreases |shapes|
  {
    var n := |shapes|;
    var p := shapes[..n - 1];
    if shapes[n - 1].name == k && k !in done {
      assert Infer(shapes, idx, done)[k] == Best(Candidates(shapes[n - 1], idx));
    } else {
      InferValue(p, idx, done, k);
      var i :| 0 <= i < |p| && p[i].name == k && Infer(p, idx, done)[k] == Best(Candidates(p[i], idx));
      assert shapes[i] == p[i];
    }
  }

  /** The names of the classes not done, each once, in first-occurrence
      order: the iteration order of the guesses. */
  function Keys(shapes: seq<Shape>, done: set<string>): (r: seq<string>)
    ensures forall k :: k in r <==> k !in done && Names(shapes, k)
    ensures forall i, j :: 0 <= i < j < |r| ==> r[i] != r[j]
  {
    if |shapes| == 0 then []
    else
      var s := shapes[|shapes| - 1];
      var prev := Keys(shapes[..|shapes| - 1], done);
      assert forall k :: Names(shapes[..|shapes| - 1], k) ==> Names(shapes, k) by {
        forall k | Names(shapes[..|shapes| - 1], k) ensures Names(shapes, k) {
          var i :| 0 <= i < |shapes| - 1 && shapes[..|shapes| - 1][i].name == k;
          assert shapes[i].name == k;
        }
      }
      if s.name in done || s.name in prev then prev else prev + [s.name]
  }

  // ---------------------------------------------------------------------
  // Committing mutual matches

  /** The inference state: both trees, the names done, the next shared id. */
  datatype State = State(src: seq<Shape>, dst: seq<Shape>, done: set<string>, next: nat)

  /** A committed pair: source class, destination class, shared name. */
  datatype Pair = Pair(src: string, dst: string, shared: string)

  /** Failures the source would raise as exceptions. */
  datatype InferError =
    | MissingReverse(dst: string)   // `getValue` on a name without a guess
    | EmptyReverse(dst: string)     // `single()` on an empty candidate list
    | MissingClass(name: string)    // `getClass(…)!!` finding nothing

  function SharedName(n: nat): string {
    "class_" + NatToString(n)
  }

  /** The position of the first class named `name`. */
  function FirstNamed(shapes: seq<Shape>, name: string): (r: Option<nat>)
    ensures r.None? <==> !Names(shapes, name)
    ensures r.Some? ==> r.value < |shapes| && shapes[r.value].name == name
    ensures r.Some? ==> forall j :: 0 <= j < r.value ==> shapes[j].name != name
  {
    if |shapes| == 0 then None
    else if shapes[0].name == name then Some(0)
    else match FirstNamed(shapes[1..], name)
      case None =>
        assert forall i :: 1 <= i < |shapes| ==> shapes[i] == shapes[1..][i - 1];
        None
      case Some(i) =>
        assert shapes[i + 1] == shapes[1..][i];
        assert forall j :: 1 <= j <= i ==> shapes[j] == shapes[1..][j - 1];
        Some(i + 1)
  }

  /** `getClass(from)!!.setDstName(to)`: renames the first class named
      `from`; None when there is none. */
  function RenameFirst(shapes: seq<Shape>, from: string, to: string): (r: Option<seq<Shape>>)
    ensures r.None? <==> !Names(shapes, from)
  {
    match FirstNamed(shapes, from)
    case None => None
    case Some(i) => Some(shapes[i := shapes[i].(name := to)])
  }

  /** The number of classes whose name is not done: it shrinks with every
      round that adds a name, which ends the rounds. */
  function NotDone(shapes: seq<Shape>, done: set<string>): nat {
    if |shapes| == 0 then 0
    else (if shapes[0].name in done then 0 else 1) + NotDone(shapes[1..], done)
  }

  lemma {:induction false} NotDoneGrows(shapes: seq<Shape>, done: set<string>, more: set<string>)
    requires done <= more
    ensures NotDone(shapes, more) <= NotDone(shapes, done)
    decreases |shapes|
  {
    if |shapes| > 0 { NotDoneGrows(shapes[1..], done, more); }
  }

  /** Renaming a class into the done names never adds to the count, and
      removes one when the class was not done before. */
  lemma {:induction false} NotDoneRename(shapes: seq<Shape>, renamed: seq<Shape>, i: int, to: string, done: set<string>, more: set<string>)
    requires done <= more && to in more && 0 <= i < |shapes| && |renamed| == |shapes|
    requires renamed[i] == shapes[i].(name := to)
    requires forall j :: 0 <= j < |shapes| && j != i ==> renamed[j] == shapes[j]
    ensures NotDone(renamed, more) <= NotDone(shapes, done)
    ensures shapes[i].name !in done ==> NotDone(renamed, more) < NotDone(shapes, done)
    decreases |shapes|
  {
    if i == 0 {
      assert renamed[1..] == shapes[1..];
      NotDoneGrows(shapes[1..], done, more);
    } else {
      NotDoneRename(shapes[1..], renamed[1..], i - 1, to, done, more);
    }
  }

  function SharedNames(ps: seq<Pair>): set<string> {
    set p | p in ps :: p.shared
  }

  lemma SharedNamesOfNone(ps: seq<Pair>)
    ensures |ps| == 0 ==> SharedNames(ps) == {}
  {
  }

  /** Commits one pair: both classes take the next shared name, which
      becomes done. */
  function PairUp(k: string, d: string, st: State): (r: Result<State, InferError>)
    ensures r.Ok? ==> r.value.next == st.next + 1 && r.value.done == st.done + {SharedName(st.next)}
  {
    var name := SharedName(st.next);
    match RenameFirst(st.src, k, name)
    case None => Err(MissingClass(k))
    case Some(src') =>
      match RenameFirst(st.dst, d, name)
      case None => Err(MissingClass(d))
      case Some(dst') => Ok(State(src', dst', st.done + {name}, st.next + 1))
  }

  /** A commit never adds to the classes not done, and removes the
      source class when its name was not done. */
  lemma PairUpShrinks(k: string, d: string, st: State)
    requires PairUp(k, d, st).Ok?
    ensures var st' := PairUp(k, d, st).value;
      && NotDone(st'.src, st'.done) <= NotDone(st.src, st.done)
      && (k !in st.done ==> NotDone(st'.src, st'.done) < NotDone(st.src, st.done))
  {
    var name := SharedName(st.next);
    var i := FirstNamed(st.src, k).value;
    NotDoneRename(st.src, st.src[i := st.src[i].(name := name)], i, name, st.done, st.done + {name});
  }

  /** The commit loop of one round over the source guesses' keys: a pair
      is committed when the source class's single guess is a destination
      class whose single guess is that source class. */
  function Commit(keys: seq<string>, srcMap: map<string, Guess>, dstMap: map<string, Guess>, st: State)
    : (r: Result<(State, seq<Pair>), InferError>)
    requires forall k :: k in keys ==> k in srcMap
    decreases |keys|
  {
    if |keys| == 0 then Ok((st, []))
    else
      var k := keys[0];
      var rest := keys[1..];
      assert forall x :: x in rest ==> x in keys;
      if !srcMap[k].Single? then Commit(rest, srcMap, dstMap, st)
      else
        var d := srcMap[k].name;
        if d !in dstMap then Err(MissingReverse(d))
        else if dstMap[d].NoCandidate? then Err(EmptyReverse(d))
        else if dstMap[d] != Single(k) then Commit(rest, srcMap, dstMap, st)
        else
          match PairUp(k, d, st)
          case Err(e) => Err(e)
          case Ok(st1) =>
            match Commit(rest, srcMap, dstMap, st1)
            case Err(e) => Err(e)
            case Ok((st2, ps)) => Ok((st2, [Pair(k, d, SharedName(st.next))] + ps))
  }

  /** Whether `k` is committed at the head of a commit loop. */
  predicate Mutual(k: string, srcMap: map<string, Guess>, dstMap: map<string, Guess>) {
    k in srcMap && srcMap[k].Single? && srcMap[k].name in dstMap && dstMap[srcMap[k].name] == Single(k)
  }

  /** The bookkeeping of a commit loop: one shared name `class_N` per
      pair, and only those names added to `done`. */
  lemma {:induction false} CommitNames(keys: seq<string>, srcMap: map<string, Guess>, dstMap: map<string, Guess>, st: State)
    requires forall k :: k in keys ==> k in srcMap
    requires Commit(keys, srcMap, dstMap, st).Ok?
    ensures var (st', ps) := Commit(keys, srcMap, dstMap, st).value;
      && st'.next == st.next + |ps|
      && st'.done == st.done + SharedNames(ps)
    decreases |keys|
  {
    if |keys| > 0 {
      var k := keys[0];
      assert forall x :: x in keys[1..] ==> x in keys;
      if Mutual(k, srcMap, dstMap) {
        var d := srcMap[k].name;
        var st1 := PairUp(k, d, st).value;
        CommitNames(keys[1..], srcMap, dstMap, st1);
        var ps := Commit(keys[1..], srcMap, dstMap, st1).value.1;
        var all := [Pair(k, d, SharedName(st.next))] + ps;
        assert Commit(keys, srcMap, dstMap, st).value.1 == all;
        assert SharedNames(all) == {SharedName(st.next)} + SharedNames(ps) by {
          assert forall p :: p in all <==> p == all[0] || p in ps;
        }
      } else {
        CommitNames(keys[1..], srcMap, dstMap, st);
      }
    }
  }

  /** The shared names are numbered consecutively from the state's
      counter. */
  lemma {:induction false} CommitNumbers(keys: seq<string>, srcMap: map<string, Guess>, dstMap: map<string, Guess>, st: State)
    requires forall k :: k in keys ==> k in srcMap
    requires Commit(keys, srcMap, dstMap, st).Ok?
    ensures var ps := Commit(keys, srcMap, dstMap, st).value.1;
      forall i :: 0 <= i < |ps| ==> ps[i].shared == SharedName(st.next + i)
    decreases |keys|
  {
    if |keys| > 0 {
      var k := keys[0];
      assert forall x :: x in keys[1..] ==> x in keys;
      if Mutual(k, srcMap, dstMap) {
        var d := srcMap[k].name;
        var st1 := PairUp(k, d, st).value;
        CommitNumbers(keys[1..], srcMap, dstMap, st1);
        var ps := Commit(keys[1..], srcMap, dstMap, st1).value.1;
        var all := [Pair(k, d, SharedName(st.next))] + ps;
        assert Commit(keys, srcMap, dstMap, st).value.1 == all;
        forall i | 0 <= i < |all| ensures all[i].shared == SharedName(st.next + i) {
          if i > 0 { assert all[i] == ps[i - 1]; }
        }
      } else {
        CommitNumbers(keys[1..], srcMap, dstMap, st);
      }
    }
  }

  /** A commit loop that commits no pair leaves the state as it was. */
  lemma {:induction false} CommitIdle(keys: seq<string>, srcMap: map<string, Guess>, dstMap: map<string, Guess>, st: State)
    requires forall k :: k in keys ==> k in srcMap
    requires Commit(keys, srcMap, dstMap, st).Ok? && |Commit(keys, srcMap, dstMap, st).value.1| == 0
    ensures Commit(keys, srcMap, dstMap, st).value.0 == st
    decreases |keys|
  {
    if |keys| > 0 {
      assert forall x :: x in keys[1..] ==> x in keys;
      CommitIdle(keys[1..], srcMap, dstMap, st);
    }
  }

  /** Every committed pair joins a source class whose single guess is the
      destination class to a destination class whose single guess is that
      source class, and each key is committed at most once. */
  lemma {:induction false} CommitPairs(keys: seq<string>, srcMap: map<string, Guess>, dstMap: map<string, Guess>, st: State)
    requires forall k :: k in keys ==> k in srcMap
    requires Commit(keys, srcMap, dstMap, st).Ok?
    ensures var ps := Commit(keys, srcMap, dstMap, st).value.1;
      forall p :: p in ps ==> p.src in keys && srcMap[p.src] == Single(p.dst) && p.dst in dstMap && dstMap[p.dst] == Single(p.src)
    decreases |keys|
  {
    if |keys| > 0 {
      var k := keys[0];
      assert forall x :: x in keys[1..] ==> x in keys;
      if Mutual(k, srcMap, dstMap) {
        CommitPairs(keys[1..], srcMap, dstMap, PairUp(k, srcMap[k].name, st).value);
      } else {
        CommitPairs(keys[1..], srcMap, dstMap, st);
      }
    }
  }

  /** A commit loop never adds to the classes not done, and removes at
      least one when it commits a pair of keys that were not done. */
  lemma {:induction false} CommitShrinks(keys: seq<string>, srcMap: map<string, Guess>, dstMap: map<string, Guess>, st: State)
    requires forall k :: k in keys ==> k in srcMap
    requires Commit(keys, srcMap, dstMap, st).Ok?
    ensures var (st', ps) := Commit(keys, srcMap, dstMap, st).value;
      && NotDone(st'.src, st'.done) <= NotDone(st.src, st.done)
      && ((forall k :: k in keys ==> k !in st.done) && |ps| > 0 ==> NotDone(st'.src, st'.done) < NotDone(st.src, st.done))
    decreases |keys|
  {
    if |keys| > 0 {
      var k := keys[0];
      assert forall x :: x in keys[1..] ==> x in keys;
      if Mutual(k, srcMap, dstMap) {
        var d := srcMap[k].name;
        var st1 := PairUp(k, d, st).value;
        PairUpShrinks(k, d, st);
        CommitShrinks(keys[1..], srcMap, dstMap, st1);
      } else {
        CommitShrinks(keys[1..], srcMap, dstMap, st);
      }
    }
  }

  // ---------------------------------------------------------------------
  // Rounds

  /** One round: index both trees, guess both ways, commit the mutual
      single guesses. */
  function Round(st: State): Result<(State, seq<Pair>), InferError> {
    Commit(Keys(st.src, st.done), SrcGuesses(st), DstGuesses(st), st)
  }

  function SrcGuesses(st: State): map<string, Guess> {
    Infer(st.src, BuildIndex(st.dst, st.done), st.done)
  }

  function DstGuesses(st: State): map<string, Guess> {
    Infer(st.dst, BuildIndex(st.src, st.done), st.done)
  }

  /** A round only adds the shared names of its pairs to `done`, and
      every pair it commits leaves fewer classes not done. */
  lemma RoundMeaning(st: State)
    requires Round(st).Ok?
    ensures var (st', ps) := Round(st).value;
      && (|ps| == 0 ==> st' == st)
      && st'.next == st.next + |ps|
      && st'.done == st.done + SharedNames(ps)
      && (forall i :: 0 <= i < |ps| ==> ps[i].shared == SharedName(st.next + i))
      && (forall p :: p in ps ==>
            p.src in SrcGuesses(st) && SrcGuesses(st)[p.src] == Single(p.dst) && p.dst in DstGuesses(st) && DstGuesses(st)[p.dst] == Single(p.src))
      && NotDone(st'.src, st'.done) <= NotDone(st.src, st.done)
      && (|ps| > 0 ==> NotDone(st'.src, st'.done) < NotDone(st.src, st.done))
  {
    var keys := Keys(st.src, st.done);
    CommitNames(keys, SrcGuesses(st), DstGuesses(st), st);
    CommitNumbers(keys, SrcGuesses(st), DstGuesses(st), st);
    if |Round(st).value.1| == 0 {
      CommitIdle(keys, SrcGuesses(st), DstGuesses(st), st);
    }
    CommitPairs(keys, SrcGuesses(st), DstGuesses(st), st);
    CommitShrinks(keys, SrcGuesses(st), DstGuesses(st), st);
  }

  /** The do-while loop: rounds until one leaves `done` as large as it was. */
  function Rounds(st: State): (r: Result<State, InferError>)
    decreases NotDone(st.src, st.done)
  {
    match Round(st)
    case Err(e) => Err(e)
    case Ok((st', ps)) =>
      if |st'.done| > |st.done| then
        RoundMeaning(st);
        SharedNamesOfNone(ps);
        Rounds(st')
      else Ok(st')
  }

  /** The names of the classes of the source tree that name a destination
      class too: presumed unchanged, so done from the start. */
  function Unchanged(src: seq<Shape>, dst: seq<Shape>): (r: set<string>)
    ensures forall x :: x in r <==> Names(src, x) && Names(dst, x)
  {
    set i, j | 0 <= i < |src| && 0 <= j < |dst| && src[i].name == dst[j].name :: src[i].name
  }

  /** `inferSharedClassMappings`: the trees with the paired classes renamed. */
  function InferShared(src: seq<Shape>, dst: seq<Shape>): Result<State, InferError> {
    Rounds(State(src, dst, Unchanged(src, dst), 0))
  }

  // ---------------------------------------------------------------------
  // The lookups of a round cannot fail

  /** Renaming the first class named `from` leaves every other name present. */
  lemma RenameKeeps(shapes: seq<Shape>, from: string, to: string, other: string)
    requires other != from && Names(shapes, other) && Names(shapes, from)
    ensures RenameFirst(shapes, from, to).Some? && Names(RenameFirst(shapes, from, to).value, other)
  {
    var i := FirstNamed(shapes, from).value;
    var j :| 0 <= j < |shapes| && shapes[j].name == other;
    assert RenameFirst(shapes, from, to).value[j] == shapes[j];
  }

  /** A commit loop succeeds when its keys are distinct names of source
      classes, every single guess leads to a destination class with some
      guess, and the destination classes of mutual guesses exist. */
  lemma {:induction false} CommitOk(keys: seq<string>, srcMap: map<string, Guess>, dstMap: map<string, Guess>, st: State)
    requires forall k :: k in keys ==> k in srcMap && Names(st.src, k)
    requires forall i, j :: 0 <= i < j < |keys| ==> keys[i] != keys[j]
    requires forall k :: k in keys && srcMap[k].Single? ==> srcMap[k].name in dstMap && !dstMap[srcMap[k].name].NoCandidate?
    requires forall k :: k in keys && Mutual(k, srcMap, dstMap) ==> Names(st.dst, srcMap[k].name)
    ensures Commit(keys, srcMap, dstMap, st).Ok?
    decreases |keys|
  {
    if |keys| > 0 {
      var k := keys[0];
      var rest := keys[1..];
      assert forall x :: x in rest ==> x in keys && x != k by {
        forall x | x in rest ensures x in keys && x != k {
          var j :| 0 <= j < |rest| && rest[j] == x;
          assert keys[j + 1] == x;
        }
      }
      assert forall i, j :: 0 <= i < j < |rest| ==> rest[i] != rest[j] by {
        forall i, j | 0 <= i < j < |rest| ensures rest[i] != rest[j] {
          assert rest[i] == keys[i + 1] && rest[j] == keys[j + 1];
        }
      }
      if Mutual(k, srcMap, dstMap) {
        var d := srcMap[k].name;
        var name := SharedName(st.next);
        var st1 := PairUp(k, d, st).value;
        forall x | x in rest ensures Names(st1.src, x) {
          RenameKeeps(st.src, k, name, x);
        }
        forall x | x in rest && Mutual(x, srcMap, dstMap) ensures Names(st1.dst, srcMap[x].name) {
          RenameKeeps(st.dst, d, name, srcMap[x].name);
        }
        CommitOk(rest, srcMap, dstMap, st1);
      } else {
        CommitOk(rest, srcMap, dstMap, st);
      }
    }
  }

  /** A member name one tree indexes is indexed for any class of a tree
      that keeps fields and methods apart by name. */
  lemma SharedMember(shapes: seq<Shape>, i: int, other: Shape, m: string)
    requires KindsApart(shapes) && 0 <= i < |shapes|
    requires m in shapes[i].fields || m in shapes[i].methods
    requires Indexed(other, m)
    ensures Indexed(shapes[i], m)
  {
    assert StartsWith(m, FieldPrefix) || StartsWith(m, MethodPrefix);
  }

  /** A single guess comes from a member the guessed destination class
      shares with the guessing source class. */
  lemma GuessSource(st: State, k: string) returns (i: int, m: string, j: int)
    requires k in SrcGuesses(st) && SrcGuesses(st)[k].Single?
    ensures 0 <= i < |st.src| && st.src[i].name == k
    ensures m in st.src[i].fields || m in st.src[i].methods
    ensures 0 <= j < |st.dst| && st.dst[j].name == SrcGuesses(st)[k].name && st.dst[j].name !in st.done
    ensures Indexed(st.dst[j], m)
  {
    var dstIdx := BuildIndex(st.dst, st.done);
    var d := SrcGuesses(st)[k].name;
    InferValue(st.src, dstIdx, st.done, k);
    i :| 0 <= i < |st.src| && st.src[i].name == k && SrcGuesses(st)[k] == Best(Candidates(st.src[i], dstIdx));
    assert d in Candidates(st.src[i], dstIdx);
    m :| (m in st.src[i].fields || m in st.src[i].methods) && Lists(dstIdx, m, d);
    j :| 0 <= j < |st.dst| && st.dst[j].name == d && d !in st.done && Indexed(st.dst[j], m);
  }

  /** A single guess of a source class names a destination class that
      has a guess of its own, provided destination names are unique and
      the source keeps fields and methods apart by name. */
  lemma GuessHasReverse(st: State, k: string)
    requires DistinctNames(st.dst) && KindsApart(st.src)
    requires k in SrcGuesses(st) && SrcGuesses(st)[k].Single?
    ensures SrcGuesses(st)[k].name in DstGuesses(st) && !DstGuesses(st)[SrcGuesses(st)[k].name].NoCandidate?
  {
    var srcIdx := BuildIndex(st.src, st.done);
    var i, m, j := GuessSource(st, k);
    var d := st.dst[j].name;
    SharedMember(st.src, i, st.dst[j], m);
    assert Lists(srcIdx, m, k);
    assert Names(st.dst, d);
    InferValue(st.dst, srcIdx, st.done, d);
    var j' :| 0 <= j' < |st.dst| && st.dst[j'].name == d && DstGuesses(st)[d] == Best(Candidates(st.dst[j'], srcIdx));
    assert j' == j;
    assert k in Candidates(st.dst[j], srcIdx);
  }

  /** A round never raises: every `getValue`, `single()` and `getClass(…)!!`
      finds what it looks for, given unique destination class names and
      the field/method naming discipline of the source tree. */
  lemma RoundOk(st: State)
    requires DistinctNames(st.dst) && KindsApart(st.src)
    ensures Round(st).Ok?
  {
    var keys := Keys(st.src, st.done);
    forall k | k in keys && SrcGuesses(st)[k].Single?
      ensures SrcGuesses(st)[k].name in DstGuesses(st) && !DstGuesses(st)[SrcGuesses(st)[k].name].NoCandidate?
    {
      GuessHasReverse(st, k);
    }
    CommitOk(keys, SrcGuesses(st), DstGuesses(st), st);
  }

  // ---------------------------------------------------------------------
  // The rounds stop at a fixpoint

  /** No shared name still to be handed out is done already. */
  ghost predicate Fresh(st: State) {
    forall n: nat :: n >= st.next ==> SharedName(n) !in st.done
  }

  lemma SharedNameInjective(m: nat, n: nat)
    requires SharedName(m) == SharedName(n)
    ensures m == n
  {
    var p := "class_";
    assert SharedName(m)[|p|..] == NatToString(m);
    assert SharedName(n)[|p|..] == NatToString(n);
    NatToStringInjective(m, n);
  }

  /** A shared name beyond those handed out is not among them. */
  lemma NotHandedOut(ps: seq<Pair>, next: nat, n: nat)
    requires n >= next + |ps|
    requires forall i :: 0 <= i < |ps| ==> ps[i].shared == SharedName(next + i)
    ensures SharedName(n) !in SharedNames(ps)
  {
    if SharedName(n) in SharedNames(ps) {
      var p :| p in ps && p.shared == SharedName(n);
      var i :| 0 <= i < |ps| && ps[i] == p;
      SharedNameInjective(n, next + i);
    }
  }

  /** Handing out consecutive shared names keeps the later ones fresh,
      and grows `done` exactly when some name was handed out. */
  lemma HandOut(st: State, st': State, ps: seq<Pair>)
    requires Fresh(st)
    requires st'.next == st.next + |ps| && st'.done == st.done + SharedNames(ps)
    requires forall i :: 0 <= i < |ps| ==> ps[i].shared == SharedName(st.next + i)
    ensures Fresh(st')
    ensures |st'.done| > |st.done| <==> |ps| > 0
  {
    forall n: nat | n >= st'.next ensures SharedName(n) !in st'.done {
      NotHandedOut(ps, st.next, n);
    }
    if |ps| > 0 {
      assert ps[0] in ps && ps[0].shared == SharedName(st.next);
      Grows(st.done, st'.done, SharedName(st.next));
    } else {
      SharedNamesOfNone(ps);
    }
  }

  lemma Grows(a: set<string>, b: set<string>, x: string)
    requires a <= b && x in b && x !in a
    ensures |b| > |a|
  {
    var c := a + {x};
    assert |c| == |a| + 1;
    assert b == c + (b - c);
    assert c * (b - c) == {};
  }

  /** Once the rounds stop, a further round commits nothing and changes
      nothing: the result is a fixpoint of a round. */
  lemma {:induction false} RoundsStable(st: State)
    requires Fresh(st) && Rounds(st).Ok?
    ensures Round(Rounds(st).value) == Ok((Rounds(st).value, []))
    decreases NotDone(st.src, st.done)
  {
    RoundMeaning(st);
    var (st', ps) := Round(st).value;
    HandOut(st, st', ps);
    if |st'.done| > |st.done| {
      RoundsStable(st');
    } else {
      assert st' == st;
    }
  }

  // ---------------------------------------------------------------------
  // The whole inference cannot fail on well-formed trees

  /** Well-formed inference state: destination names unique and not of
      the form of a shared name still to come, source fields and methods
      apart by name. */
  ghost predicate Clean(st: State) {
    && DistinctNames(st.dst) && KindsApart(st.src)
    && forall n: nat :: n >= st.next ==> !Names(st.dst, SharedName(n))
  }

  lemma PairUpClean(k: string, d: string, st: State)
    requires Clean(st) && PairUp(k, d, st).Ok?
    ensures Clean(PairUp(k, d, st).value)
  {
    var name := SharedName(st.next);
    var st' := PairUp(k, d, st).value;
    var i := FirstNamed(st.src, k).value;
    var j := FirstNamed(st.dst, d).value;
    assert st'.src == st.src[i := st.src[i].(name := name)];
    assert st'.dst == st.dst[j := st.dst[j].(name := name)];
    assert !Names(st.dst, name);
    forall n: nat | n >= st'.next ensures !Names(st'.dst, SharedName(n)) {
      if SharedName(n) == name { SharedNameInjective(n, st.next); }
      assert !Names(st.dst, SharedName(n));
    }
  }

  lemma {:induction false} CommitClean(keys: seq<string>, srcMap: map<string, Guess>, dstMap: map<string, Guess>, st: State)
    requires forall k :: k in keys ==> k in srcMap
    requires Clean(st) && Commit(keys, srcMap, dstMap, st).Ok?
    ensures Clean(Commit(keys, srcMap, dstMap, st).value.0)
    decreases |keys|
  {
    if |keys| > 0 {
      var k := keys[0];
      assert forall x :: x in keys[1..] ==> x in keys;
      if Mutual(k, srcMap, dstMap) {
        PairUpClean(k, srcMap[k].name, st);
        CommitClean(keys[1..], srcMap, dstMap, PairUp(k, srcMap[k].name, st).value);
      } else {
        CommitClean(keys[1..], srcMap, dstMap, st);
      }
    }
  }

  lemma {:induction false} RoundsOk(st: State)
    requires Clean(st)
    ensures Rounds(st).Ok?
    decreases NotDone(st.src, st.done)
  {
    RoundOk(st);
    RoundMeaning(st);
    CommitClean(Keys(st.src, st.done), SrcGuesses(st), DstGuesses(st), st);
    var (st', ps) := Round(st).value;
    if |st'.done| > |st.done| {
      SharedNamesOfNone(ps);
      RoundsOk(st');
    }
  }

  /** `inferSharedClassMappings` raises nothing when the destination
      tree's class names are unique and none has the form `class_N`, and
      the source tree keeps fields and methods apart by name. */
  lemma InferSharedOk(src: seq<Shape>, dst: seq<Shape>)
    requires DistinctNames(dst) && KindsApart(src)
    requires forall n: nat :: !Names(dst, SharedName(n))
    ensures InferShared(src, dst).Ok?
  {
    RoundsOk(State(src, dst, Unchanged(src, dst), 0));
  }

  /** Every pair a round commits joins two classes each of which counts
      the other strictly more often than any other candidate. */
  lemma RoundPairsBeat(st: State, p: Pair)
    requires Round(st).Ok? && p in Round(st).value.1
    ensures exists i :: 0 <= i < |st.src| && st.src[i].name == p.src && Beats(Candidates(st.src[i], BuildIndex(st.dst, st.done)), p.dst)
    ensures exists j :: 0 <= j < |st.dst| && st.dst[j].name == p.dst && Beats(Candidates(st.dst[j], BuildIndex(st.src, st.done)), p.src)
  {
    RoundMeaning(st);
    InferValue(st.src, BuildIndex(st.dst, st.done), st.done, p.src);
    InferValue(st.dst, BuildIndex(st.src, st.done), st.done, p.dst);
  }
}
