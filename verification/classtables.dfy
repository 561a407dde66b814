/** The class-only table `resolve` builds before completing member
    entries: a two-namespace tree ("source", "destination") holding class
    names only. Visiting a class already present overwrites its
    destination name in place; otherwise the class is appended. The same
    structure serves for `associate`, where a later pair for a key
    replaces the value but keeps the key's first position. */
module ClassTables {
  import opened Wrappers

  datatype ClassPair = ClassPair(src: string, dst: string)
  type ClassTable = seq<ClassPair>

  /** No source name is listed twice. */
  predicate UniqueSrc(t: ClassTable) {
    forall i, j :: 0 <= i < j < |t| ==> t[i].src != t[j].src
  }

  function IndexOfSrc(t: ClassTable, n: string): (r: Option<nat>)
    ensures r.Some? ==> r.value < |t| && t[r.value].src == n
    ensures r.Some? ==> forall j :: 0 <= j < r.value ==> t[j].src != n
    ensures r.None? ==> forall j :: 0 <= j < |t| ==> t[j].src != n
  {
    if |t| == 0 then None
    else if t[0].src == n then Some(0)
    else match IndexOfSrc(t[1..], n)
      case None => None
      case Some(i) => Some(i + 1)
  }

  /** The destination name of a class. */
  function Lookup(t: ClassTable, n: string): (r: Option<string>)
    ensures r.None? <==> forall j :: 0 <= j < |t| ==> t[j].src != n
    ensures r.Some? ==> exists j :: 0 <= j < |t| && t[j] == ClassPair(n, r.value)
  {
    match IndexOfSrc(t, n)
    case None => None
    case Some(i) => Some(t[i].dst)
  }

  /** `visitClass(src)` followed by `visitDstName(dst)`. */
  function Visit(t: ClassTable, src: string, dst: string): ClassTable {
    match IndexOfSrc(t, src)
    case None => t + [ClassPair(src, dst)]
    case Some(i) => t[i := ClassPair(src, dst)]
  }

  /** A visit sets one class's name, keeps every other class's name and
      never lists a class twice. */
  lemma VisitMeaning(t: ClassTable, src: string, dst: string)
    requires UniqueSrc(t)
    ensures UniqueSrc(Visit(t, src, dst))
    ensures Lookup(Visit(t, src, dst), src) == Some(dst)
    ensures forall n :: n != src ==> Lookup(Visit(t, src, dst), n) == Lookup(t, n)
  {
    VisitUnique(t, src, dst);
    VisitSets(t, src, dst);
    VisitKeeps(t, src, dst);
  }

  /** No class is listed twice after a visit. */
  lemma VisitUnique(t: ClassTable, src: string, dst: string)
    requires UniqueSrc(t)
    ensures UniqueSrc(Visit(t, src, dst))
  {
    var r := Visit(t, src, dst);
    match IndexOfSrc(t, src)
    case None =>
      forall i, j | 0 <= i < j < |r| ensures r[i].src != r[j].src {
        assert r[i] == t[i];
        if j < |t| { assert r[j] == t[j]; }
      }
    case Some(k) =>
      forall i, j | 0 <= i < j < |r| ensures r[i].src != r[j].src {
        if i != k { assert r[i] == t[i]; }
        if j != k { assert r[j] == t[j]; }
      }
  }

  /** The visited class gets the new name. */
  lemma VisitSets(t: ClassTable, src: string, dst: string)
    requires UniqueSrc(t)
    ensures Lookup(Visit(t, src, dst), src) == Some(dst)
  {
    var r := Visit(t, src, dst);
    VisitUnique(t, src, dst);
    match IndexOfSrc(t, src)
    case None =>
      assert r[|t|] == ClassPair(src, dst);
      LookupAt(r, |t|);
    case Some(i) =>
      assert r[i] == ClassPair(src, dst);
      LookupAt(r, i);
  }

  /** In a table without repeated names, each pair is what its name looks up. */
  lemma LookupAt(t: ClassTable, i: nat)
    requires UniqueSrc(t) && i < |t|
    ensures Lookup(t, t[i].src) == Some(t[i].dst)
  {
    var k := IndexOfSrc(t, t[i].src);
    assert k.Some? && k.value == i;
  }

  /** Every other class keeps its name. */
  lemma VisitKeeps(t: ClassTable, src: string, dst: string)
    ensures forall n :: n != src ==> Lookup(Visit(t, src, dst), n) == Lookup(t, n)
  {
    var r := Visit(t, src, dst);
    forall n | n != src ensures Lookup(r, n) == Lookup(t, n) {
      VisitKeepsOne(t, src, dst, n);
    }
  }

  /** One other class keeps its name. */
  lemma VisitKeepsOne(t: ClassTable, src: string, dst: string, n: string)
    requires n != src
    ensures Lookup(Visit(t, src, dst), n) == Lookup(t, n)
  {
    var r := Visit(t, src, dst);
    assert forall j :: 0 <= j < |t| ==> (r[j].src == n <==> t[j].src == n) && (t[j].src == n ==> r[j] == t[j]);
    assert IndexOfSrc(r, n) == IndexOfSrc(t, n) by {
      IndexOfSrcAgree(t, r, n);
    }
  }

  /** Two tables that list `n` at the same places, and nothing past the
      shorter one's end, find it at the same place. */
  lemma IndexOfSrcAgree(t: ClassTable, r: ClassTable, n: string)
    requires |t| <= |r|
    requires forall j :: 0 <= j < |t| ==> (r[j].src == n <==> t[j].src == n)
    requires forall j :: |t| <= j < |r| ==> r[j].src != n
    ensures IndexOfSrc(r, n) == IndexOfSrc(t, n)
  {
  }

  /** Pairs visited in order. */
  function VisitAll(t: ClassTable, ps: seq<ClassPair>): ClassTable
    decreases |ps|
  {
    if |ps| == 0 then t else VisitAll(Visit(t, ps[0].src, ps[0].dst), ps[1..])
  }

  /** The destination of the last pair for a source name. */
  function LastDst(ps: seq<ClassPair>, n: string): (r: Option<string>)
    ensures r.Some? ==> ClassPair(n, r.value) in ps
    ensures r.None? ==> forall j :: 0 <= j < |ps| ==> ps[j].src != n
  {
    if |ps| == 0 then None
    else if ps[|ps| - 1].src == n then Some(ps[|ps| - 1].dst)
    else LastDst(ps[..|ps| - 1], n)
  }

  /** Visiting pairs in order: the last pair for a class wins, classes
      without a pair keep their name, and no class is listed twice. */
  lemma {:induction false} VisitAllMeaning(t: ClassTable, ps: seq<ClassPair>)
    requires UniqueSrc(t)
    ensures UniqueSrc(VisitAll(t, ps))
    ensures forall n :: Lookup(VisitAll(t, ps), n) == LastDst(ps, n).OrElse(Lookup(t, n))
    decreases |ps|
  {
    if |ps| > 0 {
      var t' := Visit(t, ps[0].src, ps[0].dst);
      VisitMeaning(t, ps[0].src, ps[0].dst);
      VisitAllMeaning(t', ps[1..]);
      forall n ensures LastDst(ps[1..], n).OrElse(Lookup(t', n)) == LastDst(ps, n).OrElse(Lookup(t, n)) {
        LastDstCons(ps, n);
      }
    }
  }

  /** The last pair of a list is its first pair when no later pair has
      that source name. */
  lemma {:induction false} LastDstCons(ps: seq<ClassPair>, n: string)
    requires |ps| > 0
    ensures LastDst(ps, n) == LastDst(ps[1..], n).OrElse(if ps[0].src == n then Some(ps[0].dst) else None)
    decreases |ps|
  {
    if |ps| > 1 && ps[|ps| - 1].src != n {
      LastDstCons(ps[..|ps| - 1], n);
      assert ps[..|ps| - 1][1..] == ps[1..][..|ps[1..]| - 1];
    }
  }

  /** `mapClassName` from source to destination: unknown classes keep
      their name. */
  function Forward(t: ClassTable, n: string): string {
    Lookup(t, n).GetOr(n)
  }

  /** The source name of the last class with destination name `n`. */
  function LastWithDst(t: ClassTable, n: string): (r: Option<string>)
    ensures r.Some? ==> ClassPair(r.value, n) in t
    ensures r.None? ==> forall j :: 0 <= j < |t| ==> t[j].dst != n
  {
    if |t| == 0 then None
    else if t[|t| - 1].dst == n then Some(t[|t| - 1].src)
    else LastWithDst(t[..|t| - 1], n)
  }

  /** `mapClassName` from destination to source, through the table's
      index by destination names: unknown names are kept. */
  function Backward(t: ClassTable, n: string): string {
    LastWithDst(t, n).GetOr(n)
  }

  /** No destination name is listed twice. */
  predicate UniqueDst(t: ClassTable) {
    forall i, j :: 0 <= i < j < |t| ==> t[i].dst != t[j].dst
  }

  /** On a table that renames one-to-one, mapping a listed class back
      undoes mapping it forward, and the other way round. */
  lemma BackwardForward(t: ClassTable, n: string)
    requires UniqueSrc(t) && UniqueDst(t)
    ensures Lookup(t, n).Some? ==> Backward(t, Forward(t, n)) == n
    ensures LastWithDst(t, n).Some? ==> Forward(t, Backward(t, n)) == n
  {
    if Lookup(t, n).Some? {
      var j :| 0 <= j < |t| && t[j] == ClassPair(n, Lookup(t, n).value);
      var m := LastWithDst(t, t[j].dst).value;
      var k :| 0 <= k < |t| && t[k] == ClassPair(m, t[j].dst);
      assert k == j;
    }
    if LastWithDst(t, n).Some? {
      var m := LastWithDst(t, n).value;
      var k :| 0 <= k < |t| && t[k] == ClassPair(m, n);
      var j :| 0 <= j < |t| && t[j] == ClassPair(m, Lookup(t, m).value);
      assert k == j;
    }
  }
}
