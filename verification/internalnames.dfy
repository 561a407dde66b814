/** `toInternal`: a dotted class name as written in the manual mapping
    file turned into the JVM's internal form (section 4.2.1 of the Java
    Virtual Machine Specification), where packages are separated by `/`
    and inner classes by `$`. `a.b.C.D` becomes `a/b/C$D`. */
module InternalNames {
  import opened Wrappers
  import opened Text

  /** Whether a segment starts the class part of a name: it is
      upper-case initial or a synthetic `class_` name. */
  predicate StartsClass(part: string)
    requires |part| > 0
  {
    ('A' <= part[0] <= 'Z') || StartsWith(part, "class_")
  }

  /** A segment still in the package part of a name. */
  predicate PackagePart(part: string) {
    |part| > 0 && !StartsClass(part)
  }

  /** The rest of the conversion, `acc` holding what is built so far and
      `inner` telling whether the class part has begun. An empty segment
      in the package part fails, as `part[0]` throws there. */
  function Internal(acc: string, parts: seq<string>, inner: bool): Option<string>
    decreases |parts|
  {
    if |parts| == 0 then Some(acc)
    else if inner then Internal(acc + "$" + parts[0], parts[1..], true)
    else if |parts[0]| == 0 then None
    else Internal(acc + "/" + parts[0], parts[1..], StartsClass(parts[0]))
  }

  /** `toInternal`: the first segment as it stands, then `/` before each
      package segment and the first class segment, `$` before the rest. */
  function ToInternal(name: string): Option<string> {
    var parts := SplitOn(name, ".");
    Internal(parts[0], parts[1..], false)
  }

  /** Separators read back as dots. */
  function Dotted(s: string): (r: string)
    ensures |r| == |s|
    ensures forall i :: 0 <= i < |s| ==> r[i] == if s[i] == '/' || s[i] == '$' then '.' else s[i]
  {
    if |s| == 0 then "" else [if s[0] == '/' || s[0] == '$' then '.' else s[0]] + Dotted(s[1..])
  }

  /** A segment without separators. */
  predicate Plain(s: string) {
    forall i :: 0 <= i < |s| ==> s[i] != '/' && s[i] != '$'
  }

  lemma DottedPlain(s: string)
    requires Plain(s)
    ensures Dotted(s) == s
  {
  }

  /** Reading a separator back as a dot joins the two sides. */
  lemma DottedJoin(a: string, sep: string, p: string)
    requires sep == "/" || sep == "$"
    requires Plain(p)
    ensures Dotted(a + sep + p) == Dotted(a) + "." + p
  {
    var x := a + sep + p;
    var d, e := Dotted(x), Dotted(a);
    var y := e + "." + p;
    assert |d| == |y|;
    forall i | 0 <= i < |x| ensures d[i] == y[i] {
      if i < |a| {
        assert x[i] == a[i] && y[i] == e[i];
      } else if i == |a| {
        assert x[i] == sep[0] && y[i] == '.';
      } else {
        assert x[i] == p[i - |a| - 1] && y[i] == p[i - |a| - 1];
      }
    }
  }

  lemma JoinOnHead(a: string, p: string, rest: seq<string>)
    ensures JoinOn([a + "." + p] + rest, ".") == a + "." + JoinOn([p] + rest, ".")
  {
    if |rest| > 0 {
      assert ([a + "." + p] + rest)[1..] == rest;
      assert ([p] + rest)[1..] == rest;
    }
  }

  /** The converted rest reads back as the dotted name it came from. */
  lemma {:induction false} InternalDotted(acc: string, parts: seq<string>, inner: bool)
    requires forall k :: 0 <= k < |parts| ==> Plain(parts[k])
    requires Internal(acc, parts, inner).Some?
    ensures Dotted(Internal(acc, parts, inner).value) == JoinOn([Dotted(acc)] + parts, ".")
    decreases |parts|
  {
    if |parts| > 0 {
      var sep := if inner then "$" else "/";
      var acc' := acc + sep + parts[0];
      InternalDotted(acc', parts[1..], if inner then true else StartsClass(parts[0]));
      DottedJoin(acc, sep, parts[0]);
      JoinOnHead(Dotted(acc), parts[0], parts[1..]);
      assert [parts[0]] + parts[1..] == parts;
      assert ([Dotted(acc)] + parts)[1..] == parts;
    }
  }

  /** The conversion only replaces dots: a name without `/` or `$` is
      recovered from its internal form. */
  lemma ToInternalDotted(name: string)
    requires Plain(name)
    requires ToInternal(name).Some?
    ensures Dotted(ToInternal(name).value) == name
  {
    var parts := SplitOn(name, ".");
    SplitOnJoin(name, ".");
    SplitOnPlain(name, ".");
    InternalDotted(parts[0], parts[1..], false);
    DottedPlain(parts[0]);
    assert [parts[0]] + parts[1..] == parts;
  }

  /** Pieces of a split are pieces of the string. */
  lemma {:induction false} SplitOnPlain(s: string, delim: string)
    requires |delim| > 0
    requires Plain(s)
    ensures forall k :: 0 <= k < |SplitOn(s, delim)| ==> Plain(SplitOn(s, delim)[k])
    decreases |s|, 1
  {
    SplitAtPlain(s, delim, IndexOf(s, delim));
  }

  /** `SplitOnPlain` once the first occurrence of the delimiter is known. */
  lemma {:induction false} SplitAtPlain(s: string, delim: string, found: Option<nat>)
    requires |delim| > 0 && (found.Some? ==> found.value + |delim| <= |s|)
    requires Plain(s)
    ensures forall k :: 0 <= k < |SplitAt(s, delim, found)| ==> Plain(SplitAt(s, delim, found)[k])
    decreases |s|, 0
  {
    match found
    case None =>
    case Some(i) =>
      var rest := s[i + |delim|..];
      PlainSlice(s, i + |delim|, |s|);
      SplitOnPlain(rest, delim);
      PlainSlice(s, 0, i);
      assert s[..i] == s[0..i];
      assert SplitAt(s, delim, found) == [s[..i]] + SplitOn(rest, delim);
  }

  lemma PlainSlice(s: string, i: nat, j: nat)
    requires Plain(s) && i <= j <= |s|
    ensures Plain(s[i..j])
  {
    assert forall k :: 0 <= k < j - i ==> s[i..j][k] == s[i + k];
  }

  /** An empty segment before any class segment. */
  predicate FailsAt(parts: seq<string>) {
    exists i :: 0 <= i < |parts| && parts[i] == "" && forall j :: 0 <= j < i ==> PackagePart(parts[j])
  }

  /** The conversion fails exactly when an empty segment comes before the
      class part begins. */
  lemma {:induction false} InternalFails(acc: string, parts: seq<string>, inner: bool)
    ensures Internal(acc, parts, inner).None? <==> !inner && FailsAt(parts)
    decreases |parts|
  {
    if |parts| > 0 {
      if inner {
        InternalFails(acc + "$" + parts[0], parts[1..], true);
      } else if |parts[0]| > 0 {
        var next := StartsClass(parts[0]);
        InternalFails(acc + "/" + parts[0], parts[1..], next);
        if FailsAt(parts) {
          var i :| 0 <= i < |parts| && parts[i] == "" && forall j :: 0 <= j < i ==> PackagePart(parts[j]);
          assert i > 0;
          assert PackagePart(parts[0]);
          assert parts[1..][i - 1] == "";
          assert forall j :: 0 <= j < i - 1 ==> PackagePart(parts[1..][j]) by {
            assert forall j :: 0 <= j < i - 1 ==> parts[1..][j] == parts[j + 1];
          }
        }
        if !next && FailsAt(parts[1..]) {
          var i :| 0 <= i < |parts[1..]| && parts[1..][i] == "" && forall j :: 0 <= j < i ==> PackagePart(parts[1..][j]);
          assert parts[i + 1] == "";
          assert forall j :: 0 <= j < i + 1 ==> PackagePart(parts[j]) by {
            assert forall j :: 1 <= j < i + 1 ==> parts[j] == parts[1..][j - 1];
          }
        }
      } else {
        assert parts[0] == "";
      }
    }
  }

  /** `toInternal` fails exactly on a name with an empty segment after
      the first one and before any class segment, such as `a..B`. */
  lemma ToInternalFails(name: string)
    ensures ToInternal(name).None? <==> FailsAt(SplitOn(name, ".")[1..])
  {
    var parts := SplitOn(name, ".");
    InternalFails(parts[0], parts[1..], false);
  }

  /** Once in the class part, every further segment follows a `$`. */
  lemma {:induction false} InnerTail(acc: string, inners: seq<string>)
    ensures Internal(acc, inners, true) == Some(acc + JoinOn([""] + inners, "$"))
    decreases |inners|
  {
    if |inners| > 0 {
      InnerTail(acc + "$" + inners[0], inners[1..]);
      assert ([""] + inners)[1..] == inners;
      assert ([""] + inners[1..])[1..] == inners[1..];
      var tail := JoinOn([""] + inners[1..], "$");
      assert tail == if |inners| > 1 then "$" + JoinOn(inners[1..], "$") else "";
      assert JoinOn(inners, "$") == inners[0] + tail;
      assert JoinOn([""] + inners, "$") == "" + "$" + JoinOn(inners, "$");
      assert acc + "$" + inners[0] + tail == acc + ("" + "$" + (inners[0] + tail));
    } else {
      assert [""] + inners == [""];
      assert acc + "" == acc;
    }
  }

  /** Package segments are joined by `/` up to and including the first
      class segment. */
  lemma {:induction false} PackageTail(acc: string, qs: seq<string>, cls: string, inners: seq<string>)
    requires forall k :: 0 <= k < |qs| ==> PackagePart(qs[k])
    requires |cls| > 0 && StartsClass(cls)
    ensures Internal(acc, qs + [cls] + inners, false) == Some(acc + "/" + JoinOn(qs + [cls], "/") + JoinOn([""] + inners, "$"))
    decreases |qs|
  {
    if |qs| == 0 {
      assert qs + [cls] + inners == [cls] + inners;
      assert ([cls] + inners)[1..] == inners;
      InnerTail(acc + "/" + cls, inners);
    } else {
      PackageTail(acc + "/" + qs[0], qs[1..], cls, inners);
      var parts := qs + [cls] + inners;
      assert parts[0] == qs[0] && PackagePart(qs[0]);
      assert parts[1..] == qs[1..] + [cls] + inners;
      assert Internal(acc, parts, false) == Internal(acc + "/" + qs[0], parts[1..], false);
      assert (qs + [cls])[1..] == qs[1..] + [cls];
      var j := JoinOn(qs[1..] + [cls], "/");
      var t := JoinOn([""] + inners, "$");
      assert JoinOn(qs + [cls], "/") == qs[0] + "/" + j;
      assert acc + "/" + qs[0] + "/" + j + t == acc + "/" + (qs[0] + "/" + j) + t;
    }
  }

  /** The shape of the conversion: for a name made of a first segment,
      package segments, a class segment and inner-class segments, the
      package part is joined by `/` and the inner classes by `$`. For
      instance `a.b.C.D` becomes `a/b/C$D`. */
  lemma ToInternalShape(first: string, qs: seq<string>, cls: string, inners: seq<string>)
    requires forall k :: 0 <= k < |qs| ==> PackagePart(qs[k])
    requires |cls| > 0 && StartsClass(cls)
    requires forall k, i :: 0 <= k < |[first] + qs + [cls] + inners| && 0 <= i < |([first] + qs + [cls] + inners)[k]| ==> ([first] + qs + [cls] + inners)[k][i] != '.'
    ensures ToInternal(JoinOn([first] + qs + [cls] + inners, ".")) == Some(JoinOn([first] + qs + [cls], "/") + JoinOn([""] + inners, "$"))
  {
    var ps := [first] + qs + [cls] + inners;
    ToInternalOfJoin(ps);
    assert ps[0] == first && ps[1..] == qs + [cls] + inners;
    PackageTail(first, qs, cls, inners);
    JoinOnCons(first, qs + [cls], "/");
    assert [first] + qs + [cls] == [first] + (qs + [cls]);
  }

  /** Converting dotted segments starts from their split. */
  lemma ToInternalOfJoin(ps: seq<string>)
    requires |ps| > 0
    requires forall k, i :: 0 <= k < |ps| && 0 <= i < |ps[k]| ==> ps[k][i] != '.'
    ensures ToInternal(JoinOn(ps, ".")) == Internal(ps[0], ps[1..], false)
  {
    JoinOnSplit(ps, ".");
  }
}
