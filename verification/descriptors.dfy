/** JVM type descriptors (section 4.3 of the Java Virtual Machine
    Specification) as far as class renaming touches them: `mapDesc`
    rewrites every class reference `L<internal name>;` through a class
    table and copies every other character. */
module Descriptors {

  /** The position of the first `;` at or after `i`, or `|d|` when none. */
  function SemicolonFrom(d: string, i: nat): (r: nat)
    requires i <= |d|
    ensures i <= r <= |d|
    ensures forall j :: i <= j < r ==> d[j] != ';'
    ensures r < |d| ==> d[r] == ';'
    decreases |d| - i
  {
    if i == |d| || d[i] == ';' then i else SemicolonFrom(d, i + 1)
  }

  /** `mapDesc`: every class reference `L<name>;` becomes
      `L<rename(name)>;`; other characters are copied. The library
      rejects a reference without its closing `;`; the model copies such
      a tail as it stands. */
  function MapDesc(d: string, rename: string -> string): string
    decreases |d|
  {
    if |d| == 0 then ""
    else if d[0] != 'L' then [d[0]] + MapDesc(d[1..], rename)
    else
      var e := SemicolonFrom(d, 1);
      if e == |d| then d
      else "L" + rename(d[1..e]) + ";" + MapDesc(d[e + 1..], rename)
  }

  /** Whether a name can stand inside a class reference. */
  predicate ClassNameChars(n: string) {
    forall i :: 0 <= i < |n| ==> n[i] != ';'
  }

  /** A descriptor starting with a character other than `L` keeps it. */
  lemma MapDescOfChar(d: string, rename: string -> string)
    requires |d| > 0 && d[0] != 'L'
    ensures MapDesc(d, rename) == [d[0]] + MapDesc(d[1..], rename)
  {
  }

  /** A descriptor starting with a complete class reference has the
      reference renamed, then the rest mapped. */
  lemma MapDescOfRef(d: string, rename: string -> string)
    requires |d| > 0 && d[0] == 'L' && SemicolonFrom(d, 1) < |d|
    ensures var e := SemicolonFrom(d, 1);
      MapDesc(d, rename) == "L" + rename(d[1..e]) + ";" + MapDesc(d[e + 1..], rename)
  {
  }

  /** A class reference to a name without `;` followed by anything: the
      name is renamed and the rest is mapped. */
  lemma MapDescOfBuiltRef(x: string, rest: string, rename: string -> string)
    requires ClassNameChars(x)
    ensures MapDesc("L" + x + ";" + rest, rename) == "L" + rename(x) + ";" + MapDesc(rest, rename)
  {
    var m := "L" + x + ";" + rest;
    assert m[1 + |x|] == ';';
    assert forall j :: 1 <= j < 1 + |x| ==> m[j] == x[j - 1];
    assert SemicolonFrom(m, 1) == 1 + |x|;
    assert m[1..1 + |x|] == x;
    assert m[|x| + 2..] == rest;
    MapDescOfRef(m, rename);
  }

  /** A descriptor that starts with a complete class reference is cut
      around it. */
  lemma RefPieces(d: string)
    requires |d| > 0 && d[0] == 'L' && SemicolonFrom(d, 1) < |d|
    ensures var e := SemicolonFrom(d, 1);
      d == "L" + d[1..e] + ";" + d[e + 1..] && ClassNameChars(d[1..e])
  {
    var e := SemicolonFrom(d, 1);
    CutAt(d, e);
    forall k | 0 <= k < e - 1 ensures d[1..e][k] != ';' {
      assert d[1..e][k] == d[k + 1];
    }
  }

  /** Cutting a text around an `L` at its start and a `;` at `e`. */
  lemma CutAt(d: string, e: nat)
    requires 0 < e < |d| && d[0] == 'L' && d[e] == ';'
    ensures d == "L" + d[1..e] + ";" + d[e + 1..]
  {
    assert d == d[..1] + d[1..e] + d[e..e + 1] + d[e + 1..];
  }

  /** Renaming every class to itself changes nothing. */
  lemma {:induction false} MapDescIdentity(d: string, rename: string -> string)
    requires forall n :: rename(n) == n
    ensures MapDesc(d, rename) == d
    decreases |d|
  {
    if |d| > 0 {
      if d[0] != 'L' {
        MapDescIdentity(d[1..], rename);
        MapDescOfChar(d, rename);
        assert d == [d[0]] + d[1..];
      } else {
        var e := SemicolonFrom(d, 1);
        if e < |d| {
          MapDescIdentity(d[e + 1..], rename);
          MapDescOfRef(d, rename);
          RefPieces(d);
        }
      }
    }
  }

  /** Mapping twice is mapping through the composed renaming, provided the
      first renaming produces names a class reference can hold. */
  lemma {:induction false} MapDescCompose(d: string, f: string -> string, g: string -> string)
    requires forall n :: ClassNameChars(f(n))
    ensures MapDesc(MapDesc(d, f), g) == MapDesc(d, n => g(f(n)))
    decreases |d|
  {
    if |d| > 0 {
      if d[0] != 'L' {
        MapDescCompose(d[1..], f, g);
        MapDescOfChar(d, f);
        MapDescOfChar(d, n => g(f(n)));
        var m := [d[0]] + MapDesc(d[1..], f);
        assert m[0] == d[0] && m[1..] == MapDesc(d[1..], f);
        MapDescOfChar(m, g);
      } else {
        var e := SemicolonFrom(d, 1);
        if e < |d| {
          MapDescCompose(d[e + 1..], f, g);
          MapDescOfRef(d, f);
          MapDescOfRef(d, n => g(f(n)));
          MapDescOfBuiltRef(f(d[1..e]), MapDesc(d[e + 1..], f), g);
        }
      }
    }
  }

  /** Mapping forwards then backwards restores the descriptor when the
      backward renaming undoes the forward one. */
  lemma MapDescRoundTrip(d: string, f: string -> string, g: string -> string)
    requires forall n :: ClassNameChars(f(n))
    requires forall n :: g(f(n)) == n
    ensures MapDesc(MapDesc(d, f), g) == d
  {
    MapDescCompose(d, f, g);
    MapDescIdentity(d, n => g(f(n)));
  }

  /** Characters other than class references pass through: a descriptor
      without any `L` is its own image. */
  lemma {:induction false} MapDescPrimitive(d: string, rename: string -> string)
    requires forall i :: 0 <= i < |d| ==> d[i] != 'L'
    ensures MapDesc(d, rename) == d
    decreases |d|
  {
    if |d| > 0 {
      MapDescPrimitive(d[1..], rename);
      assert d == [d[0]] + d[1..];
    }
  }
}
