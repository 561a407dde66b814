/** The string primitives of the Kotlin/JVM standard library that the core
    relies on, written out over `seq<char>`. Each definition follows the
    library's documented behaviour; the places where the model is narrower
    (ASCII digits only) are noted on the definition. */
module Text {
  import opened Wrappers

  /** Kotlin's `Char.isWhitespace()`: Java whitespace plus the Unicode space
      separators. This is what `String.trim()` strips. */
  predicate IsWhitespace(c: char) {
    || c == ' ' || c == '\t' || c == '\n' || c == '\U{000B}' || c == '\U{000C}' || c == '\r'
    || ('\U{001C}' <= c <= '\U{001F}')
    || c == '\U{00A0}' || c == '\U{1680}'
    || ('\U{2000}' <= c <= '\U{200A}')
    || c == '\U{2028}' || c == '\U{2029}' || c == '\U{202F}' || c == '\U{205F}' || c == '\U{3000}'
  }

  /** The regular-expression class `\s` (no Unicode flag): `[ \t\n\x0B\f\r]`. */
  predicate IsRegexSpace(c: char) {
    c == ' ' || c == '\t' || c == '\n' || c == '\U{000B}' || c == '\U{000C}' || c == '\r'
  }

  /** Characters that `.` in a regular expression does not match. */
  predicate IsLineTerminator(c: char) {
    c == '\n' || c == '\r' || c == '\U{0085}' || c == '\U{2028}' || c == '\U{2029}'
  }

  predicate IsBlank(s: string) {
    forall i :: 0 <= i < |s| ==> IsWhitespace(s[i])
  }

  /** Kotlin's `String.trim()`: drops whitespace from both ends. */
  function Trim(s: string): (r: string)
    ensures |r| <= |s|
  {
    if |s| > 0 && IsWhitespace(s[0]) then Trim(s[1..])
    else if |s| > 0 && IsWhitespace(s[|s| - 1]) then Trim(s[..|s| - 1])
    else s
  }

  /** `trim()` leaves no whitespace at either end, keeps the text between
      the first and the last non-whitespace character, and gives the empty
      string exactly when the input is blank. */
  lemma {:induction false} TrimMeaning(s: string)
    ensures |Trim(s)| > 0 ==> !IsWhitespace(Trim(s)[0]) && !IsWhitespace(Trim(s)[|Trim(s)| - 1])
    ensures |Trim(s)| == 0 <==> IsBlank(s)
    decreases |s|
  {
    if |s| > 0 && IsWhitespace(s[0]) {
      TrimMeaning(s[1..]);
      assert IsBlank(s) <==> IsBlank(s[1..]) by {
        assert forall i :: 1 <= i < |s| ==> s[i] == s[1..][i - 1];
      }
    } else if |s| > 0 && IsWhitespace(s[|s| - 1]) {
      TrimMeaning(s[..|s| - 1]);
      assert IsBlank(s) <==> IsBlank(s[..|s| - 1]) by {
        assert forall i :: 0 <= i < |s| - 1 ==> s[i] == s[..|s| - 1][i];
      }
    }
  }

  /** A string that neither starts nor ends with whitespace is its own trim. */
  lemma TrimUnchanged(s: string)
    requires |s| > 0 ==> !IsWhitespace(s[0]) && !IsWhitespace(s[|s| - 1])
    ensures Trim(s) == s
  {
  }

  /** Leading whitespace makes no difference to `trim()`. */
  lemma {:induction false} TrimLeading(w: string, x: string)
    requires IsBlank(w)
    ensures Trim(w + x) == Trim(x)
    decreases |w|
  {
    if |w| > 0 {
      assert (w + x)[1..] == w[1..] + x;
      assert IsWhitespace((w + x)[0]);
      assert Trim(w + x) == Trim(w[1..] + x);
      TrimLeading(w[1..], x);
    } else {
      assert w + x == x;
    }
  }

  /** `trim()` keeps a prefix that starts with a non-whitespace character
      as long as something non-blank follows it. */
  lemma {:induction false} TrimKeepsPrefix(p: string, x: string)
    requires |p| > 0 && !IsWhitespace(p[0])
    requires !IsBlank(x)
    ensures StartsWith(Trim(p + x), p)
    decreases |x|
  {
    var s := p + x;
    if IsWhitespace(s[|s| - 1]) {
      var y := x[..|x| - 1];
      assert s[..|s| - 1] == p + y;
      assert !IsBlank(y) by {
        var i :| 0 <= i < |x| && !IsWhitespace(x[i]);
        assert i < |x| - 1 && y[i] == x[i];
      }
      TrimKeepsPrefix(p, y);
    }
  }

  /** The leading run of blanks and tabs (`takeWhile { it == ' ' || it == '\t' }`). */
  function Indentation(s: string): (r: string)
    ensures |r| <= |s| && r == s[..|r|]
    ensures forall i :: 0 <= i < |r| ==> r[i] == ' ' || r[i] == '\t'
    ensures |r| < |s| ==> s[|r|] != ' ' && s[|r|] != '\t'
  {
    if |s| > 0 && (s[0] == ' ' || s[0] == '\t') then [s[0]] + Indentation(s[1..]) else ""
  }

  predicate StartsWith(s: string, prefix: string) {
    |prefix| <= |s| && s[..|prefix|] == prefix
  }

  predicate EndsWith(s: string, suffix: string) {
    |suffix| <= |s| && s[|s| - |suffix|..] == suffix
  }

  predicate OccursAt(s: string, pat: string, i: nat) {
    i + |pat| <= |s| && s[i..i + |pat|] == pat
  }

  /** `indexOf`: the first position at which `pat` occurs in `s`. */
  function IndexOf(s: string, pat: string): (r: Option<nat>)
    ensures r.Some? ==> OccursAt(s, pat, r.value)
    ensures r.Some? ==> forall j :: 0 <= j < r.value ==> !OccursAt(s, pat, j)
    ensures r.None? ==> forall j :: 0 <= j <= |s| ==> !OccursAt(s, pat, j)
  {
    IndexFrom(s, pat, 0)
  }

  function IndexFrom(s: string, pat: string, from: nat): (r: Option<nat>)
    ensures r.Some? ==> from <= r.value && OccursAt(s, pat, r.value)
    ensures r.Some? ==> forall j :: from <= j < r.value ==> !OccursAt(s, pat, j)
    ensures r.None? ==> forall j :: from <= j <= |s| ==> !OccursAt(s, pat, j)
    decreases |s| + 1 - from
  {
    if from + |pat| > |s| then None
    else if s[from..from + |pat|] == pat then Some(from)
    else IndexFrom(s, pat, from + 1)
  }

  predicate Contains(s: string, pat: string) {
    IndexOf(s, pat).Some?
  }

  /** `split(delimiter)` with a literal, non-empty delimiter and no limit:
      the pieces between the non-overlapping occurrences found left to
      right, keeping leading and trailing empty pieces (Kotlin passes a
      negative limit to `Pattern.split`). */
  function SplitOn(s: string, delim: string): (r: seq<string>)
    requires |delim| > 0
    ensures |r| >= 1
    ensures |r| == 1 <==> !Contains(s, delim)
    ensures |r| == 1 ==> r[0] == s
    ensures forall k :: 0 <= k < |r| ==> |r[k]| <= |s|
    ensures |r| > 1 ==> forall k :: 0 <= k < |r| ==> |r[k]| < |s|
    decreases |s|, 1
  {
    SplitAt(s, delim, IndexOf(s, delim))
  }

  /** `SplitOn` once the first occurrence of the delimiter is known. */
  function SplitAt(s: string, delim: string, found: Option<nat>): (r: seq<string>)
    requires |delim| > 0 && (found.Some? ==> found.value + |delim| <= |s|)
    ensures |r| >= 1
    ensures |r| == 1 <==> found.None?
    ensures |r| == 1 ==> r[0] == s
    ensures forall k :: 0 <= k < |r| ==> |r[k]| <= |s|
    ensures |r| > 1 ==> forall k :: 0 <= k < |r| ==> |r[k]| < |s|
    decreases |s|, 0
  {
    match found
    case None => [s]
    case Some(i) => [s[..i]] + SplitOn(s[i + |delim|..], delim)
  }

  /** `split("\\s+".toRegex())`: pieces separated by maximal runs of `\s`. */
  function SplitOnSpaces(s: string): (r: seq<string>)
    ensures |r| >= 1
    ensures forall k, i :: 0 <= k < |r| && 0 <= i < |r[k]| ==> !IsRegexSpace(r[k][i])
    decreases |s|
  {
    var i := FirstSpace(s, 0);
    if i == |s| then [s]
    else
      var j := SkipSpaces(s, i);
      [s[..i]] + SplitOnSpaces(s[j..])
  }

  function FirstSpace(s: string, from: nat): (r: nat)
    requires from <= |s|
    ensures from <= r <= |s|
    ensures forall j :: from <= j < r ==> !IsRegexSpace(s[j])
    ensures r < |s| ==> IsRegexSpace(s[r])
    decreases |s| - from
  {
    if from == |s| || IsRegexSpace(s[from]) then from else FirstSpace(s, from + 1)
  }

  function SkipSpaces(s: string, from: nat): (r: nat)
    requires from < |s| && IsRegexSpace(s[from])
    ensures from < r <= |s|
    ensures r < |s| ==> !IsRegexSpace(s[r])
    decreases |s| - from
  {
    if from + 1 < |s| && IsRegexSpace(s[from + 1]) then SkipSpaces(s, from + 1) else from + 1
  }

  /** Tokens joined by single blanks: what `SplitOnSpaces` takes apart. */
  function JoinSpaced(ts: seq<string>): string {
    if |ts| == 0 then ""
    else if |ts| == 1 then ts[0]
    else ts[0] + " " + JoinSpaced(ts[1..])
  }

  /** A token of a whitespace-separated line. */
  predicate IsToken(t: string) {
    |t| > 0 && forall i :: 0 <= i < |t| ==> !IsWhitespace(t[i])
  }

  /** Splitting a blank-joined line gives its tokens back. */
  lemma {:induction false} SplitJoinSpaced(ts: seq<string>)
    requires |ts| > 0 && forall k :: 0 <= k < |ts| ==> IsToken(ts[k])
    ensures SplitOnSpaces(JoinSpaced(ts)) == ts
  {
    var t := ts[0];
    if |ts| == 1 {
      assert FirstSpace(t, 0) == |t|;
    } else {
      var rest := JoinSpaced(ts[1..]);
      SplitJoinSpaced(ts[1..]);
      JoinSpacedEnds(ts[1..]);
      SplitAfterToken(t, rest);
    }
  }

  /** A token, one blank and a line that does not start blank split into
      that token and the line's own pieces. */
  lemma SplitAfterToken(t: string, rest: string)
    requires IsToken(t) && |rest| > 0 && !IsRegexSpace(rest[0])
    ensures SplitOnSpaces(t + " " + rest) == [t] + SplitOnSpaces(rest)
  {
    var s := t + " " + rest;
    assert s[|t|] == ' ';
    assert forall j :: 0 <= j < |t| ==> s[j] == t[j];
    assert FirstSpace(s, 0) == |t|;
    assert s[|t| + 1] == rest[0];
    assert SkipSpaces(s, |t|) == |t| + 1;
    assert s[..|t|] == t;
    assert s[|t| + 1..] == rest;
  }

  /** A blank-joined line of tokens starts and ends with a token character. */
  lemma {:induction false} JoinSpacedEnds(ts: seq<string>)
    requires |ts| > 0 && forall k :: 0 <= k < |ts| ==> IsToken(ts[k])
    ensures |JoinSpaced(ts)| > 0
    ensures IsToken(ts[0]) && JoinSpaced(ts)[0] == ts[0][0]
    ensures IsToken(ts[|ts| - 1]) && JoinSpaced(ts)[|JoinSpaced(ts)| - 1] == ts[|ts| - 1][|ts[|ts| - 1]| - 1]
  {
    if |ts| > 1 {
      JoinSpacedEnds(ts[1..]);
    }
  }

  /** Trimming a blank-joined line of tokens changes nothing. */
  lemma JoinSpacedTrimmed(ts: seq<string>)
    requires |ts| > 0 && forall k :: 0 <= k < |ts| ==> IsToken(ts[k])
    ensures Trim(JoinSpaced(ts)) == JoinSpaced(ts)
  {
    JoinSpacedEnds(ts);
    TrimUnchanged(JoinSpaced(ts));
  }

  /** `substringBefore(delimiter)`: the text before the first occurrence,
      or the whole string when there is none. */
  function SubstringBefore(s: string, delim: string): (r: string)
    ensures Contains(s, delim) ==> OccursAt(s, delim, |r|) && r == s[..|r|]
    ensures !Contains(s, delim) ==> r == s
  {
    match IndexOf(s, delim)
    case None => s
    case Some(i) => s[..i]
  }

  /** `substringAfter(delimiter)`: the text after the first occurrence, or
      (the default for a missing delimiter) the whole string. */
  function SubstringAfter(s: string, delim: string): (r: string)
    ensures !Contains(s, delim) ==> r == s
  {
    match IndexOf(s, delim)
    case None => s
    case Some(i) => s[i + |delim|..]
  }

  /** Cutting at the first occurrence and gluing back gives the string. */
  lemma SubstringSplice(s: string, delim: string)
    requires Contains(s, delim)
    ensures SubstringBefore(s, delim) + delim + SubstringAfter(s, delim) == s
  {
  }

  /** `replace(c.toString(), "")`. */
  function RemoveChar(s: string, c: char): (r: string)
    ensures forall i :: 0 <= i < |r| ==> r[i] != c
    ensures multiset(r) == multiset(s)[c := 0]
    ensures |r| <= |s|
  {
    if |s| == 0 then ""
    else if s[0] == c then
      assert s == [s[0]] + s[1..];
      RemoveChar(s[1..], c)
    else
      assert s == [s[0]] + s[1..];
      [s[0]] + RemoveChar(s[1..], c)
  }

  /** Deleting works piece by piece, so the kept characters stay in order. */
  lemma {:induction false} RemoveCharConcat(a: string, b: string, c: char)
    ensures RemoveChar(a + b, c) == RemoveChar(a, c) + RemoveChar(b, c)
    decreases |a|
  {
    if |a| > 0 {
      assert (a + b)[1..] == a[1..] + b;
      RemoveCharConcat(a[1..], b, c);
    } else {
      assert a + b == b;
    }
  }

  /** A text without the character is left as it is. */
  lemma {:induction false} RemoveCharAbsent(s: string, c: char)
    requires forall i :: 0 <= i < |s| ==> s[i] != c
    ensures RemoveChar(s, c) == s
    decreases |s|
  {
    if |s| > 0 {
      RemoveCharAbsent(s[1..], c);
    }
  }

  /** The pieces joined by the delimiter: what `SplitOn` takes apart. */
  function JoinOn(ps: seq<string>, delim: string): string {
    if |ps| == 0 then ""
    else if |ps| == 1 then ps[0]
    else ps[0] + delim + JoinOn(ps[1..], delim)
  }

  /** The first piece of a split is the text before the first occurrence. */
  lemma SplitOnHead(s: string, delim: string)
    requires |delim| > 0 && Contains(s, delim)
    ensures SplitOn(s, delim)[0] == s[..IndexOf(s, delim).value]
  {
  }

  /** A one-character pattern is found at a position holding it. */
  lemma IndexOfOne(s: string, c: char)
    requires Contains(s, [c])
    ensures s[IndexOf(s, [c]).value] == c
  {
    var i := IndexOf(s, [c]).value;
    assert s[i..i + 1] == [c];
    assert s[i] == s[i..i + 1][0];
  }

  /** Joining a piece in front of at least one more. */
  lemma JoinOnCons(x: string, rest: seq<string>, delim: string)
    requires |rest| > 0
    ensures JoinOn([x] + rest, delim) == x + delim + JoinOn(rest, delim)
  {
    assert ([x] + rest)[1..] == rest;
  }

  /** Joining the pieces of a split gives the string back. */
  lemma {:induction false} SplitOnJoin(s: string, delim: string)
    requires |delim| > 0
    ensures JoinOn(SplitOn(s, delim), delim) == s
    decreases |s|, 1
  {
    SplitAtJoin(s, delim, IndexOf(s, delim));
  }

  /** `SplitOnJoin` once the first occurrence of the delimiter is known. */
  lemma {:induction false} SplitAtJoin(s: string, delim: string, found: Option<nat>)
    requires |delim| > 0 && (found.Some? ==> OccursAt(s, delim, found.value))
    ensures JoinOn(SplitAt(s, delim, found), delim) == s
    decreases |s|, 0
  {
    match found
    case None =>
    case Some(i) =>
      var rest := s[i + |delim|..];
      var ps := SplitOn(rest, delim);
      SplitOnJoin(rest, delim);
      assert SplitAt(s, delim, found) == [s[..i]] + ps;
      JoinOnCons(s[..i], ps, delim);
      CutAround(s, i, i + |delim|);
  }

  /** A string is its three pieces around two cut points. */
  lemma CutAround(s: string, i: nat, j: nat)
    requires i <= j <= |s|
    ensures s == s[..i] + s[i..j] + s[j..]
  {
    assert s[..j] == s[..i] + s[i..j];
    assert s == s[..j] + s[j..];
  }

  /** Splitting pieces joined by a one-character delimiter that none of
      them contains gives the pieces back. */
  lemma {:induction false} JoinOnSplit(ps: seq<string>, delim: string)
    requires |ps| > 0 && |delim| == 1
    requires forall k, i :: 0 <= k < |ps| && 0 <= i < |ps[k]| ==> ps[k][i] != delim[0]
    ensures SplitOn(JoinOn(ps, delim), delim) == ps
  {
    if |ps| == 1 {
      SplitOnAbsent(ps[0], delim);
    } else {
      JoinOnSplit(ps[1..], delim);
      SplitOnConcat(ps[0], delim, JoinOn(ps[1..], delim));
    }
  }

  /** Splitting at a first delimiter occurrence: the piece before it, then
      the split of the rest. */
  lemma SplitOnConcat(a: string, delim: string, b: string)
    requires |delim| > 0
    requires forall i :: 0 <= i < |a| ==> a[i] != delim[0]
    ensures SplitOn(a + delim + b, delim) == [a] + SplitOn(b, delim)
  {
    var s := a + delim + b;
    assert OccursAt(s, delim, |a|) by {
      assert s[|a|..|a| + |delim|] == delim;
    }
    forall j | 0 <= j < |a| ensures !OccursAt(s, delim, j) {
      assert s[j] == a[j];
    }
    assert IndexOf(s, delim) == Some(|a|);
    assert s[..|a|] == a;
    assert s[|a| + |delim|..] == b;
  }

  /** A string without the delimiter's first character is not split. */
  lemma SplitOnAbsent(a: string, delim: string)
    requires |delim| > 0
    requires forall i :: 0 <= i < |a| ==> a[i] != delim[0]
    ensures SplitOn(a, delim) == [a]
  {
    forall j | 0 <= j <= |a| ensures !OccursAt(a, delim, j) {
      if j < |a| { assert a[j] != delim[0]; }
    }
  }

  /** Characters other than the removed one survive `RemoveChar`. */
  lemma {:induction false} RemoveCharKeeps(s: string, c: char, i: nat)
    requires i < |s| && s[i] != c
    ensures exists k :: 0 <= k < |RemoveChar(s, c)| && RemoveChar(s, c)[k] == s[i]
  {
    var rest := RemoveChar(s[1..], c);
    if i == 0 {
      assert RemoveChar(s, c)[0] == s[0];
    } else {
      RemoveCharKeeps(s[1..], c, i - 1);
      var k :| 0 <= k < |rest| && rest[k] == s[1..][i - 1];
      if s[0] == c {
        assert RemoveChar(s, c) == rest;
      } else {
        assert RemoveChar(s, c)[k + 1] == rest[k];
      }
    }
  }

  // ---------------------------------------------------------------------
  // Integers

  const IntMin: int := -0x8000_0000
  const IntMax: int := 0x7FFF_FFFF

  predicate InInt32(x: int) {
    IntMin <= x <= IntMax
  }

  /** Two's-complement wrap-around of a JVM `Int` computation. */
  function Wrap32(x: int): (r: int)
    ensures InInt32(r)
    ensures InInt32(x) ==> r == x
    ensures (r - x) % 0x1_0000_0000 == 0
  {
    (x - IntMin) % 0x1_0000_0000 + IntMin
  }

  /** Decimal digits. Kotlin also accepts the other Unicode decimal digits;
      the model accepts ASCII digits only. */
  predicate IsDigit(c: char) {
    '0' <= c <= '9'
  }

  predicate AllDigits(s: string) {
    forall i :: 0 <= i < |s| ==> IsDigit(s[i])
  }

  function DigitValue(c: char): nat
    requires IsDigit(c)
  {
    (c as int - '0' as int) as nat
  }

  function DigitChar(d: nat): (c: char)
    requires d < 10
    ensures IsDigit(c) && DigitValue(c) == d
  {
    ('0' as int + d) as char
  }

  function DecimalValue(s: string): nat
    requires AllDigits(s)
  {
    if |s| == 0 then 0 else DecimalValue(s[..|s| - 1]) * 10 + DigitValue(s[|s| - 1])
  }

  /** The value of a digit string, or `None` at the first non-digit. */
  function ParseDigits(s: string): (r: Option<nat>)
    decreases |s|
  {
    if |s| == 0 then Some(0)
    else if !IsDigit(s[|s| - 1]) then None
    else
      match ParseDigits(s[..|s| - 1])
      case None => None
      case Some(v) => Some(v * 10 + DigitValue(s[|s| - 1]))
  }

  /** `ParseDigits` succeeds exactly on digit strings, with their decimal
      value. */
  lemma {:induction false} ParseDigitsMeaning(s: string)
    ensures ParseDigits(s).Some? <==> AllDigits(s)
    ensures ParseDigits(s).Some? ==> ParseDigits(s).value == DecimalValue(s)
    decreases |s|
  {
    if |s| > 0 {
      var init := s[..|s| - 1];
      ParseDigitsMeaning(init);
      assert AllDigits(s) <==> AllDigits(init) && IsDigit(s[|s| - 1]) by {
        assert forall i :: 0 <= i < |init| ==> init[i] == s[i];
      }
    }
  }

  /** Kotlin's `String.toIntOrNull()`: an optional sign followed by at least
      one digit, whose value fits in a 32-bit `Int`. */
  function ParseInt32(s: string): (r: Option<int>)
    ensures r.Some? ==> InInt32(r.value)
  {
    if |s| == 0 then None
    else
      var negative := s[0] == '-';
      var digits := if s[0] == '-' || s[0] == '+' then s[1..] else s;
      if |digits| == 0 then None
      else
        match ParseDigits(digits)
        case None => None
        case Some(v) =>
          if negative && v <= -IntMin then Some(0 - v)
          else if !negative && v <= IntMax then Some(v)
          else None
  }

  /** The digits of an integer text: what follows an optional sign. */
  function Unsigned(t: string): (r: string)
    requires |t| > 0
    ensures |r| == |t| || |r| == |t| - 1
  {
    if t[0] == '-' || t[0] == '+' then t[1..] else t
  }

  /** An optional `+` or `-` followed by at least one decimal digit. */
  predicate IsIntegerText(t: string) {
    |t| > 0 && |Unsigned(t)| > 0 && AllDigits(Unsigned(t))
  }

  /** The signed decimal value of an integer text. */
  function IntegerValue(t: string): int
    requires IsIntegerText(t)
  {
    if t[0] == '-' then 0 - DecimalValue(Unsigned(t)) else DecimalValue(Unsigned(t))
  }

  /** Whether an integer text denotes a value a 32-bit `Int` holds. */
  predicate IntegerFits(t: string) {
    IsIntegerText(t) && InInt32(IntegerValue(t))
  }

  /** `toIntOrNull` succeeds exactly on integer texts whose value fits,
      with that value. */
  lemma ParseInt32Meaning(t: string)
    ensures ParseInt32(t).Some? <==> IntegerFits(t)
    ensures ParseInt32(t).Some? ==> ParseInt32(t).value == IntegerValue(t)
  {
    if |t| > 0 {
      ParseDigitsMeaning(Unsigned(t));
    }
  }

  /** A parsed integer consists of digits after an optional sign. */
  lemma ParseInt32Shape(s: string)
    ensures ParseInt32(s).Some? ==>
      |s| > 0 && forall i :: 0 <= i < |s| ==> IsDigit(s[i]) || (i == 0 && (s[0] == '+' || s[0] == '-'))
  {
    if |s| > 0 {
      var digits := if s[0] == '-' || s[0] == '+' then s[1..] else s;
      ParseDigitsMeaning(digits);
      if s[0] == '-' || s[0] == '+' {
        assert forall i :: 1 <= i < |s| ==> s[i] == digits[i - 1];
      }
    }
  }

  /** Decimal rendering of a natural number, as string templates print it. */
  function NatToString(n: nat): (r: string)
    ensures |r| > 0 && AllDigits(r)
  {
    if n < 10 then [DigitChar(n)] else NatToString(n / 10) + [DigitChar(n % 10)]
  }

  lemma {:induction false} NatToStringValue(n: nat)
    ensures DecimalValue(NatToString(n)) == n
  {
    if n >= 10 {
      var s := NatToString(n);
      assert s[..|s| - 1] == NatToString(n / 10);
      NatToStringValue(n / 10);
    }
  }

  /** Printing then parsing a non-negative `Int` gives it back. */
  lemma ParsePrintedInt(n: nat)
    requires n <= IntMax
    ensures ParseInt32(NatToString(n)) == Some(n)
  {
    var t := NatToString(n);
    NatToStringValue(n);
    ParseDigitsMeaning(t);
    assert IsDigit(t[0]);
  }

  /** A digit string is printed back without its leading zeros. */
  lemma {:induction false} NatToStringInjective(m: nat, n: nat)
    requires NatToString(m) == NatToString(n)
    ensures m == n
  {
    NatToStringValue(m);
    NatToStringValue(n);
  }
}
