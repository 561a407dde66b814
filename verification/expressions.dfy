/** The condition language of the comment preprocessor: integer-valued
    atoms looked up in a fixed variable environment, comparisons, `!`, `&&`
    and `||` (`CommentPreprocessor.evalVarOrNull`, `evalVar`, `evalExpr`). */
module Expressions {
  import opened Wrappers
  import opened Text

  /** The variable environment, fixed for a run (`Map<String, Int>`). */
  type Env = map<string, int>

  /** The two exceptions the evaluator throws: `NoSuchElementException` for
      an unresolvable value and `InvalidExpressionException` for text that
      matches no rule. */
  datatype EvalError = UnknownVariable(name: string) | InvalidExpression(expr: string)

  // ---------------------------------------------------------------------
  // Values

  /** A dotted version literal `major.minor[.patch]`, as the JVM computes it
      (`major * 1_00_00 + minor * 1_00 + patch` in 32-bit arithmetic). */
  function VersionValue(s: string): (r: Option<int>)
    requires Contains(s, ".")
    ensures r.Some? ==> InInt32(r.value)
  {
    var parts := SplitOn(s, ".") + ["0"];
    var major :- ParseInt32(parts[0]);
    var minor :- ParseInt32(parts[1]);
    var patch :- ParseInt32(parts[2]);
    Some(VersionNumber(major, minor, patch))
  }

  /** `major * 1_00_00 + minor * 1_00 + patch` in 32-bit arithmetic. */
  function VersionNumber(major: int, minor: int, patch: int): (r: int)
    ensures InInt32(r)
  {
    Wrap32(major * 10000 + minor * 100 + patch)
  }

  /** What a version literal's `.`-segments denote: `major.minor` or
      `major.minor.patch` followed by anything, each of the three an
      integer text that fits in an `Int`; a missing patch is 0. */
  function VersionOfSegments(segs: seq<string>): (r: Option<int>)
    requires |segs| >= 2
  {
    if IntegerFits(segs[0]) && IntegerFits(segs[1]) && (|segs| == 2 || IntegerFits(segs[2])) then
      Some(VersionNumber(IntegerValue(segs[0]), IntegerValue(segs[1]), if |segs| == 2 then 0 else IntegerValue(segs[2])))
    else None
  }

  /** What a text without a `.` denotes: the integer its digits spell once
      the underscores are deleted, when that fits in an `Int`. */
  function IntegerOfText(s: string): (r: Option<int>)
  {
    var t := RemoveChar(s, '_');
    if IntegerFits(t) then Some(IntegerValue(t)) else None
  }

  /** The version literal is read segment by segment. */
  lemma VersionValueMeaning(s: string)
    requires Contains(s, ".")
    ensures |SplitOn(s, ".")| >= 2 && VersionValue(s) == VersionOfSegments(SplitOn(s, "."))
  {
    var segs := SplitOn(s, ".");
    var parts := segs + ["0"];
    ParseInt32Meaning(parts[0]);
    ParseInt32Meaning(parts[1]);
    ParseInt32Meaning(parts[2]);
    ParseZero();
  }

  /** `evalVarOrNull`: a variable of the environment wins; otherwise a
      dotted text is a version literal and any other text an integer with
      its underscores deleted; `None` when the text is neither. */
  function EvalVarOrNull(vars: Env, s: string): (r: Option<int>)
    ensures s in vars ==> r == Some(vars[s])
    ensures s !in vars && Contains(s, ".") ==> |SplitOn(s, ".")| >= 2 && r == VersionOfSegments(SplitOn(s, "."))
    ensures s !in vars && !Contains(s, ".") ==> r == IntegerOfText(s)
  {
    if s in vars then Some(vars[s])
    else if Contains(s, ".") then
      VersionValueMeaning(s);
      VersionValue(s)
    else
      ParseInt32Meaning(RemoveChar(s, '_'));
      ParseInt32(RemoveChar(s, '_'))
  }

  /** `evalVar`: the value of a variable, a version literal or an integer
      literal, and `NoSuchElementException` naming the text otherwise. */
  function EvalVar(vars: Env, s: string): (r: Result<int, EvalError>)
    ensures s in vars ==> r == Ok(vars[s])
    ensures s !in vars && Contains(s, ".") ==> (|SplitOn(s, ".")| >= 2 &&
      r == (match VersionOfSegments(SplitOn(s, ".")) case Some(v) => Ok(v) case None => Err(UnknownVariable(s))))
    ensures s !in vars && !Contains(s, ".") ==>
      r == (match IntegerOfText(s) case Some(v) => Ok(v) case None => Err(UnknownVariable(s)))
    ensures r.Err? ==> r.error == UnknownVariable(s)
  {
    match EvalVarOrNull(vars, s)
    case Some(v) => Ok(v)
    case None => Err(UnknownVariable(s))
  }

  // ---------------------------------------------------------------------
  // Comparisons: the pattern `(.+)(==|!=|<=|>=|<|>)(.+)` under `matches()`

  /** The operator alternatives of the pattern. */
  datatype Op = Eq | Ne | Le | Ge | Lt | Gt {

    function Text(): (t: string)
      ensures 1 <= |t| <= 2 && IsOperatorChar(t[0]) && (|t| == 2 ==> t[1] == '=')
    {
      match this
      case Eq => "=="
      case Ne => "!="
      case Le => "<="
      case Ge => ">="
      case Lt => "<"
      case Gt => ">"
    }

    /** Position in the alternation: earlier alternatives are tried first. */
    function Rank(): nat {
      match this
      case Eq => 0
      case Ne => 1
      case Le => 2
      case Ge => 3
      case Lt => 4
      case Gt => 5
    }
  }

  /** The characters an operator is made of. */
  predicate IsOperatorChar(c: char) {
    c == '=' || c == '!' || c == '<' || c == '>'
  }

  datatype Comparison = Comparison(lhs: string, op: Op, rhs: string)

  predicate NoLineTerminator(s: string) {
    forall i :: 0 <= i < |s| ==> !IsLineTerminator(s[i])
  }

  /** An operator alternative can match at position `i` when its text
      occurs there and leaves a non-empty right-hand side. */
  predicate FitsAt(s: string, op: Op, i: nat) {
    var t := op.Text();
    i + |t| < |s| && s[i] == t[0] && (|t| == 1 || s[i + 1] == t[1])
  }

  /** `FitsAt` is an occurrence of the operator's text. */
  lemma FitsAtIsOccurrence(s: string, op: Op, i: nat)
    ensures FitsAt(s, op, i) <==> OccursAt(s, op.Text(), i) && i + |op.Text()| < |s|
  {
    var t := op.Text();
    if i + |t| < |s| {
      if |t| == 1 {
        assert s[i..i + |t|] == [s[i]];
      } else {
        assert s[i..i + |t|] == [s[i], s[i + 1]];
      }
    }
  }

  /** The first alternative, in pattern order, that fits at `i`. */
  function OperatorAt(s: string, i: nat): (r: Option<Op>)
    ensures r.Some? ==> FitsAt(s, r.value, i)
    ensures r.Some? ==> forall op: Op :: op.Rank() < r.value.Rank() ==> !FitsAt(s, op, i)
    ensures r.None? ==> forall op: Op :: !FitsAt(s, op, i)
  {
    if FitsAt(s, Eq, i) then Some(Eq)
    else if FitsAt(s, Ne, i) then Some(Ne)
    else if FitsAt(s, Le, i) then Some(Le)
    else if FitsAt(s, Ge, i) then Some(Ge)
    else if FitsAt(s, Lt, i) then Some(Lt)
    else if FitsAt(s, Gt, i) then Some(Gt)
    else None
  }

  /** No operator alternative fits at any position in `(lo, hi]`. */
  predicate NoOperatorBetween(s: string, lo: nat, hi: nat) {
    forall j: nat, op: Op :: lo < j <= hi ==> !FitsAt(s, op, j)
  }

  /** Where the pattern splits: the operator's position and alternative. */
  datatype Split = Split(pos: nat, op: Op)

  /** Backtracking of the greedy first group: positions are tried from `i`
      leftwards, so the split happens at the LAST position where an
      operator fits, with the first alternative that fits there. */
  function LastOperator(s: string, i: nat): (r: Option<Split>)
    requires 1 <= i
    ensures r.Some? ==> 1 <= r.value.pos <= i && OperatorAt(s, r.value.pos) == Some(r.value.op)
    decreases i
  {
    match OperatorAt(s, i)
    case Some(op) => Some(Split(i, op))
    case None => if i == 1 then None else LastOperator(s, i - 1)
  }

  /** No operator fits to the right of the split, nor anywhere when there
      is none. */
  lemma {:induction false} LastOperatorScan(s: string, i: nat)
    requires 1 <= i
    ensures var r := LastOperator(s, i);
      && (r.Some? ==> NoOperatorBetween(s, r.value.pos, i))
      && (r.None? ==> NoOperatorBetween(s, 0, i))
    decreases i
  {
    if OperatorAt(s, i).None? && i > 1 {
      var r := LastOperator(s, i - 1);
      LastOperatorScan(s, i - 1);
      ExtendNoOperator(s, if r.Some? then r.value.pos else 0, i);
    }
  }

  lemma ExtendNoOperator(s: string, lo: nat, hi: nat)
    requires lo < hi
    requires NoOperatorBetween(s, lo, hi - 1)
    requires forall op: Op :: !FitsAt(s, op, hi)
    ensures NoOperatorBetween(s, lo, hi)
  {
  }

  lemma SplitAround(s: string, pat: string, i: nat)
    requires OccursAt(s, pat, i)
    ensures s == s[..i] + pat + s[i + |pat|..]
  {
    assert s == s[..i] + s[i..i + |pat|] + s[i + |pat|..];
  }

  /** `EXPR_PATTERN.matcher(s).matches()` with its three groups. */
  function MatchComparison(s: string): Option<Comparison> {
    if !NoLineTerminator(s) || |s| < 2 then None
    else
      match LastOperator(s, |s| - 1)
      case None => None
      case Some(Split(p, op)) => Some(Comparison(s[..p], op, s[p + |op.Text()|..]))
  }

  /** A match splits the text into non-empty groups around an operator,
      at the rightmost position where one fits; there is no match when
      the text holds a line terminator or no operator fits anywhere. */
  lemma MatchComparisonMeaning(s: string)
    ensures var r := MatchComparison(s);
      && (r.Some? ==> s == r.value.lhs + r.value.op.Text() + r.value.rhs)
      && (r.Some? ==> |r.value.lhs| >= 1 && |r.value.rhs| >= 1)
      && (r.Some? ==> NoOperatorBetween(s, |r.value.lhs|, |s|))
      && (r.None? && NoLineTerminator(s) ==> NoOperatorBetween(s, 0, |s|))
      && (!NoLineTerminator(s) ==> r.None?)
  {
    MatchComparisonPieces(s);
    MatchComparisonRightmost(s);
  }

  /** The groups of a match, around the operator's text. */
  lemma MatchComparisonPieces(s: string)
    ensures var r := MatchComparison(s);
      r.Some? ==> s == r.value.lhs + r.value.op.Text() + r.value.rhs && |r.value.lhs| >= 1 && |r.value.rhs| >= 1
  {
    if NoLineTerminator(s) && |s| >= 2 {
      match LastOperator(s, |s| - 1)
      case None =>
      case Some(Split(p, op)) =>
        FitsAtIsOccurrence(s, op, p);
        SplitAround(s, op.Text(), p);
    }
  }

  /** No operator fits to the right of a match's split, nor anywhere in a
      single-line text without a match. */
  lemma MatchComparisonRightmost(s: string)
    ensures var r := MatchComparison(s);
      && (r.Some? ==> NoOperatorBetween(s, |r.value.lhs|, |s|))
      && (r.None? && NoLineTerminator(s) ==> NoOperatorBetween(s, 0, |s|))
  {
    if NoLineTerminator(s) && |s| >= 2 {
      assert forall op: Op :: !FitsAt(s, op, |s|);
      LastOperatorScan(s, |s| - 1);
    }
  }

  /** The comparison an operator stands for, on 32-bit values. */
  function Compare(op: Op, lhs: int, rhs: int): bool {
    match op
    case Eq => lhs == rhs
    case Ne => lhs != rhs
    case Ge => lhs >= rhs
    case Le => lhs <= rhs
    case Gt => lhs > rhs
    case Lt => lhs < rhs
  }

  // ---------------------------------------------------------------------
  // Expressions

  /** `evalExpr`: split on `||`, then on `&&`, then a leading `!`, then a
      bare value (true iff non-zero), then a comparison. */
  function EvalExpr(vars: Env, s: string): Result<bool, EvalError>
    decreases |s|, 1
  {
    var ors := SplitOn(s, "||");
    if |ors| > 1 then AnyPart(vars, ors, |s|)
    else
      var ands := SplitOn(s, "&&");
      if |ands| > 1 then AllParts(vars, ands, |s|)
      else if StartsWith(s, "!") then
        var b :- EvalExpr(vars, s[1..]);
        Ok(!b)
      else EvalAtom(vars, s)
  }

  /** A bare value (true iff non-zero) or a comparison of two values. */
  function EvalAtom(vars: Env, s: string): Result<bool, EvalError> {
    match EvalVarOrNull(vars, s)
    case Some(v) => Ok(v != 0)
    case None =>
      match MatchComparison(s)
      case None => Err(InvalidExpression(s))
      case Some(c) =>
        var lhs :- EvalVar(vars, Trim(c.lhs));
        var rhs :- EvalVar(vars, Trim(c.rhs));
        Ok(Compare(c.op, lhs, rhs))
  }

  /** `parts.any { it.trim().evalExpr() }`: stops at the first true part;
      an exception from a part evaluated before that propagates. */
  function AnyPart(vars: Env, parts: seq<string>, bound: nat): Result<bool, EvalError>
    requires forall k :: 0 <= k < |parts| ==> |parts[k]| < bound
    decreases bound, 0, |parts|
  {
    if |parts| == 0 then Ok(false)
    else
      var b :- EvalExpr(vars, Trim(parts[0]));
      if b then Ok(true) else AnyPart(vars, parts[1..], bound)
  }

  /** `parts.all { it.trim().evalExpr() }`: stops at the first false part. */
  function AllParts(vars: Env, parts: seq<string>, bound: nat): Result<bool, EvalError>
    requires forall k :: 0 <= k < |parts| ==> |parts[k]| < bound
    decreases bound, 0, |parts|
  {
    if |parts| == 0 then Ok(true)
    else
      var b :- EvalExpr(vars, Trim(parts[0]));
      if !b then Ok(false) else AllParts(vars, parts[1..], bound)
  }

  /** The outcome of every trimmed part, in order, as if none were skipped. */
  function Outcomes(vars: Env, ps: seq<string>): (r: seq<Result<bool, EvalError>>)
    ensures |r| == |ps|
    ensures forall k :: 0 <= k < |ps| ==> r[k] == EvalExpr(vars, Trim(ps[k]))
  {
    if |ps| == 0 then [] else [EvalExpr(vars, Trim(ps[0]))] + Outcomes(vars, ps[1..])
  }

  /** `any` is the first-true scan over all outcomes: skipping the parts
      after the deciding one changes nothing, since evaluation is pure. */
  lemma {:induction false} AnyPartScan(vars: Env, parts: seq<string>, bound: nat)
    requires forall k :: 0 <= k < |parts| ==> |parts[k]| < bound
    ensures AnyPart(vars, parts, bound) == FirstTrue(Outcomes(vars, parts))
  {
    if |parts| > 0 {
      var os := Outcomes(vars, parts);
      assert os[1..] == Outcomes(vars, parts[1..]);
      AnyPartScan(vars, parts[1..], bound);
    }
  }

  /** `all` is the first-false scan over all outcomes. */
  lemma {:induction false} AllPartsScan(vars: Env, parts: seq<string>, bound: nat)
    requires forall k :: 0 <= k < |parts| ==> |parts[k]| < bound
    ensures AllParts(vars, parts, bound) == FirstFalse(Outcomes(vars, parts))
  {
    if |parts| > 0 {
      var os := Outcomes(vars, parts);
      assert os[1..] == Outcomes(vars, parts[1..]);
      AllPartsScan(vars, parts[1..], bound);
    }
  }

  /** Scan left to right and stop at the first true outcome; an error met
      before that point is raised. */
  function FirstTrue<E>(rs: seq<Result<bool, E>>): Result<bool, E> {
    if |rs| == 0 then Ok(false)
    else if rs[0].Err? then Err(rs[0].error)
    else if rs[0].value then Ok(true)
    else FirstTrue(rs[1..])
  }

  /** Scan left to right and stop at the first false outcome; an error met
      before that point is raised. */
  function FirstFalse<E>(rs: seq<Result<bool, E>>): Result<bool, E> {
    if |rs| == 0 then Ok(true)
    else if rs[0].Err? then Err(rs[0].error)
    else if !rs[0].value then Ok(false)
    else FirstFalse(rs[1..])
  }

  /** `FirstTrue` is true iff some outcome is true and every outcome before
      it is false; false iff every outcome is false; an error iff the first
      outcome that is not false is that error. */
  lemma {:induction false} FirstTrueMeaning<E>(rs: seq<Result<bool, E>>)
    ensures FirstTrue(rs) == Ok(true) <==>
      exists k :: 0 <= k < |rs| && rs[k] == Ok(true) && forall j :: 0 <= j < k ==> rs[j] == Ok(false)
    ensures FirstTrue(rs) == Ok(false) <==> forall k :: 0 <= k < |rs| ==> rs[k] == Ok(false)
    ensures FirstTrue(rs).Err? ==>
      exists k :: 0 <= k < |rs| && rs[k] == Err(FirstTrue(rs).error) && forall j :: 0 <= j < k ==> rs[j] == Ok(false)
  {
    if |rs| > 0 {
      var tail := rs[1..];
      FirstTrueMeaning(tail);
      assert forall k :: 1 <= k < |rs| ==> rs[k] == tail[k - 1];
      if rs[0] == Ok(false) {
        var r := FirstTrue(tail);
        assert FirstTrue(rs) == r;
        if r == Ok(true) || r.Err? {
          var k :| 0 <= k < |tail| && (if r.Err? then tail[k] == Err(r.error) else tail[k] == Ok(true))
            && forall j :: 0 <= j < k ==> tail[j] == Ok(false);
          assert forall j :: 0 <= j < k + 1 ==> rs[j] == Ok(false) by {
            forall j | 0 <= j < k + 1 ensures rs[j] == Ok(false) {
              if j > 0 { assert rs[j] == tail[j - 1]; }
            }
          }
        }
        forall k | 0 <= k < |rs| && (rs[k] == Ok(true) || rs[k].Err?)
          && (forall j :: 0 <= j < k ==> rs[j] == Ok(false))
          ensures k > 0 && (forall j :: 0 <= j < k - 1 ==> tail[j] == Ok(false))
        {
          forall j | 0 <= j < k - 1 ensures tail[j] == Ok(false) {
            assert tail[j] == rs[j + 1];
          }
        }
      } else {
        assert !(forall k :: 0 <= k < |rs| ==> rs[k] == Ok(false));
      }
    }
  }

  /** `FirstFalse` is false iff some outcome is false and every outcome
      before it is true; true iff every outcome is true; an error iff the
      first outcome that is not true is that error. */
  lemma {:induction false} FirstFalseMeaning<E>(rs: seq<Result<bool, E>>)
    ensures FirstFalse(rs) == Ok(false) <==>
      exists k :: 0 <= k < |rs| && rs[k] == Ok(false) && forall j :: 0 <= j < k ==> rs[j] == Ok(true)
    ensures FirstFalse(rs) == Ok(true) <==> forall k :: 0 <= k < |rs| ==> rs[k] == Ok(true)
    ensures FirstFalse(rs).Err? ==>
      exists k :: 0 <= k < |rs| && rs[k] == Err(FirstFalse(rs).error) && forall j :: 0 <= j < k ==> rs[j] == Ok(true)
  {
    if |rs| > 0 {
      var tail := rs[1..];
      FirstFalseMeaning(tail);
      assert forall k :: 1 <= k < |rs| ==> rs[k] == tail[k - 1];
      if rs[0] == Ok(true) {
        var r := FirstFalse(tail);
        assert FirstFalse(rs) == r;
        if r == Ok(false) || r.Err? {
          var k :| 0 <= k < |tail| && (if r.Err? then tail[k] == Err(r.error) else tail[k] == Ok(false))
            && forall j :: 0 <= j < k ==> tail[j] == Ok(true);
          assert forall j :: 0 <= j < k + 1 ==> rs[j] == Ok(true) by {
            forall j | 0 <= j < k + 1 ensures rs[j] == Ok(true) {
              if j > 0 { assert rs[j] == tail[j - 1]; }
            }
          }
        }
        forall k | 0 <= k < |rs| && (rs[k] == Ok(false) || rs[k].Err?)
          && (forall j :: 0 <= j < k ==> rs[j] == Ok(true))
          ensures k > 0 && (forall j :: 0 <= j < k - 1 ==> tail[j] == Ok(true))
        {
          forall j | 0 <= j < k - 1 ensures tail[j] == Ok(true) {
            assert tail[j] == rs[j + 1];
          }
        }
      } else {
        assert !(forall k :: 0 <= k < |rs| ==> rs[k] == Ok(true));
      }
    }
  }

  // ---------------------------------------------------------------------
  // What an expression means

  /** A string split on `||` is evaluated as `any`: the left-to-right scan
      of its parts' outcomes that stops at the first true one
      (`FirstTrueMeaning` spells out what that scan returns). */
  lemma EvalOr(vars: Env, s: string)
    requires |SplitOn(s, "||")| > 1
    ensures EvalExpr(vars, s) == FirstTrue(Outcomes(vars, SplitOn(s, "||")))
  {
    AnyPartScan(vars, SplitOn(s, "||"), |s|);
  }

  /** A string without `||` but split on `&&` is evaluated as `all`: the
      left-to-right scan of its parts' outcomes that stops at the first
      false one (`FirstFalseMeaning`). */
  lemma EvalAnd(vars: Env, s: string)
    requires !Contains(s, "||") && |SplitOn(s, "&&")| > 1
    ensures EvalExpr(vars, s) == FirstFalse(Outcomes(vars, SplitOn(s, "&&")))
  {
    AllPartsScan(vars, SplitOn(s, "&&"), |s|);
  }

  /** The characters of `||` and `&&`. */
  predicate IsConnectiveChar(c: char) {
    c == '|' || c == '&'
  }

  /** `!` negates: a doubled `!` gives back the value, and an error passes
      through unchanged. */
  lemma DoubleNegation(vars: Env, s: string)
    requires forall i :: 0 <= i < |s| ==> !IsConnectiveChar(s[i])
    ensures EvalExpr(vars, "!!" + s) == EvalExpr(vars, s)
  {
    var t := "!!" + s;
    var u := "!" + s;
    forall i | 0 <= i < |u| ensures !IsConnectiveChar(u[i]) {
      if i >= 1 { assert u[i] == s[i - 1]; }
    }
    forall i | 0 <= i < |t| ensures !IsConnectiveChar(t[i]) {
      if i >= 1 { assert t[i] == u[i - 1]; }
    }
    assert t[1..] == u;
    assert u[1..] == s;
    NegationStep(vars, t);
    NegationStep(vars, u);
  }

  /** A leading `!` in a text without connectives negates the rest. */
  lemma NegationStep(vars: Env, u: string)
    requires |u| > 0 && u[0] == '!'
    requires forall i :: 0 <= i < |u| ==> !IsConnectiveChar(u[i])
    ensures EvalExpr(vars, u) == match EvalExpr(vars, u[1..]) case Ok(b) => Ok(!b) case Err(e) => Err(e)
  {
    SplitOnAbsent(u, "||");
    SplitOnAbsent(u, "&&");
    assert u[..1] == "!";
  }

  /** A plain value (variable, version literal or number) is true iff it is
      non-zero. */
  lemma ValueMeaning(vars: Env, s: string, v: int)
    requires forall i :: 0 <= i < |s| ==> !IsConnectiveChar(s[i])
    requires !StartsWith(s, "!")
    requires EvalVarOrNull(vars, s) == Some(v)
    ensures EvalExpr(vars, s) == Ok(v != 0)
  {
    SplitOnAbsent(s, "||");
    SplitOnAbsent(s, "&&");
  }

  /** A dotted version literal `a.b.c` evaluates to `a*10000 + b*100 + c`
      in 32-bit arithmetic, whatever further `.`-segments follow. */
  lemma VersionLiteral(vars: Env, a: nat, b: nat, c: nat, tail: string)
    requires a <= IntMax && b <= IntMax && c <= IntMax
    requires tail == "" || tail[0] == '.'
    ensures var s := NatToString(a) + "." + NatToString(b) + "." + NatToString(c) + tail;
      && Contains(s, ".") && VersionValue(s) == Some(VersionNumber(a, b, c))
      && (s !in vars ==> EvalVarOrNull(vars, s) == Some(VersionNumber(a, b, c)))
  {
    var sa, sb, sc := NatToString(a), NatToString(b), NatToString(c);
    DigitsHaveNoDot(sa);
    DigitsHaveNoDot(sb);
    DigitsHaveNoDot(sc);
    SplitThree(sa, sb, sc, tail);
    ParsePrintedInt(a);
    ParsePrintedInt(b);
    ParsePrintedInt(c);
    VersionOfParts(sa + "." + sb + "." + sc + tail, SplitOn(sa + "." + sb + "." + sc + tail, "."), a, b, c);
  }

  /** The first three `.`-segments of `x.y.z` followed by further segments. */
  lemma SplitThree(x: string, y: string, z: string, tail: string)
    requires forall i :: 0 <= i < |x| ==> x[i] != "."[0]
    requires forall i :: 0 <= i < |y| ==> y[i] != "."[0]
    requires forall i :: 0 <= i < |z| ==> z[i] != "."[0]
    requires tail == "" || tail[0] == '.'
    ensures var ps := SplitOn(x + "." + y + "." + z + tail, ".");
      |ps| >= 3 && ps[0] == x && ps[1] == y && ps[2] == z
  {
    var w := z + tail;
    assert x + "." + y + "." + z + tail == x + "." + (y + "." + w);
    SplitOnConcat(x, ".", y + "." + w);
    SplitOnConcat(y, ".", w);
    SplitFirstSegment(z, tail);
  }

  lemma SplitFirstSegment(z: string, tail: string)
    requires forall i :: 0 <= i < |z| ==> z[i] != "."[0]
    requires tail == "" || tail[0] == '.'
    ensures SplitOn(z + tail, ".")[0] == z
  {
    if tail == "" {
      assert z + tail == z;
      SplitOnAbsent(z, ".");
    } else {
      assert z + tail == z + "." + tail[1..];
      SplitOnConcat(z, ".", tail[1..]);
    }
  }

  /** A two-segment version literal `a.b` has patch level 0. */
  lemma ShortVersionLiteral(vars: Env, a: nat, b: nat)
    requires a <= IntMax && b <= IntMax
    ensures var s := NatToString(a) + "." + NatToString(b);
      && Contains(s, ".") && VersionValue(s) == Some(VersionNumber(a, b, 0))
      && (s !in vars ==> EvalVarOrNull(vars, s) == Some(VersionNumber(a, b, 0)))
  {
    var sa, sb := NatToString(a), NatToString(b);
    DigitsHaveNoDot(sa);
    DigitsHaveNoDot(sb);
    SplitOnConcat(sa, ".", sb);
    SplitOnAbsent(sb, ".");
    ParsePrintedInt(a);
    ParsePrintedInt(b);
    ParseZero();
    VersionOfParts(sa + "." + sb, [sa, sb], a, b, 0);
  }

  /** A decimal numeral that is not a variable evaluates to its value. */
  lemma IntegerLiteral(vars: Env, n: nat)
    requires n <= IntMax
    ensures NatToString(n) !in vars ==> EvalVarOrNull(vars, NatToString(n)) == Some(n)
  {
    var t := NatToString(n);
    DigitsHaveNoDot(t);
    RemoveCharAbsent(t, '_');
    ParsePrintedInt(n);
  }

  lemma ParseZero()
    ensures ParseInt32("0") == Some(0)
  {
    ParsePrintedInt(0);
    assert NatToString(0) == "0";
  }

  /** How `VersionValue` combines the parsed segments. */
  lemma VersionOfParts(s: string, segs: seq<string>, a: int, b: int, c: int)
    requires Contains(s, ".") && 2 <= |segs|
    requires SplitOn(s, ".") == segs
    requires ParseInt32(segs[0]) == Some(a) && ParseInt32(segs[1]) == Some(b)
    requires ParseInt32((segs + ["0"])[2]) == Some(c)
    ensures VersionValue(s) == Some(VersionNumber(a, b, c))
  {
    var parts := segs + ["0"];
    assert parts[0] == segs[0] && parts[1] == segs[1];
  }

  lemma DigitsHaveNoDot(s: string)
    requires AllDigits(s)
    ensures forall i :: 0 <= i < |s| ==> s[i] != "."[0]
  {
  }

  /** The backtracking matcher stops at the rightmost position where an
      operator fits. */
  lemma {:induction false} LastOperatorFinds(s: string, i: nat, p: nat, op: Op)
    requires 1 <= p <= i
    requires OperatorAt(s, p) == Some(op)
    requires NoOperatorBetween(s, p, i)
    ensures LastOperator(s, i) == Some(Split(p, op))
    decreases i
  {
    if i > p {
      assert forall o: Op :: !FitsAt(s, o, i);
      LastOperatorFinds(s, i - 1, p, op);
    }
  }

  /** `lhs OP rhs` compares the two values as integers, when the right-hand
      side holds no operator character (so the split is at OP) and the
      left-hand side holds no `.` (so the whole text is not a version). */
  lemma ComparisonMeaning(vars: Env, lhs: string, op: Op, rhs: string)
    requires |lhs| >= 1 && |rhs| >= 1 && lhs[0] != '!'
    requires forall i :: 0 <= i < |lhs| ==> !IsConnectiveChar(lhs[i]) && lhs[i] != '.' && !IsLineTerminator(lhs[i])
    requires forall i :: 0 <= i < |rhs| ==> !IsConnectiveChar(rhs[i]) && !IsOperatorChar(rhs[i]) && !IsLineTerminator(rhs[i])
    requires lhs + op.Text() + rhs !in vars
    ensures var l, r := EvalVar(vars, Trim(lhs)), EvalVar(vars, Trim(rhs));
      && (l.Ok? && r.Ok? ==> EvalExpr(vars, lhs + op.Text() + rhs) == Ok(Compare(op, l.value, r.value)))
      && (l.Err? ==> EvalExpr(vars, lhs + op.Text() + rhs) == Err(UnknownVariable(Trim(lhs))))
      && (l.Ok? && r.Err? ==> EvalExpr(vars, lhs + op.Text() + rhs) == Err(UnknownVariable(Trim(rhs))))
  {
    var s := lhs + op.Text() + rhs;
    ComparisonIsAtom(vars, lhs, op, rhs);
    NotConnectiveOrTerminator(lhs, op, rhs);
    NotAValue(vars, lhs, op, rhs);
    ComparisonSplit(lhs, op, rhs);
  }

  /** `lhs OP rhs` has no connective and no leading `!`, so it is
      evaluated as an atom. */
  lemma ComparisonIsAtom(vars: Env, lhs: string, op: Op, rhs: string)
    requires |lhs| >= 1 && lhs[0] != '!'
    requires forall i :: 0 <= i < |lhs| ==> !IsConnectiveChar(lhs[i]) && !IsLineTerminator(lhs[i])
    requires forall i :: 0 <= i < |rhs| ==> !IsConnectiveChar(rhs[i]) && !IsLineTerminator(rhs[i])
    ensures EvalExpr(vars, lhs + op.Text() + rhs) == EvalAtom(vars, lhs + op.Text() + rhs)
  {
    var s := lhs + op.Text() + rhs;
    NotConnectiveOrTerminator(lhs, op, rhs);
    SplitOnAbsent(s, "||");
    SplitOnAbsent(s, "&&");
    assert !StartsWith(s, "!") by { assert s[0] == lhs[0]; }
  }

  lemma NotConnectiveOrTerminator(lhs: string, op: Op, rhs: string)
    requires forall i :: 0 <= i < |lhs| ==> !IsConnectiveChar(lhs[i]) && !IsLineTerminator(lhs[i])
    requires forall i :: 0 <= i < |rhs| ==> !IsConnectiveChar(rhs[i]) && !IsLineTerminator(rhs[i])
    ensures var s := lhs + op.Text() + rhs;
      forall i :: 0 <= i < |s| ==> !IsConnectiveChar(s[i]) && !IsLineTerminator(s[i])
  {
    var s := lhs + op.Text() + rhs;
    var p, t := |lhs|, op.Text();
    forall i | 0 <= i < |s| ensures !IsConnectiveChar(s[i]) && !IsLineTerminator(s[i]) {
      if i < p {
        assert s[i] == lhs[i];
      } else if i < p + |t| {
        assert s[i] == t[i - p];
      } else {
        assert s[i] == rhs[i - p - |t|];
      }
    }
  }

  /** The matcher splits `lhs OP rhs` at OP when `rhs` holds no operator
      character. */
  lemma ComparisonSplit(lhs: string, op: Op, rhs: string)
    requires |lhs| >= 1 && |rhs| >= 1
    requires NoLineTerminator(lhs + op.Text() + rhs)
    requires forall i :: 0 <= i < |rhs| ==> !IsOperatorChar(rhs[i])
    ensures MatchComparison(lhs + op.Text() + rhs) == Some(Comparison(lhs, op, rhs))
  {
    var s := lhs + op.Text() + rhs;
    LastOperatorOfSplit(lhs, op, rhs);
    ConcatPieces(lhs, op.Text(), rhs);
    assert |s| >= 2;
    MatchAtLastOperator(s, |lhs|, op);
  }

  /** The match is cut at the rightmost operator. */
  lemma MatchAtLastOperator(s: string, p: nat, op: Op)
    requires NoLineTerminator(s) && |s| >= 2
    requires LastOperator(s, |s| - 1) == Some(Split(p, op))
    ensures MatchComparison(s) == Some(Comparison(s[..p], op, s[p + |op.Text()|..]))
  {
  }

  /** The rightmost operator of `lhs OP rhs` is OP. */
  lemma LastOperatorOfSplit(lhs: string, op: Op, rhs: string)
    requires |lhs| >= 1 && |rhs| >= 1
    requires forall i :: 0 <= i < |rhs| ==> !IsOperatorChar(rhs[i])
    ensures var s := lhs + op.Text() + rhs; LastOperator(s, |s| - 1) == Some(Split(|lhs|, op))
  {
    var s := lhs + op.Text() + rhs;
    NothingFitsAfter(lhs, op, rhs);
    OperatorAtSplit(lhs, op, rhs);
    LastOperatorFinds(s, |s| - 1, |lhs|, op);
  }

  /** The outer pieces of a three-piece concatenation are cut back out of it. */
  lemma ConcatPieces(a: string, b: string, c: string)
    ensures (a + b + c)[..|a|] == a && (a + b + c)[|a| + |b|..] == c
  {
  }

  lemma NothingFitsAfter(lhs: string, op: Op, rhs: string)
    requires |rhs| >= 1
    requires forall i :: 0 <= i < |rhs| ==> !IsOperatorChar(rhs[i])
    ensures var s := lhs + op.Text() + rhs; NoOperatorBetween(s, |lhs|, |s| - 1)
  {
    var s := lhs + op.Text() + rhs;
    var p, t := |lhs|, op.Text();
    forall j: nat, o: Op | p < j <= |s| - 1 ensures !FitsAt(s, o, j) {
      if j >= p + |t| {
        assert s[j] == rhs[j - p - |t|];
      } else {
        assert s[j + 1] == rhs[0];
      }
    }
  }

  lemma OperatorAtSplit(lhs: string, op: Op, rhs: string)
    requires |rhs| >= 1
    requires forall i :: 0 <= i < |rhs| ==> !IsOperatorChar(rhs[i])
    ensures OperatorAt(lhs + op.Text() + rhs, |lhs|) == Some(op)
  {
    var s := lhs + op.Text() + rhs;
    var p, t := |lhs|, op.Text();
    assert s[p] == t[0];
    assert |t| == 2 ==> s[p + 1] == t[1];
    assert s[p + |t|] == rhs[0];
  }

  /** The text of a comparison is neither a variable, nor a version, nor
      a number. */
  lemma NotAValue(vars: Env, lhs: string, op: Op, rhs: string)
    requires |lhs| >= 1 && |rhs| >= 1
    requires forall i :: 0 <= i < |lhs| ==> lhs[i] != '.'
    requires lhs + op.Text() + rhs !in vars
    ensures EvalVarOrNull(vars, lhs + op.Text() + rhs).None?
  {
    var s := lhs + op.Text() + rhs;
    var p := |lhs|;
    assert s[p] == op.Text()[0];
    if Contains(s, ".") {
      DottedComparisonFails(lhs, op, rhs);
    } else {
      RemoveCharKeeps(s, '_', p);
      var t := RemoveChar(s, '_');
      var k :| 0 <= k < |t| && t[k] == op.Text()[0];
      ParseInt32Shape(t);
    }
  }

  /** A comparison text with a `.` on its right-hand side is no version:
      its part before the first `.` holds the operator. */
  lemma DottedComparisonFails(lhs: string, op: Op, rhs: string)
    requires |lhs| >= 1 && |rhs| >= 1
    requires forall i :: 0 <= i < |lhs| ==> lhs[i] != '.'
    requires Contains(lhs + op.Text() + rhs, ".")
    ensures VersionValue(lhs + op.Text() + rhs).None?
  {
    var s := lhs + op.Text() + rhs;
    var p := |lhs|;
    assert s[p] == op.Text()[0];
    var i := IndexOf(s, ".").value;
    IndexOfOne(s, '.');
    assert forall k :: 0 <= k < p ==> s[k] == lhs[k];
    assert i > p;
    SplitOnHead(s, ".");
    var first := SplitOn(s, ".")[0];
    assert first[p] == op.Text()[0];
    ParseInt32Shape(first);
  }

  /** Two parts joined by `||`: the first true outcome wins. */
  lemma OrOfTwo(vars: Env, x: string, y: string)
    requires forall i :: 0 <= i < |x| ==> x[i] != '|'
    requires forall i :: 0 <= i < |y| ==> y[i] != '|'
    ensures EvalExpr(vars, x + "||" + y) == FirstTrue([EvalExpr(vars, Trim(x)), EvalExpr(vars, Trim(y))])
  {
    SplitOnConcat(x, "||", y);
    SplitOnAbsent(y, "||");
    var ps := SplitOn(x + "||" + y, "||");
    assert ps == [x, y];
    EvalOr(vars, x + "||" + y);
    OutcomesOfTwo(vars, x, y);
    assert EvalExpr(vars, x + "||" + y) == FirstTrue(Outcomes(vars, [x, y]));
  }

  lemma OutcomesOfTwo(vars: Env, x: string, y: string)
    ensures Outcomes(vars, [x, y]) == [EvalExpr(vars, Trim(x)), EvalExpr(vars, Trim(y))]
  {
  }

  /** Two parts joined by `&&`: the first false outcome wins. */
  lemma AndOfTwo(vars: Env, x: string, y: string)
    requires forall i :: 0 <= i < |x| ==> !IsConnectiveChar(x[i])
    requires forall i :: 0 <= i < |y| ==> !IsConnectiveChar(y[i])
    ensures EvalExpr(vars, x + "&&" + y) == FirstFalse([EvalExpr(vars, Trim(x)), EvalExpr(vars, Trim(y))])
  {
    var s := x + "&&" + y;
    NoBarIn(x, y);
    SplitOnAbsent(s, "||");
    SplitOnConcat(x, "&&", y);
    SplitOnAbsent(y, "&&");
    var ps := SplitOn(s, "&&");
    assert ps == [x, y];
    EvalAnd(vars, s);
    OutcomesOfTwo(vars, x, y);
    assert EvalExpr(vars, s) == FirstFalse(Outcomes(vars, [x, y]));
  }

  /** `&&` binds tighter than `||`: `a && b || c && d` is
      `(a && b) || (c && d)`, each side scanned left to right. */
  lemma Precedence(vars: Env, a: string, b: string, c: string, d: string)
    requires forall i :: 0 <= i < |a| ==> !IsConnectiveChar(a[i])
    requires forall i :: 0 <= i < |b| ==> !IsConnectiveChar(b[i])
    requires forall i :: 0 <= i < |c| ==> !IsConnectiveChar(c[i])
    requires forall i :: 0 <= i < |d| ==> !IsConnectiveChar(d[i])
    requires |a| > 0 && !IsWhitespace(a[0]) && |d| > 0 && !IsWhitespace(d[|d| - 1])
    requires |b| > 0 && !IsWhitespace(b[|b| - 1]) && |c| > 0 && !IsWhitespace(c[0])
    ensures EvalExpr(vars, a + "&&" + b + "||" + c + "&&" + d) ==
      FirstTrue([FirstFalse([EvalExpr(vars, Trim(a)), EvalExpr(vars, Trim(b))]),
                 FirstFalse([EvalExpr(vars, Trim(c)), EvalExpr(vars, Trim(d))])])
  {
    var x, y := a + "&&" + b, c + "&&" + d;
    PrecedenceShape(a, b, c, d);
    SideShape(a, b);
    SideShape(c, d);
    OrOfTwo(vars, x, y);
    AndOfTwo(vars, a, b);
    AndOfTwo(vars, c, d);
  }

  /** `a && b || c && d` is its two `&&` sides joined by `||`. */
  lemma PrecedenceShape(a: string, b: string, c: string, d: string)
    ensures a + "&&" + b + "||" + c + "&&" + d == (a + "&&" + b) + "||" + (c + "&&" + d)
  {
  }

  /** One `&&` side of `a && b || c && d` is already trimmed and free of `|`. */
  lemma SideShape(a: string, b: string)
    requires forall i :: 0 <= i < |a| ==> !IsConnectiveChar(a[i])
    requires forall i :: 0 <= i < |b| ==> !IsConnectiveChar(b[i])
    requires |a| > 0 && !IsWhitespace(a[0]) && |b| > 0 && !IsWhitespace(b[|b| - 1])
    ensures Trim(a + "&&" + b) == a + "&&" + b
    ensures forall i :: 0 <= i < |a + "&&" + b| ==> (a + "&&" + b)[i] != '|'
  {
    NoBarIn(a, b);
    JoinedUnchanged(a, b);
  }

  lemma JoinedUnchanged(a: string, b: string)
    requires |a| > 0 && !IsWhitespace(a[0]) && |b| > 0 && !IsWhitespace(b[|b| - 1])
    ensures Trim(a + "&&" + b) == a + "&&" + b
  {
    var x := a + "&&" + b;
    assert x[0] == a[0] && x[|x| - 1] == b[|b| - 1];
    TrimUnchanged(x);
  }

  lemma NoBarIn(a: string, b: string)
    requires forall i :: 0 <= i < |a| ==> !IsConnectiveChar(a[i])
    requires forall i :: 0 <= i < |b| ==> !IsConnectiveChar(b[i])
    ensures forall i :: 0 <= i < |a + "&&" + b| ==> (a + "&&" + b)[i] != '|'
  {
    var s := a + "&&" + b;
    forall i | 0 <= i < |s| ensures s[i] != '|' {
      if i < |a| { assert s[i] == a[i]; }
      else if i >= |a| + 2 { assert s[i] == b[i - |a| - 2]; }
    }
  }
}
