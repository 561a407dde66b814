/** The line rewriter of the conditional-comment preprocessor
    (`CommentPreprocessor.convertSource`). It walks the source lines
    together with their remapped versions, keeps a stack of open
    `if` blocks, and for every line decides which text to emit: the
    remapped line, the original line, a commented-out form or an
    uncommented form, and whether the remapper's errors for that line
    count. */
module Preprocessor {
  import opened Wrappers
  import opened Text
  import opened Expressions

  // ---------------------------------------------------------------------
  // Keywords

  /** The directive prefixes of one comment syntax (`Keywords`). */
  datatype Keywords = Keywords(
    disableRemap: string,
    enableRemap: string,
    ifKw: string,
    ifdef: string,
    elseif: string,
    elseKw: string,
    endif: string,
    eval: string)

  /** `DEFAULT_KEYWORDS`, for Java and Kotlin sources. */
  const DefaultKeywords := Keywords(
    "//#disable-remap", "//#enable-remap", "//#if", "//#ifdef",
    "//#elseif", "//#else", "//#endif", "//$$")

  /** `CFG_KEYWORDS`, for configuration files with `#` comments. */
  const CfgKeywords := Keywords(
    "##disable-remap", "##enable-remap", "##if", "##ifdef",
    "##elseif", "##else", "##endif", "#$$")

  /** What a trimmed line is taken for. */
  datatype Directive = If | ElseIf | Else | IfDef | EndIf | DisableRemap | EnableRemap | Code {
    /** Position in the dispatch chain: lower ranks are tried first. */
    function Rank(): nat {
      match this
      case If => 0
      case ElseIf => 1
      case Else => 2
      case IfDef => 3
      case EndIf => 4
      case DisableRemap => 5
      case EnableRemap => 6
      case Code => 7
    }
  }

  /** The prefix that selects a directive (empty for ordinary code). */
  function Keyword(kws: Keywords, d: Directive): string {
    match d
    case If => kws.ifKw
    case ElseIf => kws.elseif
    case Else => kws.elseKw
    case IfDef => kws.ifdef
    case EndIf => kws.endif
    case DisableRemap => kws.disableRemap
    case EnableRemap => kws.enableRemap
    case Code => ""
  }

  /** The directive tried after `d` in the dispatch chain. */
  function Next(d: Directive): (e: Directive)
    requires d != Code
    ensures e.Rank() == d.Rank() + 1
  {
    match d
    case If => ElseIf
    case ElseIf => Else
    case Else => IfDef
    case IfDef => EndIf
    case EndIf => DisableRemap
    case DisableRemap => EnableRemap
    case EnableRemap => Code
  }

  /** The `startsWith` chain of `convertSource`, from `d` onwards. */
  function ClassifyFrom(kws: Keywords, trimmed: string, d: Directive): (r: Directive)
    ensures r != Code ==> StartsWith(trimmed, Keyword(kws, r))
    decreases 7 - d.Rank()
  {
    if d == Code then Code
    else if StartsWith(trimmed, Keyword(kws, d)) then d
    else ClassifyFrom(kws, trimmed, Next(d))
  }

  /** What a trimmed line is dispatched as. */
  function Classify(kws: Keywords, trimmed: string): (r: Directive)
    ensures r != Code ==> StartsWith(trimmed, Keyword(kws, r))
  {
    ClassifyFrom(kws, trimmed, If)
  }

  lemma {:induction false} ClassifyFromMeaning(kws: Keywords, trimmed: string, d: Directive)
    ensures var r := ClassifyFrom(kws, trimmed, d);
      && d.Rank() <= r.Rank()
      && (forall e: Directive :: d.Rank() <= e.Rank() < r.Rank() ==> !StartsWith(trimmed, Keyword(kws, e)))
    decreases 7 - d.Rank()
  {
    if d != Code && !StartsWith(trimmed, Keyword(kws, d)) {
      ClassifyFromMeaning(kws, trimmed, Next(d));
    }
  }

  /** A line is dispatched as the first directive, in the order `if`,
      `elseif`, `else`, `ifdef`, `endif`, `disable-remap`,
      `enable-remap`, whose keyword it starts with, and as code exactly
      when it starts with none of them. */
  lemma ClassifyMeaning(kws: Keywords, trimmed: string)
    ensures var d := Classify(kws, trimmed);
      && (d != Code ==> StartsWith(trimmed, Keyword(kws, d)))
      && (forall e: Directive :: e.Rank() < d.Rank() ==> !StartsWith(trimmed, Keyword(kws, e)))
  {
    ClassifyFromMeaning(kws, trimmed, If);
  }

  // ---------------------------------------------------------------------
  // State

  /** An open `if` block (`IfStackEntry`). */
  datatype IfStackEntry = IfStackEntry(currentValue: bool, elseFound: bool, trueFound: bool)

  /** The walker's state between lines: the block stack, the indentation
      of each block's directive line, and the two switches. */
  datatype Frame = Frame(stack: seq<IfStackEntry>, indents: seq<string>, active: bool, remapActive: bool)

  const Initial := Frame([], [], true, true)

  predicate AllCurrent(stack: seq<IfStackEntry>) {
    forall i :: 0 <= i < |stack| ==> stack[i].currentValue
  }

  lemma AllCurrentPush(stack: seq<IfStackEntry>, e: IfStackEntry)
    ensures AllCurrent(stack + [e]) == (AllCurrent(stack) && e.currentValue)
  {
    assert (stack + [e])[|stack|] == e;
    assert forall i :: 0 <= i < |stack| ==> (stack + [e])[i] == stack[i];
  }

  /** The invariant the walker keeps: one indentation per open block, and
      `active` is the conjunction of the blocks' current values. */
  predicate Consistent(fr: Frame) {
    |fr.indents| == |fr.stack| && fr.active == AllCurrent(fr.stack)
  }

  /** Why a conversion stops. Every `ParserException` carries the 1-based
      line number; `UnknownVariable` is the `NoSuchElementException` of
      `evalVar`, which the condition evaluator does not translate, and
      `IndentOutOfRange` the exception `substring` throws when the
      original line is shorter than the block's indentation. */
  datatype Failure =
    | MissingSpace(line: nat)
    | InvalidCondition(expr: string, line: nat)
    | UnknownVariable(name: string)
    | UnexpectedElseIf(line: nat)
    | ElseIfAfterElse(line: nat)
    | UnexpectedElse(line: nat)
    | UnexpectedEndIf(line: nat)
    | RemapAlreadyDisabled(line: nat)
    | RemapNotDisabled(line: nat)
    | IndentOutOfRange(line: nat)
    | MissingEndIf

  /** A remapped line and the errors the remapper reported for it. */
  datatype Mapped = Mapped(text: string, errors: seq<string>)

  /** The text chosen for a line, and whether its errors are ignored. */
  datatype Emitted = Emitted(text: string, ignoreErrors: bool)

  /** One reported remapping error (`fileName:n: message`). */
  datatype Diagnostic = Diagnostic(line: nat, message: string)

  // ---------------------------------------------------------------------
  // Directives

  /** How a condition is evaluated. The walk is written over any
      evaluator; `convertSource` uses `evalExpr` on the instance's
      variables. */
  type Evaluator = string -> Result<bool, EvalError>

  /** `evalCondition`: the text after the keyword must start with a
      space; an invalid expression becomes a parser error on line `n`. */
  function EvalCondition(evaluate: Evaluator, condition: string, n: nat): (r: Result<bool, Failure>)
    ensures r.Ok? <==> StartsWith(condition, " ") && evaluate(Trim(condition)).Ok?
    ensures r.Ok? ==> r.value == evaluate(Trim(condition)).value
  {
    if !StartsWith(condition, " ") then Err(MissingSpace(n))
    else
      match evaluate(Trim(condition))
      case Ok(b) => Ok(b)
      case Err(err) =>
        if err.InvalidExpression? then Err(InvalidCondition(err.expr, n))
        else Err(Failure.UnknownVariable(err.name))
  }

  /** Opens a block (`if` and `ifdef`). */
  function Open(fr: Frame, result: bool, indent: string): (r: Frame)
    requires Consistent(fr)
    ensures Consistent(r)
    ensures |r.stack| == |fr.stack| + 1 && r.stack[..|fr.stack|] == fr.stack
    ensures r.stack[|fr.stack|] == IfStackEntry(result, false, result)
  {
    AllCurrentPush(fr.stack, IfStackEntry(result, false, result));
    Frame(fr.stack + [IfStackEntry(result, false, result)], fr.indents + [indent],
          fr.active && result, fr.remapActive)
  }

  /** Replaces the innermost block (`elseif` and `else`); `active` is
      recomputed over the whole stack. */
  function Replace(fr: Frame, entry: IfStackEntry, indent: string): (r: Frame)
    requires Consistent(fr) && |fr.stack| > 0
    ensures Consistent(r)
    ensures |r.stack| == |fr.stack| && r.stack[..|r.stack| - 1] == fr.stack[..|fr.stack| - 1]
  {
    var stack := fr.stack[..|fr.stack| - 1] + [entry];
    Frame(stack, fr.indents[..|fr.indents| - 1] + [indent], AllCurrent(stack), fr.remapActive)
  }

  /** Closes the innermost block (`endif`). */
  function Close(fr: Frame): (r: Frame)
    requires Consistent(fr) && |fr.stack| > 0
    ensures Consistent(r)
    ensures r.stack == fr.stack[..|fr.stack| - 1]
  {
    var stack := fr.stack[..|fr.stack| - 1];
    Frame(stack, fr.indents[..|fr.indents| - 1], AllCurrent(stack), fr.remapActive)
  }

  /** The `elseif` branch. A block whose condition was already true is
      switched off without looking at the new condition. */
  function ElseIfStep(evaluate: Evaluator, fr: Frame, n: nat, condition: string, indent: string): (r: Result<Frame, Failure>)
    requires Consistent(fr)
    ensures r.Ok? ==> Consistent(r.value)
    ensures r.Ok? ==> |r.value.stack| == |fr.stack|
  {
    if |fr.stack| == 0 then Err(UnexpectedElseIf(n))
    else
      var last := fr.stack[|fr.stack| - 1];
      if last.elseFound then Err(ElseIfAfterElse(n))
      else if last.trueFound then
        var stack := fr.stack[..|fr.stack| - 1] + [last.(currentValue := false)];
        AllCurrentPush(fr.stack[..|fr.stack| - 1], last.(currentValue := false));
        Ok(Frame(stack, fr.indents[..|fr.indents| - 1] + [indent], false, fr.remapActive))
      else
        var result :- EvalCondition(evaluate, condition, n);
        Ok(Replace(fr, IfStackEntry(result, false, result), indent))
  }

  /** The state change a directive line makes. */
  function ApplyDirective(evaluate: Evaluator, vars: Env, kws: Keywords, d: Directive, fr: Frame, n: nat, trimmed: string, line: string): (r: Result<Frame, Failure>)
    requires Consistent(fr)
    requires d != Code && StartsWith(trimmed, Keyword(kws, d))
    ensures r.Ok? ==> Consistent(r.value)
  {
    var condition := trimmed[|Keyword(kws, d)|..];
    match d
    case If =>
      var result :- EvalCondition(evaluate, condition, n);
      Ok(Open(fr, result, Indentation(line)))
    case ElseIf => ElseIfStep(evaluate, fr, n, condition, Indentation(line))
    case Else =>
      if |fr.stack| == 0 then Err(UnexpectedElse(n))
      else
        var last := fr.stack[|fr.stack| - 1];
        Ok(Replace(fr, IfStackEntry(!last.trueFound, true, last.trueFound), Indentation(line)))
    case IfDef => Ok(Open(fr, condition in vars, Indentation(line)))
    case EndIf =>
      if |fr.stack| == 0 then Err(UnexpectedEndIf(n)) else Ok(Close(fr))
    case DisableRemap =>
      if !fr.remapActive then Err(RemapAlreadyDisabled(n)) else Ok(fr.(remapActive := false))
    case EnableRemap =>
      if fr.remapActive then Err(RemapNotDisabled(n)) else Ok(fr.(remapActive := true))
  }

  // ---------------------------------------------------------------------
  // Code lines

  /** `line.replaceFirst(quote(eval) + " ?", "")`: removes the first
      occurrence of the eval marker and one space right after it. */
  function RemoveEval(line: string, eval: string): string {
    match IndexOf(line, eval)
    case None => line
    case Some(i) =>
      var j := i + |eval|;
      if j < |line| && line[j] == ' ' then line[..i] + line[j + 1..] else line[..i] + line[j..]
  }

  /** The uncommented form of an active line; a line left blank becomes empty. */
  function Uncomment(line: string, eval: string): string {
    var u := RemoveEval(line, eval);
    if |Trim(u)| == 0 then "" else u
  }

  /** The commented-out form of a newly disabled line: the block's
      indentation, the marker, a space, then the ORIGINAL line with as
      many leading characters dropped as the indentation is long. */
  function Comment(indent: string, eval: string, original: string): string
    requires |indent| <= |original|
  {
    indent + eval + " " + original[|indent|..]
  }

  /** The text emitted for a line that is not a directive. */
  function CodeLine(kws: Keywords, fr: Frame, n: nat, original: string, line: string, trimmed: string): (r: Result<Emitted, Failure>)
    requires Consistent(fr)
  {
    if fr.active then
      if StartsWith(trimmed, kws.eval) then Ok(Emitted(Uncomment(line, kws.eval), false))
      else if fr.remapActive then Ok(Emitted(line, false))
      else Ok(Emitted(original, true))
    else
      var indent := fr.indents[|fr.indents| - 1];
      if |trimmed| == 0 then Ok(Emitted(indent + kws.eval, false))
      else if !StartsWith(trimmed, kws.eval) && |indent| <= |Indentation(line)| then
        if |original| < |indent| then Err(IndentOutOfRange(n))
        else Ok(Emitted(Comment(indent, kws.eval, original), true))
      else Ok(Emitted(line, false))
  }

  // ---------------------------------------------------------------------
  // The walk

  /** One line: `n` is its 1-based number, `original` the source text and
      `line` the remapped text. */
  function Step(evaluate: Evaluator, vars: Env, kws: Keywords, fr: Frame, n: nat, original: string, line: string): (r: Result<(Frame, Emitted), Failure>)
    requires Consistent(fr)
    ensures r.Ok? ==> Consistent(r.value.0)
    ensures r.Ok? && Classify(kws, Trim(line)) != Code ==> r.value.1 == Emitted(line, false)
    ensures r.Ok? && Classify(kws, Trim(line)) == Code ==> r.value.0 == fr
  {
    var trimmed := Trim(line);
    var d := Classify(kws, trimmed);
    if d == Code then
      var em :- CodeLine(kws, fr, n, original, line, trimmed);
      Ok((fr, em))
    else
      var next :- ApplyDirective(evaluate, vars, kws, d, fr, n, trimmed, line);
      Ok((next, Emitted(line, false)))
  }

  // ---------------------------------------------------------------------
  // Properties of one step

  /** The structural errors: each of these directive lines throws a
      `ParserException` naming its line. */
  lemma StructuralErrors(evaluate: Evaluator, vars: Env, kws: Keywords, fr: Frame, n: nat, original: string, line: string)
    requires Consistent(fr)
    ensures var d := Classify(kws, Trim(line));
      var r := Step(evaluate, vars, kws, fr, n, original, line);
      && (d == If && !StartsWith(Trim(line)[|kws.ifKw|..], " ") ==> r == Err(MissingSpace(n)))
      && (d == ElseIf && |fr.stack| == 0 ==> r == Err(UnexpectedElseIf(n)))
      && (d == ElseIf && |fr.stack| > 0 && fr.stack[|fr.stack| - 1].elseFound ==> r == Err(ElseIfAfterElse(n)))
      && (d == Else && |fr.stack| == 0 ==> r == Err(UnexpectedElse(n)))
      && (d == EndIf && |fr.stack| == 0 ==> r == Err(UnexpectedEndIf(n)))
      && (d == DisableRemap && !fr.remapActive ==> r == Err(RemapAlreadyDisabled(n)))
      && (d == EnableRemap && fr.remapActive ==> r == Err(RemapNotDisabled(n)))
  {
  }

  /** Conversely, a step fails only with an error about its own line (or
      an unknown variable in a condition), never with a missing `endif`,
      and a code line only when the original is shorter than the block
      indentation it is to be cut at. */
  lemma StepFailures(evaluate: Evaluator, vars: Env, kws: Keywords, fr: Frame, n: nat, original: string, line: string)
    requires Consistent(fr)
    ensures var r := Step(evaluate, vars, kws, fr, n, original, line);
      && (r.Err? ==> !r.error.MissingEndIf? && (r.error.UnknownVariable? || r.error.line == n))
      && (r.Err? && Classify(kws, Trim(line)) == Code ==>
            r.error == IndentOutOfRange(n) && !fr.active && |original| < |fr.indents[|fr.indents| - 1]|)
  {
    var trimmed := Trim(line);
    var d := Classify(kws, trimmed);
    if d == Code {
      CodeLineFailures(kws, fr, n, original, line, trimmed);
    } else {
      DirectiveFailures(evaluate, vars, kws, d, fr, n, trimmed, line);
    }
  }

  /** A directive fails only with an error about its own line. */
  lemma DirectiveFailures(evaluate: Evaluator, vars: Env, kws: Keywords, d: Directive, fr: Frame, n: nat, trimmed: string, line: string)
    requires Consistent(fr)
    requires d != Code && StartsWith(trimmed, Keyword(kws, d))
    ensures var r := ApplyDirective(evaluate, vars, kws, d, fr, n, trimmed, line);
      r.Err? ==> !r.error.MissingEndIf? && (r.error.UnknownVariable? || r.error.line == n)
  {
  }

  /** A code line fails only when it is to be cut at a deeper indentation
      than it has. */
  lemma CodeLineFailures(kws: Keywords, fr: Frame, n: nat, original: string, line: string, trimmed: string)
    requires Consistent(fr)
    ensures var r := CodeLine(kws, fr, n, original, line, trimmed);
      r.Err? ==> r.error == IndentOutOfRange(n) && !fr.active && |original| < |fr.indents[|fr.indents| - 1]|
  {
  }

  /** An `elseif` after a branch that was taken switches its block off
      and does not evaluate its condition: any evaluator gives the same
      step. */
  lemma ElseIfAfterTaken(e1: Evaluator, e2: Evaluator, vars: Env, kws: Keywords, fr: Frame, n: nat, original: string, line: string)
    requires Consistent(fr) && Classify(kws, Trim(line)) == ElseIf
    requires |fr.stack| > 0 && fr.stack[|fr.stack| - 1].trueFound && !fr.stack[|fr.stack| - 1].elseFound
    ensures Step(e1, vars, kws, fr, n, original, line) == Step(e2, vars, kws, fr, n, original, line)
    ensures var r := Step(e1, vars, kws, fr, n, original, line);
      var last := fr.stack[|fr.stack| - 1];
      && r.Ok?
      && r.value.0.stack == fr.stack[..|fr.stack| - 1] + [last.(currentValue := false)]
      && !r.value.0.active
  {
  }

  /** `else` makes the block's value the negation of `trueFound`. */
  lemma ElseNegates(evaluate: Evaluator, vars: Env, kws: Keywords, fr: Frame, n: nat, original: string, line: string)
    requires Consistent(fr) && Classify(kws, Trim(line)) == Else && |fr.stack| > 0
    ensures var r := Step(evaluate, vars, kws, fr, n, original, line);
      var last := fr.stack[|fr.stack| - 1];
      && r.Ok?
      && r.value.0.stack == fr.stack[..|fr.stack| - 1] + [IfStackEntry(!last.trueFound, true, last.trueFound)]
      && r.value.0.active == (AllCurrent(fr.stack[..|fr.stack| - 1]) && !last.trueFound)
  {
    var stack := fr.stack[..|fr.stack| - 1];
    AllCurrentPush(stack, IfStackEntry(!fr.stack[|fr.stack| - 1].trueFound, true, fr.stack[|fr.stack| - 1].trueFound));
  }

  /** In an active region, an `if` whose condition holds makes the
      region after it active and the `else` after it inactive, and
      the other way round. */
  lemma IfElseExclusive(evaluate: Evaluator, vars: Env, kws: Keywords, fr: Frame, n: nat,
                        o1: string, l1: string, o2: string, l2: string)
    requires Consistent(fr) && fr.active
    requires Classify(kws, Trim(l1)) == If && Step(evaluate, vars, kws, fr, n, o1, l1).Ok?
    requires Classify(kws, Trim(l2)) == Else
    ensures var fr1 := Step(evaluate, vars, kws, fr, n, o1, l1).value.0;
      var r2 := Step(evaluate, vars, kws, fr1, n + 1, o2, l2);
      r2.Ok? && r2.value.0.active == !fr1.active
  {
    var fr1 := Step(evaluate, vars, kws, fr, n, o1, l1).value.0;
    assert fr1.stack[..|fr1.stack| - 1] == fr.stack;
    ElseNegates(evaluate, vars, kws, fr1, n + 1, o2, l2);
  }

  /** An `endif` right after an `if` restores the state before the `if`. */
  lemma EndIfUndoesIf(evaluate: Evaluator, vars: Env, kws: Keywords, fr: Frame, n: nat,
                      o1: string, l1: string, o2: string, l2: string)
    requires Consistent(fr)
    requires Classify(kws, Trim(l1)) == If && Step(evaluate, vars, kws, fr, n, o1, l1).Ok?
    requires Classify(kws, Trim(l2)) == EndIf
    ensures var fr1 := Step(evaluate, vars, kws, fr, n, o1, l1).value.0;
      Step(evaluate, vars, kws, fr1, n + 1, o2, l2) == Ok((fr, Emitted(l2, false)))
  {
    var fr1 := Step(evaluate, vars, kws, fr, n, o1, l1).value.0;
    assert fr1.stack[..|fr1.stack| - 1] == fr.stack;
    assert fr1.indents[..|fr1.indents| - 1] == fr.indents;
  }

  /** The `ifdef` keyword of both built-in keyword sets starts with the
      `if` keyword, so the `ifdef` branch is never taken with them. */
  lemma IfDefUnreachable(trimmed: string)
    ensures Classify(DefaultKeywords, trimmed) != IfDef
    ensures Classify(CfgKeywords, trimmed) != IfDef
  {
    ClassifyMeaning(DefaultKeywords, trimmed);
    ClassifyMeaning(CfgKeywords, trimmed);
    PrefixOfPrefix(trimmed, DefaultKeywords.ifKw, DefaultKeywords.ifdef);
    PrefixOfPrefix(trimmed, CfgKeywords.ifKw, CfgKeywords.ifdef);
  }

  lemma PrefixOfPrefix(s: string, p: string, q: string)
    requires StartsWith(q, p)
    ensures StartsWith(s, q) ==> StartsWith(s, p)
  {
    if StartsWith(s, q) {
      assert s[..|p|] == q[..|p|];
    }
  }

  /** Instead, `//#ifdef NAME` is read as `//#if` followed by `def NAME`,
      which lacks the space before the condition. */
  lemma IfDefIsMissingSpace(evaluate: Evaluator, vars: Env, fr: Frame, n: nat, original: string, line: string, name: string)
    requires Consistent(fr) && Trim(line) == "//#ifdef" + name
    ensures Step(evaluate, vars, DefaultKeywords, fr, n, original, line) == Err(MissingSpace(n))
  {
    IfDefReadAsIf("//#ifdef" + name);
  }

  /** `//#ifdef NAME` starts with the `if` keyword, and what follows it
      does not start with a blank. */
  lemma IfDefReadAsIf(t: string)
    requires StartsWith(t, "//#ifdef")
    ensures Classify(DefaultKeywords, t) == If
    ensures !StartsWith(t[|DefaultKeywords.ifKw|..], " ")
  {
    assert StartsWith(t, "//#if");
    assert t[5..][0] == 'd';
  }

  /** With keywords where the `ifdef` branch is reachable, it opens a
      block that is on exactly when the name is a defined variable. */
  lemma IfDefOpens(evaluate: Evaluator, vars: Env, kws: Keywords, fr: Frame, n: nat, original: string, line: string)
    requires Consistent(fr) && Classify(kws, Trim(line)) == IfDef
    ensures var r := Step(evaluate, vars, kws, fr, n, original, line);
      && r.Ok?
      && r.value.0.stack == fr.stack + [IfStackEntry(Trim(line)[|kws.ifdef|..] in vars, false, Trim(line)[|kws.ifdef|..] in vars)]
      && r.value.0.active == (fr.active && Trim(line)[|kws.ifdef|..] in vars)
  {
  }

  /** In an active region a code line keeps its remapped text while
      remapping is on; with remapping off it falls back to the original
      text and its errors are ignored. */
  lemma ActiveCode(evaluate: Evaluator, vars: Env, kws: Keywords, fr: Frame, n: nat, original: string, line: string)
    requires Consistent(fr) && fr.active
    requires Classify(kws, Trim(line)) == Code && !StartsWith(Trim(line), kws.eval)
    ensures Step(evaluate, vars, kws, fr, n, original, line) ==
              Ok((fr, if fr.remapActive then Emitted(line, false) else Emitted(original, true)))
  {
  }

  /** In an inactive region a blank line becomes the block's indentation
      followed by the marker. */
  lemma InactiveBlank(evaluate: Evaluator, vars: Env, kws: Keywords, fr: Frame, n: nat, original: string, line: string)
    requires Consistent(fr) && !fr.active
    requires Classify(kws, Trim(line)) == Code && IsBlank(line)
    ensures Step(evaluate, vars, kws, fr, n, original, line) ==
              Ok((fr, Emitted(fr.indents[|fr.indents| - 1] + kws.eval, false)))
  {
    TrimMeaning(line);
  }

  /** In an inactive region a line indented at least as deep as the
      block is commented out: its ORIGINAL text is used and its errors
      are ignored. A line already carrying the marker is left alone, so
      commenting out is idempotent. */
  lemma InactiveComments(evaluate: Evaluator, vars: Env, kws: Keywords, fr: Frame, n: nat, original: string, line: string)
    requires Consistent(fr) && !fr.active
    requires Classify(kws, Trim(line)) == Code && !IsBlank(line)
    ensures var indent := fr.indents[|fr.indents| - 1];
      var r := Step(evaluate, vars, kws, fr, n, original, line);
      && (StartsWith(Trim(line), kws.eval) ==> r == Ok((fr, Emitted(line, false))))
      && (!StartsWith(Trim(line), kws.eval) && |indent| <= |Indentation(line)| && |indent| <= |original| ==>
            r == Ok((fr, Emitted(Comment(indent, kws.eval, original), true))))
      && (!StartsWith(Trim(line), kws.eval) && |indent| > |Indentation(line)| ==> r == Ok((fr, Emitted(line, false))))
  {
    TrimMeaning(line);
  }

  // ---------------------------------------------------------------------
  // Commenting out and back in

  lemma OccursAtHead(s: string, pat: string, j: nat)
    requires |pat| > 0
    ensures OccursAt(s, pat, j) ==> j < |s| && s[j] == pat[0]
  {
    if OccursAt(s, pat, j) {
      assert s[j..j + |pat|][0] == s[j];
    }
  }

  predicate IsIndent(s: string) {
    forall i :: 0 <= i < |s| ==> s[i] == ' ' || s[i] == '\t'
  }

  /** Removing the marker undoes commenting out: a line that starts with
      the block's indentation comes back unchanged. */
  lemma CommentRoundTrip(indent: string, eval: string, rest: string)
    requires IsIndent(indent)
    requires |eval| > 0 && eval[0] != ' ' && eval[0] != '\t'
    ensures RemoveEval(Comment(indent, eval, indent + rest), eval) == indent + rest
  {
    var line := Comment(indent, eval, indent + rest);
    assert (indent + rest)[|indent|..] == rest;
    assert line == indent + eval + " " + rest;
    assert OccursAt(line, eval, |indent|) by {
      assert line[|indent|..|indent| + |eval|] == eval;
    }
    forall j | 0 <= j < |indent|
      ensures !OccursAt(line, eval, j)
    {
      assert line[j] == indent[j];
      OccursAtHead(line, eval, j);
    }
    var i := IndexOf(line, eval).value;
    assert i == |indent|;
    assert line[|indent| + |eval|] == ' ';
    assert line[..i] == indent && line[i + |eval| + 1..] == rest;
  }

  /** When its block becomes active again, a line commented out with the
      default keywords is restored: the marker and the space after it
      go, the indentation stays. */
  lemma ReactivatedLine(evaluate: Evaluator, vars: Env, fr: Frame, n: nat, original: string, indent: string, rest: string)
    requires Consistent(fr) && fr.active
    requires IsIndent(indent) && !IsBlank(rest)
    ensures var line := indent + DefaultKeywords.eval + " " + rest;
      Step(evaluate, vars, DefaultKeywords, fr, n, original, line) == Ok((fr, Emitted(indent + rest, false)))
  {
    var eval := DefaultKeywords.eval;
    var line := indent + eval + " " + rest;
    assert IsBlank(indent);
    assert line == indent + (eval + (" " + rest));
    TrimLeading(indent, eval + (" " + rest));
    assert !IsBlank(" " + rest) by {
      var i :| 0 <= i < |rest| && !IsWhitespace(rest[i]);
      assert (" " + rest)[i + 1] == rest[i];
    }
    TrimKeepsPrefix(eval, " " + rest);
    EvalMarkerIsCode(Trim(line));
    CommentRoundTrip(indent, eval, rest);
    assert Comment(indent, eval, indent + rest) == line by {
      assert (indent + rest)[|indent|..] == rest;
    }
    assert !IsBlank(indent + rest) by {
      var i :| 0 <= i < |rest| && !IsWhitespace(rest[i]);
      assert (indent + rest)[|indent| + i] == rest[i];
    }
    TrimMeaning(indent + rest);
  }

  /** When the marker differs from every directive keyword at position
      `i`, a line that starts with the marker is code. */
  lemma MarkerIsCode(kws: Keywords, trimmed: string, i: nat)
    requires i < |kws.eval|
    requires forall e: Directive :: e != Code ==> i < |Keyword(kws, e)| && Keyword(kws, e)[i] != kws.eval[i]
    ensures StartsWith(trimmed, kws.eval) ==> Classify(kws, trimmed) == Code
  {
    ClassifyMeaning(kws, trimmed);
    forall e: Directive | e != Code
      ensures StartsWith(trimmed, kws.eval) ==> !StartsWith(trimmed, Keyword(kws, e))
    {
      DifferAt(trimmed, kws.eval, Keyword(kws, e), i);
    }
  }

  /** With the built-in keyword sets, a line that starts with the marker
      is never a directive. */
  lemma EvalMarkerIsCode(trimmed: string)
    ensures StartsWith(trimmed, DefaultKeywords.eval) ==> Classify(DefaultKeywords, trimmed) == Code
  {
    MarkerIsCode(DefaultKeywords, trimmed, 2);
  }

  lemma CfgMarkerIsCode(trimmed: string)
    ensures StartsWith(trimmed, CfgKeywords.eval) ==> Classify(CfgKeywords, trimmed) == Code
  {
    MarkerIsCode(CfgKeywords, trimmed, 1);
  }

  /** Two prefixes that differ at some position cannot both begin a string. */
  lemma DifferAt(s: string, p: string, q: string, i: nat)
    requires i < |p| && i < |q| && p[i] != q[i]
    ensures StartsWith(s, p) ==> !StartsWith(s, q)
  {
    if StartsWith(s, p) && |q| <= |s| {
      assert s[..|q|][i] == s[..|p|][i];
    }
  }

  // ---------------------------------------------------------------------
  // The walk

  function Min(a: nat, b: nat): nat {
    if a <= b then a else b
  }

  /** The walk from line `n + 1` on: the lines handled, the final state,
      and the exception that ended it early, if any. */
  datatype Folded = Folded(frame: Frame, emitted: seq<Emitted>, failure: Option<Failure>)

  /** `lines.zip(remapped).map { ... }`: the zip stops at the shorter
      list; an exception ends the walk, keeping the lines handled before
      it (their errors have already been reported). */
  function Fold(evaluate: Evaluator, vars: Env, kws: Keywords, fr: Frame, n: nat,
                lines: seq<string>, remapped: seq<Mapped>): (r: Folded)
    requires Consistent(fr)
    ensures Consistent(r.frame)
    ensures |r.emitted| <= Min(|lines|, |remapped|)
    ensures r.failure.None? ==> |r.emitted| == Min(|lines|, |remapped|)
    decreases |lines|
  {
    if |lines| == 0 || |remapped| == 0 then Folded(fr, [], None)
    else
      match Step(evaluate, vars, kws, fr, n + 1, lines[0], remapped[0].text)
      case Err(e) => Folded(fr, [], Some(e))
      case Ok((next, em)) =>
        var rest := Fold(evaluate, vars, kws, next, n + 1, lines[1..], remapped[1..]);
        rest.(emitted := [em] + rest.emitted)
  }

  /** Every directive line is emitted as its remapped text, with its
      errors counted. */
  lemma {:induction false} FoldKeepsDirective(evaluate: Evaluator, vars: Env, kws: Keywords, fr: Frame, n: nat,
                                              lines: seq<string>, remapped: seq<Mapped>, k: nat)
    requires Consistent(fr)
    requires k < |Fold(evaluate, vars, kws, fr, n, lines, remapped).emitted|
    requires Classify(kws, Trim(remapped[k].text)) != Code
    ensures Fold(evaluate, vars, kws, fr, n, lines, remapped).emitted[k] == Emitted(remapped[k].text, false)
    decreases |lines|
  {
    var step := Step(evaluate, vars, kws, fr, n + 1, lines[0], remapped[0].text);
    assert step.Ok?;
    var rest := Fold(evaluate, vars, kws, step.value.0, n + 1, lines[1..], remapped[1..]);
    assert Fold(evaluate, vars, kws, fr, n, lines, remapped).emitted == [step.value.1] + rest.emitted;
    if k > 0 {
      FoldKeepsDirective(evaluate, vars, kws, step.value.0, n + 1, lines[1..], remapped[1..], k - 1);
    }
  }

  /** Whether a line's remapping errors make the conversion fail. */
  predicate Counted(m: Mapped, e: Emitted) {
    |m.errors| > 0 && !e.ignoreErrors
  }

  /** The `fail` flag after the handled lines: set once a line with
      errors that are not ignored goes by. */
  function Failing(fail: bool, remapped: seq<Mapped>, emitted: seq<Emitted>): bool
    requires |emitted| <= |remapped|
    decreases |emitted|
  {
    if |emitted| == 0 then fail
    else Failing(fail || Counted(remapped[0], emitted[0]), remapped[1..], emitted[1..])
  }

  /** The flag ends up set exactly when it was set before or some handled
      line has errors that are not ignored. */
  lemma {:induction false} FailingMeaning(fail: bool, remapped: seq<Mapped>, emitted: seq<Emitted>)
    requires |emitted| <= |remapped|
    ensures Failing(fail, remapped, emitted) <==>
              fail || exists k :: 0 <= k < |emitted| && Counted(remapped[k], emitted[k])
    decreases |emitted|
  {
    if |emitted| > 0 {
      FailingMeaning(fail || Counted(remapped[0], emitted[0]), remapped[1..], emitted[1..]);
      assert forall k :: 1 <= k < |emitted| ==> remapped[k] == remapped[1..][k - 1] && emitted[k] == emitted[1..][k - 1];
    }
  }

  /** The errors printed for the handled lines, numbered from `n + 1`. */
  function Printed(n: nat, remapped: seq<Mapped>, emitted: seq<Emitted>): (r: seq<Diagnostic>)
    requires |emitted| <= |remapped|
    decreases |emitted|
  {
    if |emitted| == 0 then []
    else
      var here := if Counted(remapped[0], emitted[0]) then Report(n + 1, remapped[0].errors) else [];
      here + Printed(n + 1, remapped[1..], emitted[1..])
  }

  /** Something is printed exactly when the flag is raised by these lines. */
  lemma {:induction false} PrintedWhenFailing(n: nat, remapped: seq<Mapped>, emitted: seq<Emitted>)
    requires |emitted| <= |remapped|
    ensures |Printed(n, remapped, emitted)| > 0 <==> Failing(false, remapped, emitted)
    decreases |emitted|
  {
    if |emitted| > 0 {
      PrintedWhenFailing(n + 1, remapped[1..], emitted[1..]);
      if Counted(remapped[0], emitted[0]) {
        FailingStaysSet(remapped[1..], emitted[1..]);
      }
    }
  }

  lemma {:induction false} FailingStaysSet(remapped: seq<Mapped>, emitted: seq<Emitted>)
    requires |emitted| <= |remapped|
    ensures Failing(true, remapped, emitted)
    decreases |emitted|
  {
    if |emitted| > 0 {
      FailingStaysSet(remapped[1..], emitted[1..]);
    }
  }

  function Report(n: nat, errors: seq<string>): (r: seq<Diagnostic>)
    ensures |r| == |errors|
    ensures forall k :: 0 <= k < |r| ==> r[k] == Diagnostic(n, errors[k])
  {
    if |errors| == 0 then [] else [Diagnostic(n, errors[0])] + Report(n, errors[1..])
  }

  /** What `convertSource` leaves behind: the output lines or the
      exception, and the instance's `fail` flag and printed errors, which
      survive an exception. */
  datatype Conversion = Conversion(result: Result<seq<string>, Failure>, fail: bool, diagnostics: seq<Diagnostic>)

  function Texts(es: seq<Emitted>): (r: seq<string>)
    ensures |r| == |es| && forall k :: 0 <= k < |es| ==> r[k] == es[k].text
  {
    if |es| == 0 then [] else [es[0].text] + Texts(es[1..])
  }

  /** `convertSource`; `fail` is the flag as the instance had it before. */
  function ConvertSource(vars: Env, kws: Keywords, fail: bool, lines: seq<string>, remapped: seq<Mapped>): (r: Conversion)
    ensures r.result.Ok? ==> |r.result.value| == Min(|lines|, |remapped|)
  {
    var f := Fold(s => EvalExpr(vars, s), vars, kws, Initial, 0, lines, remapped);
    var result :=
      if f.failure.Some? then Err(f.failure.value)
      else if |f.frame.stack| > 0 then Err(MissingEndIf)
      else Ok(Texts(f.emitted));
    Conversion(result, Failing(fail, remapped, f.emitted), Printed(0, remapped, f.emitted))
  }

  /** Every directive line of a successful conversion is its remapped
      text, unchanged. */
  lemma ConvertKeepsDirective(vars: Env, kws: Keywords, fail: bool, lines: seq<string>, remapped: seq<Mapped>, k: nat)
    requires ConvertSource(vars, kws, fail, lines, remapped).result.Ok?
    requires k < |ConvertSource(vars, kws, fail, lines, remapped).result.value|
    requires Classify(kws, Trim(remapped[k].text)) != Code
    ensures ConvertSource(vars, kws, fail, lines, remapped).result.value[k] == remapped[k].text
  {
    FoldKeepsDirective(s => EvalExpr(vars, s), vars, kws, Initial, 0, lines, remapped, k);
  }

  /** The instance's `fail` flag is set after the conversion exactly when
      it was set before or some handled line has errors that are not
      ignored; errors are printed exactly when such a line exists. */
  lemma ConvertFailing(vars: Env, kws: Keywords, fail: bool, lines: seq<string>, remapped: seq<Mapped>)
    ensures var es := Fold(s => EvalExpr(vars, s), vars, kws, Initial, 0, lines, remapped).emitted;
      var r := ConvertSource(vars, kws, fail, lines, remapped);
      && (r.fail <==> fail || exists k :: 0 <= k < |es| && Counted(remapped[k], es[k]))
      && (|r.diagnostics| > 0 <==> exists k :: 0 <= k < |es| && Counted(remapped[k], es[k]))
  {
    var es := Fold(s => EvalExpr(vars, s), vars, kws, Initial, 0, lines, remapped).emitted;
    FailingMeaning(fail, remapped, es);
    FailingMeaning(false, remapped, es);
    PrintedWhenFailing(0, remapped, es);
  }

  /** A lone `if` line whose condition evaluates is reported as a
      missing `endif` once all lines are handled. */
  lemma MissingEndIfReported(vars: Env, kws: Keywords, fail: bool, line: string)
    requires Classify(kws, Trim(line)) == If
    requires StartsWith(Trim(line)[|kws.ifKw|..], " ")
    requires EvalExpr(vars, Trim(Trim(line)[|kws.ifKw|..])).Ok?
    ensures ConvertSource(vars, kws, fail, [line], [Mapped(line, [])]).result == Err(MissingEndIf)
  {
    var r := Step(s => EvalExpr(vars, s), vars, kws, Initial, 1, line, line);
    assert r.Ok? && |r.value.0.stack| == 1;
    var next := r.value.0;
    assert Fold(s => EvalExpr(vars, s), vars, kws, next, 1, [], []) == Folded(next, [], None);
    assert [line][1..] == [] && [Mapped(line, [])][1..] == [];
    var f := Fold(s => EvalExpr(vars, s), vars, kws, Initial, 0, [line], [Mapped(line, [])]);
    assert f.frame == next && f.failure.None?;
  }

  // ---------------------------------------------------------------------
  // Block balance

  /** How a line changes the depth of the block stack: `if` and `ifdef`
      open a block, `endif` closes one, everything else keeps the depth. */
  function Delta(kws: Keywords, line: string): int {
    match Classify(kws, Trim(line))
    case If => 1
    case IfDef => 1
    case EndIf => -1
    case _ => 0
  }

  /** Opened minus closed blocks over the remapped lines. */
  function Balance(kws: Keywords, ms: seq<Mapped>): int {
    if |ms| == 0 then 0 else Delta(kws, ms[0].text) + Balance(kws, ms[1..])
  }

  /** A successful step changes the depth by the line's delta. */
  lemma StepDepth(evaluate: Evaluator, vars: Env, kws: Keywords, fr: Frame, n: nat, original: string, line: string)
    requires Consistent(fr)
    ensures var r := Step(evaluate, vars, kws, fr, n, original, line);
      r.Ok? ==> |r.value.0.stack| == |fr.stack| + Delta(kws, line)
  {
  }

  /** A walk without failure ends with the depth it started with plus the
      balance of the lines it handled. */
  lemma {:induction false} FoldDepth(evaluate: Evaluator, vars: Env, kws: Keywords, fr: Frame, n: nat,
                                     lines: seq<string>, remapped: seq<Mapped>)
    requires Consistent(fr)
    ensures var f := Fold(evaluate, vars, kws, fr, n, lines, remapped);
      f.failure.None? ==> |f.frame.stack| == |fr.stack| + Balance(kws, remapped[..Min(|lines|, |remapped|)])
    decreases |lines|
  {
    var m := Min(|lines|, |remapped|);
    if m > 0 {
      var step := Step(evaluate, vars, kws, fr, n + 1, lines[0], remapped[0].text);
      if step.Ok? {
        StepDepth(evaluate, vars, kws, fr, n + 1, lines[0], remapped[0].text);
        FoldDepth(evaluate, vars, kws, step.value.0, n + 1, lines[1..], remapped[1..]);
        assert remapped[..m][1..] == remapped[1..][..Min(|lines[1..]|, |remapped[1..]|)];
      }
    }
  }

  /** A failing walk never fails with a missing `endif`. */
  lemma {:induction false} FoldFailures(evaluate: Evaluator, vars: Env, kws: Keywords, fr: Frame, n: nat,
                                        lines: seq<string>, remapped: seq<Mapped>)
    requires Consistent(fr)
    ensures var f := Fold(evaluate, vars, kws, fr, n, lines, remapped);
      f.failure.Some? ==> !f.failure.value.MissingEndIf?
    decreases |lines|
  {
    if |lines| > 0 && |remapped| > 0 {
      StepFailures(evaluate, vars, kws, fr, n + 1, lines[0], remapped[0].text);
      var step := Step(evaluate, vars, kws, fr, n + 1, lines[0], remapped[0].text);
      if step.Ok? {
        FoldFailures(evaluate, vars, kws, step.value.0, n + 1, lines[1..], remapped[1..]);
      }
    }
  }

  /** A conversion reports a missing `endif` exactly when every handled
      line was accepted and more blocks were opened than closed; it
      succeeds exactly when every line was accepted and the blocks
      balance. */
  lemma ConvertMissingEndIf(vars: Env, kws: Keywords, fail: bool, lines: seq<string>, remapped: seq<Mapped>)
    ensures var f := Fold(s => EvalExpr(vars, s), vars, kws, Initial, 0, lines, remapped);
      var b := Balance(kws, remapped[..Min(|lines|, |remapped|)]);
      && (ConvertSource(vars, kws, fail, lines, remapped).result == Err(MissingEndIf) <==> f.failure.None? && b > 0)
      && (ConvertSource(vars, kws, fail, lines, remapped).result.Ok? <==> f.failure.None? && b == 0)
  {
    FoldDepth(s => EvalExpr(vars, s), vars, kws, Initial, 0, lines, remapped);
    FoldFailures(s => EvalExpr(vars, s), vars, kws, Initial, 0, lines, remapped);
  }
}
