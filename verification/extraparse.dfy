/** The manual mapping file (`ExtraMapping.read`) and the dotted-name
    conversion `toInternal` that resolution applies to its class names.

    The file is line-oriented: blank lines and lines starting with `#` are
    skipped, every other line holds two to four whitespace-separated
    tokens. Two tokens rename a class; three or four rename a field or a
    method, the fourth form naming the destination class explicitly. A
    source member token containing `(` is a method, and what follows its
    first `(` is its descriptor. */
module ExtraParse {
  import opened Wrappers
  import opened Text

  datatype Entry =
    | ClassEntry(line: nat, srcName: string, dstName: string)
    | FieldEntry(line: nat, srcClsName: string, dstClsName: Option<string>, srcName: string, dstName: string)
    | MethodEntry(line: nat, srcClsName: string, dstClsName: Option<string>, srcName: string, dstName: string,
                  srcDesc: Option<string>, dstDesc: Option<string>)
  {
    /** The source class an entry is about (the key `groupBy` uses). */
    function SrcClass(): string {
      if ClassEntry? then srcName else srcClsName
    }
  }

  /** The two `IllegalArgumentException`s of the parser, with the line. */
  datatype ParseError = UnexpectedSemicolon(line: nat) | WrongTokenCount(line: nat, count: nat)

  // ---------------------------------------------------------------------
  // Member tokens

  /** The descriptor of a member token as the parser computes it for both
      tokens: `(` followed by what comes after the first `(`, which is the
      whole token when it has no `(`; the descriptor `()` stands for none. */
  function DescAsWritten(token: string): (r: Option<string>)
    ensures r.Some? ==> |r.value| > 0 && r.value[0] == '(' && r.value != "()"
  {
    var d := "(" + SubstringAfter(token, "(");
    if d == "()" then None else Some(d)
  }

  /** The descriptor a member token spells out: none when the token has no
      `(`, otherwise as above. The destination token is read with this. */
  function DescOf(token: string): (r: Option<string>)
    ensures r.Some? ==> Contains(token, "(") && r == DescAsWritten(token)
  {
    if Contains(token, "(") then DescAsWritten(token) else None
  }

  /** The name part of a member token. */
  function NameOf(token: string): string {
    SubstringBefore(token, "(")
  }

  /** A method written as a token: the name, then the descriptor or `()`. */
  function MethodToken(name: string, desc: Option<string>): string {
    name + desc.GetOr("()")
  }

  /** A descriptor a method token can carry. */
  predicate IsDescText(d: string) {
    |d| > 0 && d[0] == '(' && d != "()"
  }

  predicate NoParen(s: string) {
    forall i :: 0 <= i < |s| ==> s[i] != '('
  }

  /** A method token splits back into its name and descriptor. */
  lemma MethodTokenRoundTrip(name: string, desc: Option<string>)
    requires NoParen(name)
    requires desc.Some? ==> IsDescText(desc.value)
    ensures Contains(MethodToken(name, desc), "(")
    ensures NameOf(MethodToken(name, desc)) == name
    ensures DescOf(MethodToken(name, desc)) == desc
    ensures DescAsWritten(MethodToken(name, desc)) == desc
  {
    var t := MethodToken(name, desc);
    var d := desc.GetOr("()");
    assert t == name + d;
    assert OccursAt(t, "(", |name|) by {
      assert t[|name|] == d[0];
    }
    forall j | 0 <= j < |name| ensures !OccursAt(t, "(", j) {
      assert t[j] == name[j];
    }
    assert IndexOf(t, "(") == Some(|name|);
    assert t[..|name|] == name;
    assert t[|name| + 1..] == d[1..];
    assert "(" + d[1..] == d;
  }

  /** Conversely a token with a `(` is its name followed by its descriptor
      (`()` when it has none). */
  lemma TokenSplits(token: string)
    requires Contains(token, "(")
    ensures MethodToken(NameOf(token), DescOf(token)) == token
  {
    SubstringSplice(token, "(");
  }

  // ---------------------------------------------------------------------
  // Lines

  /** The entry of a line's tokens, the destination token's descriptor
      read by `dstDescOf`. */
  function ParseParts(n: nat, parts: seq<string>, dstDescOf: string -> Option<string>): (r: Result<Entry, ParseError>)
    ensures r.Err? ==> r.error.line == n
    ensures r.Ok? ==> r.value.line == n
  {
    if |parts| == 2 then
      if EndsWith(parts[1], ";") then Err(UnexpectedSemicolon(n))
      else Ok(ClassEntry(n, parts[0], parts[1]))
    else if |parts| == 3 || |parts| == 4 then
      var dstCls := if |parts| == 4 then Some(parts[2]) else None;
      var srcName := parts[1];
      var dstName := parts[|parts| - 1];
      if Contains(srcName, "(") then
        Ok(MethodEntry(n, parts[0], dstCls, NameOf(srcName), NameOf(dstName), DescAsWritten(srcName), dstDescOf(dstName)))
      else
        Ok(FieldEntry(n, parts[0], dstCls, srcName, dstName))
    else Err(WrongTokenCount(n, |parts|))
  }

  /** Whether a trimmed line holds no entry. */
  predicate Skipped(t: string) {
    StartsWith(t, "#") || |t| == 0
  }

  /** One line of the file. */
  function ParseLineWith(n: nat, line: string, dstDescOf: string -> Option<string>): (r: Result<Option<Entry>, ParseError>)
    ensures r.Err? ==> r.error.line == n
    ensures r.Ok? && r.value.Some? ==> r.value.value.line == n
  {
    var t := Trim(line);
    if Skipped(t) then Ok(None)
    else
      match ParseParts(n, SplitOnSpaces(t), dstDescOf)
      case Err(e) => Err(e)
      case Ok(entry) => Ok(Some(entry))
  }

  /** The parser as written reads the destination token's descriptor the
      same way as the source token's, with a `(` supplied in front. */
  function ParseLineAsWritten(n: nat, line: string): (r: Result<Option<Entry>, ParseError>)
    ensures r.Err? ==> r.error.line == n
    ensures r.Ok? && r.value.Some? ==> r.value.value.line == n
  {
    ParseLineWith(n, line, DescAsWritten)
  }

  /** The parser with a destination token without `(` read as naming no
      descriptor. */
  function ParseLine(n: nat, line: string): (r: Result<Option<Entry>, ParseError>)
    ensures r.Err? ==> r.error.line == n
    ensures r.Ok? && r.value.Some? ==> r.value.value.line == n
  {
    ParseLineWith(n, line, DescOf)
  }

  /** A line yields nothing exactly when it is blank or a comment. */
  lemma ParseLineSkips(n: nat, line: string)
    ensures ParseLine(n, line) == Ok(None) <==> IsBlank(line) || StartsWith(Trim(line), "#")
    ensures ParseLineAsWritten(n, line) == Ok(None) <==> IsBlank(line) || StartsWith(Trim(line), "#")
  {
    TrimMeaning(line);
  }

  /** The two parse errors and when they occur. */
  lemma ParseLineErrors(n: nat, line: string)
    requires !IsBlank(line) && !StartsWith(Trim(line), "#")
    ensures var parts := SplitOnSpaces(Trim(line));
      && (ParseLine(n, line) == Err(UnexpectedSemicolon(n)) <==> |parts| == 2 && EndsWith(parts[1], ";"))
      && (ParseLine(n, line) == Err(WrongTokenCount(n, |parts|)) <==> |parts| < 2 || 4 < |parts|)
      && (ParseLine(n, line).Err? <==> (|parts| == 2 && EndsWith(parts[1], ";")) || |parts| < 2 || 4 < |parts|)
      && (ParseLineAsWritten(n, line).Err? <==> (|parts| == 2 && EndsWith(parts[1], ";")) || |parts| < 2 || 4 < |parts|)
  {
    TrimMeaning(line);
  }

  /** The two parsers differ only in a method's destination descriptor:
      they fail alike, skip alike and otherwise read the same entry. */
  lemma ParsersAgree(n: nat, line: string)
    ensures var a, c := ParseLineAsWritten(n, line), ParseLine(n, line);
      && (a.Err? <==> c.Err?)
      && (a.Err? ==> a == c)
      && (a.Ok? ==> (a.value.None? <==> c.value.None?))
      && (a.Ok? && a.value.Some? && !a.value.value.MethodEntry? ==> a == c)
      && (a.Ok? && a.value.Some? && a.value.value.MethodEntry? ==>
            c.value.value.MethodEntry? && a.value.value.(dstDesc := c.value.value.dstDesc) == c.value.value)
  {
  }

  /** The parser as written turns a destination token without `(` into a
      descriptor: `a.B foo() bar` names the method `foo` with no
      descriptor, yet its destination gets the descriptor `(bar`. */
  lemma ParserAsWrittenInventsDescriptor(line: string)
    requires line == "a.B foo() bar"
    ensures ParseLineAsWritten(7, line) == Ok(Some(MethodEntry(7, "a.B", None, "foo", "bar", None, Some("(bar"))))
    ensures ParseLine(7, line) == Ok(Some(MethodEntry(7, "a.B", None, "foo", "bar", None, None)))
  {
    var ts := ["a.B", "foo()", "bar"];
    ExampleLine(line, ts);
    ExampleParts(ts);
  }

  lemma ExampleParts(ts: seq<string>)
    requires ts == ["a.B", "foo()", "bar"]
    ensures ParseParts(7, ts, DescAsWritten) == Ok(MethodEntry(7, "a.B", None, "foo", "bar", None, Some("(bar")))
    ensures ParseParts(7, ts, DescOf) == Ok(MethodEntry(7, "a.B", None, "foo", "bar", None, None))
  {
    var foo, bar := ts[1], ts[2];
    MethodTokenRoundTrip("foo", None);
    assert MethodToken("foo", None) == foo;
    PlainToken(bar);
    assert |bar| == 3;
    assert "(" + bar == "(bar";
  }

  lemma ExampleLine(line: string, ts: seq<string>)
    requires line == "a.B foo() bar"
    requires ts == ["a.B", "foo()", "bar"]
    ensures !Skipped(Trim(line))
    ensures SplitOnSpaces(Trim(line)) == ts
  {
    ExampleTokens(ts);
    ExampleJoin(line, ts);
    LineRoundTrip(ts);
  }

  lemma ExampleTokens(ts: seq<string>)
    requires ts == ["a.B", "foo()", "bar"]
    ensures forall k :: 0 <= k < |ts| ==> IsToken(ts[k])
  {
    assert IsToken("a.B");
    assert IsToken("foo()");
    assert IsToken("bar");
  }

  lemma ExampleJoin(line: string, ts: seq<string>)
    requires line == "a.B foo() bar"
    requires ts == ["a.B", "foo()", "bar"]
    ensures JoinSpaced(ts) == line
  {
    assert ts[1..] == ["foo()", "bar"];
    assert ts[1..][1..] == ["bar"];
    assert JoinSpaced(ts[1..][1..]) == "bar";
    assert JoinSpaced(ts[1..]) == "foo() bar";
  }

  /** A token without `(` is all name and, read as a destination, no
      descriptor. */
  lemma PlainToken(t: string)
    requires NoParen(t)
    ensures !Contains(t, "(") && NameOf(t) == t && DescOf(t).None?
    ensures DescAsWritten(t) == if t == ")" then None else Some("(" + t)
  {
    forall j | 0 <= j <= |t| ensures !OccursAt(t, "(", j) {
      if j < |t| { assert t[j] != '('; }
    }
    assert ("(" + t == "()") <==> t == ")" by {
      if "(" + t == "()" { assert t == ("(" + t)[1..]; }
    }
  }

  /** A line of tokens is read back as its tokens. */
  lemma LineRoundTrip(ts: seq<string>)
    requires |ts| > 0 && forall k :: 0 <= k < |ts| ==> IsToken(ts[k])
    ensures Trim(JoinSpaced(ts)) == JoinSpaced(ts)
    ensures SplitOnSpaces(Trim(JoinSpaced(ts))) == ts
    ensures IsToken(ts[0]) && JoinSpaced(ts)[0] == ts[0][0]
  {
    JoinSpacedTrimmed(ts);
    SplitJoinSpaced(ts);
    JoinSpacedEnds(ts);
  }

  // ---------------------------------------------------------------------
  // Printing, the parser's inverse

  /** The tokens a line for the entry holds. */
  function Tokens(e: Entry): seq<string> {
    match e
    case ClassEntry(_, src, dst) => [src, dst]
    case FieldEntry(_, cls, dstCls, src, dst) =>
      [cls, src] + (if dstCls.Some? then [dstCls.value] else []) + [dst]
    case MethodEntry(_, cls, dstCls, src, dst, srcDesc, dstDesc) =>
      [cls, MethodToken(src, srcDesc)] + (if dstCls.Some? then [dstCls.value] else []) + [MethodToken(dst, dstDesc)]
  }

  function Print(e: Entry): string {
    JoinSpaced(Tokens(e))
  }

  /** The entries a line of the file can express. */
  predicate Printable(e: Entry) {
    var ts := Tokens(e);
    && (forall k :: 0 <= k < |ts| ==> IsToken(ts[k]))
    && ts[0][0] != '#'
    && match e
       case ClassEntry(_, _, dst) => !EndsWith(dst, ";")
       case FieldEntry(_, _, _, src, _) => NoParen(src)
       case MethodEntry(_, _, _, src, dst, srcDesc, dstDesc) =>
         && NoParen(src) && NoParen(dst)
         && (srcDesc.Some? ==> IsDescText(srcDesc.value))
         && (dstDesc.Some? ==> IsDescText(dstDesc.value))
  }

  /** Every printable entry is read back from its line, with that line's
      number. */
  lemma ParsePrinted(n: nat, e: Entry)
    requires Printable(e)
    ensures ParseLine(n, Print(e)) == Ok(Some(e.(line := n)))
  {
    var ts := Tokens(e);
    LineRoundTrip(ts);
    assert !Skipped(Trim(Print(e)));
    ParsePartsPrinted(n, e);
  }

  /** The tokens of a printable entry give it back. */
  lemma ParsePartsPrinted(n: nat, e: Entry)
    requires Printable(e)
    ensures ParseParts(n, Tokens(e), DescOf) == Ok(e.(line := n))
  {
    match e
    case ClassEntry(_, _, _) =>
    case FieldEntry(_, cls, dstCls, src, dst) =>
      FieldPartsPrinted(n, cls, dstCls, src, dst);
    case MethodEntry(_, cls, dstCls, src, dst, srcDesc, dstDesc) =>
      MethodPartsPrinted(n, cls, dstCls, src, dst, srcDesc, dstDesc);
  }

  /** The tokens of a printable field entry give it back. */
  lemma FieldPartsPrinted(n: nat, cls: string, dstCls: Option<string>, src: string, dst: string)
    requires NoParen(src)
    ensures ParseParts(n, [cls, src] + (if dstCls.Some? then [dstCls.value] else []) + [dst], DescOf)
      == Ok(FieldEntry(n, cls, dstCls, src, dst))
  {
    PlainToken(src);
  }

  /** The tokens of a printable method entry give it back. */
  lemma MethodPartsPrinted(n: nat, cls: string, dstCls: Option<string>, src: string, dst: string,
                           srcDesc: Option<string>, dstDesc: Option<string>)
    requires NoParen(src) && NoParen(dst)
    requires srcDesc.Some? ==> IsDescText(srcDesc.value)
    requires dstDesc.Some? ==> IsDescText(dstDesc.value)
    ensures ParseParts(n, [cls, MethodToken(src, srcDesc)] + (if dstCls.Some? then [dstCls.value] else []) + [MethodToken(dst, dstDesc)], DescOf)
      == Ok(MethodEntry(n, cls, dstCls, src, dst, srcDesc, dstDesc))
  {
    MethodTokenRoundTrip(src, srcDesc);
    MethodTokenRoundTrip(dst, dstDesc);
  }

  // ---------------------------------------------------------------------
  // The file

  /** Whether a line was read into an entry. */
  predicate HasEntry(r: Result<Option<Entry>, ParseError>) {
    r.Ok? && r.value.Some?
  }

  /** A line parser: its entry or error for a numbered line. */
  type LineParser = (nat, string) -> Result<Option<Entry>, ParseError>

  /** The entries of consecutive lines, the first numbered `first`; the
      first bad line aborts the read. */
  function ReadFrom(lines: seq<string>, first: nat, parse: LineParser): (r: Result<seq<Entry>, ParseError>)
    decreases |lines|
  {
    if |lines| == 0 then Ok([])
    else
      match parse(first, lines[0])
      case Err(e) => Err(e)
      case Ok(entry) =>
        match ReadFrom(lines[1..], first + 1, parse)
        case Err(e) => Err(e)
        case Ok(rest) => Ok(if entry.Some? then [entry.value] + rest else rest)
  }

  /** `ExtraMapping.read`: lines are numbered from 1, each read by the
      parser as written. */
  function Read(lines: seq<string>): (r: Result<seq<Entry>, ParseError>)
    ensures r.Err? <==> exists i :: 0 <= i < |lines| && ParseLineAsWritten(1 + i, lines[i]).Err?
  {
    ReadFromErrors(lines, 1, ParseLineAsWritten);
    ReadFrom(lines, 1, ParseLineAsWritten)
  }

  /** The same read with the corrected line parser. */
  function ReadCorrected(lines: seq<string>): (r: Result<seq<Entry>, ParseError>)
    ensures r.Err? <==> exists i :: 0 <= i < |lines| && ParseLine(1 + i, lines[i]).Err?
  {
    ReadFromErrors(lines, 1, ParseLine);
    ReadFrom(lines, 1, ParseLine)
  }

  /** A read fails exactly when some line fails, with the error of the
      first such line. */
  lemma ReadFromErrors(lines: seq<string>, first: nat, parse: LineParser)
    ensures ReadFrom(lines, first, parse).Err? <==> exists i :: 0 <= i < |lines| && parse(first + i, lines[i]).Err?
    ensures ReadFrom(lines, first, parse).Err? ==> exists i :: (0 <= i < |lines|
      && parse(first + i, lines[i]) == Err(ReadFrom(lines, first, parse).error)
      && forall j :: 0 <= j < i ==> parse(first + j, lines[j]).Ok?)
  {
    ReadFromFails(lines, first, parse);
    if ReadFrom(lines, first, parse).Err? {
      ReadFromFirstError(lines, first, parse);
    }
  }

  /** A read fails exactly when some line fails. */
  lemma {:induction false} ReadFromFails(lines: seq<string>, first: nat, parse: LineParser)
    ensures ReadFrom(lines, first, parse).Err? <==> exists i :: 0 <= i < |lines| && parse(first + i, lines[i]).Err?
  {
    if ReadFrom(lines, first, parse).Err? {
      ReadFromFirstError(lines, first, parse);
    }
    if exists i :: 0 <= i < |lines| && parse(first + i, lines[i]).Err? {
      var i :| 0 <= i < |lines| && parse(first + i, lines[i]).Err?;
      ReadFromFailsAt(lines, first, parse, i);
    }
  }

  /** One failing line makes the whole read fail. */
  lemma {:induction false} ReadFromFailsAt(lines: seq<string>, first: nat, parse: LineParser, i: nat)
    requires i < |lines| && parse(first + i, lines[i]).Err?
    ensures ReadFrom(lines, first, parse).Err?
    decreases i
  {
    if i > 0 && parse(first, lines[0]).Ok? {
      assert lines[1..][i - 1] == lines[i];
      ReadFromFailsAt(lines[1..], first + 1, parse, i - 1);
    }
  }

  /** A failed read reports the error of its first failing line. */
  lemma {:induction false} ReadFromFirstError(lines: seq<string>, first: nat, parse: LineParser)
    requires ReadFrom(lines, first, parse).Err?
    ensures exists i :: (0 <= i < |lines|
      && parse(first + i, lines[i]) == Err(ReadFrom(lines, first, parse).error)
      && forall j :: 0 <= j < i ==> parse(first + j, lines[j]).Ok?)
    decreases |lines|
  {
    if parse(first, lines[0]).Ok? {
      ReadFromFirstError(lines[1..], first + 1, parse);
      var err := ReadFrom(lines, first, parse).error;
      assert ReadFrom(lines[1..], first + 1, parse).error == err;
      var i :| 0 <= i < |lines[1..]|
        && parse(first + 1 + i, lines[1..][i]) == Err(err)
        && forall j :: 0 <= j < i ==> parse(first + 1 + j, lines[1..][j]).Ok?;
      assert parse(first + (i + 1), lines[i + 1]) == Err(err);
      forall j | 0 <= j < i + 1 ensures parse(first + j, lines[j]).Ok? {
        if j > 0 {
          assert parse(first + j, lines[j]) == parse(first + 1 + (j - 1), lines[1..][j - 1]);
        }
      }
    } else {
      assert parse(first + 0, lines[0]) == Err(ReadFrom(lines, first, parse).error);
    }
  }

  /** A successful read holds, in line order, the entry of every line that
      has one, each from its own line. */
  lemma {:induction false} ReadFromEntries(lines: seq<string>, first: nat, parse: LineParser)
    requires ReadFrom(lines, first, parse).Ok?
    ensures forall e :: e in ReadFrom(lines, first, parse).value ==>
      exists i :: 0 <= i < |lines| && parse(first + i, lines[i]) == Ok(Some(e))
    ensures forall i :: 0 <= i < |lines| && parse(first + i, lines[i]).Ok? && parse(first + i, lines[i]).value.Some? ==>
      parse(first + i, lines[i]).value.value in ReadFrom(lines, first, parse).value
    decreases |lines|
  {
    if |lines| > 0 {
      ReadFromEntries(lines[1..], first + 1, parse);
      var rest := ReadFrom(lines[1..], first + 1, parse).value;
      forall i | 1 <= i < |lines| ensures parse(first + i, lines[i]) == parse(first + 1 + (i - 1), lines[1..][i - 1]) {
      }
      forall e | e in ReadFrom(lines, first, parse).value
        ensures exists i :: 0 <= i < |lines| && parse(first + i, lines[i]) == Ok(Some(e))
      {
        if e in rest {
          var i :| 0 <= i < |lines[1..]| && parse(first + 1 + i, lines[1..][i]) == Ok(Some(e));
          assert parse(first + (i + 1), lines[i + 1]) == Ok(Some(e));
        } else {
          assert parse(first + 0, lines[0]) == Ok(Some(e));
        }
      }
    }
  }

  /** Both reads fail exactly on a file with a bad line, and then with
      the same error. */
  lemma ReadFails(lines: seq<string>)
    ensures Read(lines).Err? <==> exists i :: 0 <= i < |lines| && ParseLineAsWritten(1 + i, lines[i]).Err?
    ensures ReadCorrected(lines).Err? <==> exists i :: 0 <= i < |lines| && ParseLine(1 + i, lines[i]).Err?
    ensures Read(lines).Err? ==> ReadCorrected(lines) == Read(lines)
  {
    ReadFromErrors(lines, 1, ParseLineAsWritten);
    ReadFromErrors(lines, 1, ParseLine);
    ReadFromSameErrors(lines, 1);
  }

  /** The two parsers make a read fail alike. */
  lemma {:induction false} ReadFromSameErrors(lines: seq<string>, first: nat)
    ensures ReadFrom(lines, first, ParseLineAsWritten).Err? <==> ReadFrom(lines, first, ParseLine).Err?
    ensures ReadFrom(lines, first, ParseLineAsWritten).Err? ==>
      ReadFrom(lines, first, ParseLine) == ReadFrom(lines, first, ParseLineAsWritten)
    decreases |lines|
  {
    if |lines| > 0 {
      ParsersAgree(first, lines[0]);
      ReadFromSameErrors(lines[1..], first + 1);
    }
  }

  /** A successful read holds only entries of their own lines, numbered
      from 1, ... */
  lemma ReadEntriesFromLines(lines: seq<string>)
    ensures Read(lines).Ok? ==> forall e :: e in Read(lines).value ==>
      1 <= e.line <= |lines| && ParseLineAsWritten(e.line, lines[e.line - 1]) == Ok(Some(e))
    ensures ReadCorrected(lines).Ok? ==> forall e :: e in ReadCorrected(lines).value ==>
      1 <= e.line <= |lines| && ParseLine(e.line, lines[e.line - 1]) == Ok(Some(e))
  {
    if Read(lines).Ok? {
      ReadFromEntries(lines, 1, ParseLineAsWritten);
      forall e | e in Read(lines).value
        ensures 1 <= e.line <= |lines| && ParseLineAsWritten(e.line, lines[e.line - 1]) == Ok(Some(e))
      {
        var i :| 0 <= i < |lines| && ParseLineAsWritten(1 + i, lines[i]) == Ok(Some(e));
        EntryOfLine(lines, i, e, ParseLineAsWritten);
      }
    }
    if ReadCorrected(lines).Ok? {
      ReadFromEntries(lines, 1, ParseLine);
      forall e | e in ReadCorrected(lines).value
        ensures 1 <= e.line <= |lines| && ParseLine(e.line, lines[e.line - 1]) == Ok(Some(e))
      {
        var i :| 0 <= i < |lines| && ParseLine(1 + i, lines[i]) == Ok(Some(e));
        EntryOfLine(lines, i, e, ParseLine);
      }
    }
  }

  /** An entry read from a line carries that line's number. */
  lemma EntryOfLine(lines: seq<string>, i: nat, e: Entry, parse: LineParser)
    requires i < |lines| && parse(1 + i, lines[i]) == Ok(Some(e)) && e.line == 1 + i
    ensures 1 <= e.line <= |lines| && parse(e.line, lines[e.line - 1]) == Ok(Some(e))
  {
  }

  /** ... and no line's entry is missing. */
  lemma ReadKeepsEntries(lines: seq<string>)
    ensures Read(lines).Ok? ==> forall i :: 0 <= i < |lines| && HasEntry(ParseLineAsWritten(1 + i, lines[i])) ==>
      ParseLineAsWritten(1 + i, lines[i]).value.value in Read(lines).value
    ensures ReadCorrected(lines).Ok? ==> forall i :: 0 <= i < |lines| && HasEntry(ParseLine(1 + i, lines[i])) ==>
      ParseLine(1 + i, lines[i]).value.value in ReadCorrected(lines).value
  {
    if Read(lines).Ok? {
      ReadFromKeeps(lines, ParseLineAsWritten);
    }
    if ReadCorrected(lines).Ok? {
      ReadFromKeeps(lines, ParseLine);
    }
  }

  lemma ReadFromKeeps(lines: seq<string>, parse: LineParser)
    requires ReadFrom(lines, 1, parse).Ok?
    ensures forall i :: 0 <= i < |lines| && HasEntry(parse(1 + i, lines[i])) ==>
      parse(1 + i, lines[i]).value.value in ReadFrom(lines, 1, parse).value
  {
    ReadFromEntries(lines, 1, parse);
  }
}
