# Preprocessor core, modelled in Dafny

The preprocessor lets one source tree serve several Minecraft versions.
This project models its core as pure functions and proves properties about them.

- **Comment preprocessor.** It walks a file line by line. It keeps a stack
  of `//#if` / `//#elseif` / `//#else` / `//#endif` blocks and evaluates
  their conditions in a small expression language: variables, dotted
  version literals, integers, the six comparisons, `!`, `&&` and `||`.
  Lines in an inactive block are commented out with the `//$$` marker.
  Lines in an active block are uncommented.
- **Mapping algebra.** These are the `MappingSet` operations for
  composing class, field and method renames: splitting the class renames
  off a set, `mergeBoth` and `join`.
- **Shared-name inference.** Classes of two intermediate trees that no
  namespace connects are paired by how many `field_…` / `func_…` member
  names they share. Each committed pair gets a fresh `class_N` name.
- **Strict merge.** A source tree and a destination tree are merged
  through a shared namespace into one table. Manual entries take priority
  over the trees.
- **Extra mapping file.** The file is parsed into entries. Dotted names
  become internal names. Missing destination classes and descriptors are
  completed from the trees. The entries are then grouped into a forward
  table and a backward table.
- **Project graph.** This covers the root node, its children, and the
  `findNode` and `findParent` searches.

Each module is one concern. `Wrappers` holds `Option` and `Result`.
`Text` holds the string operations of the JVM library that the code uses.
`Expressions` and `Preprocessor` model `CommentPreprocessor`.
`MappingSets` models `MappingUtils.kt`. `Inference` and `StrictMerge`
model the two tree algorithms of `PreprocessTask`. `Trees` is a small
model of the mapping-tree library those algorithms query. `ExtraParse`,
`InternalNames`, `Descriptors`, `ClassTables`, `ExtraResolve`,
`EntryTables` and `Resolution` model `ExtraMapping.kt`. `ProjectGraph`
models `RootPreprocessExtension.kt`.

Integers in the expression language are 32-bit JVM `Int`s.
`Text.ParseInt32` rejects values out of range, as `toIntOrNull` does, and
`Text.Wrap32` makes the version arithmetic wrap explicitly.

## Model

| member | source | states |
|---|---|---|
| Text.TrimMeaning | src/main/kotlin/com/replaymod/gradle/preprocess/PreprocessTask.kt:847 | a trimmed line starts and ends with a non-whitespace character, and is empty exactly when the line is blank |
| Text.Indentation | src/main/kotlin/com/replaymod/gradle/preprocess/PreprocessTask.kt:823-824 | the indentation is the longest prefix of spaces and tabs |
| Text.SplitOnJoin | src/main/kotlin/com/replaymod/gradle/preprocess/PreprocessTask.kt:785 | joining the pieces of a split with the delimiter gives the text back |
| Text.JoinOnSplit | src/main/kotlin/com/replaymod/gradle/preprocess/ExtraMapping.kt:57 | splitting a join of pieces free of a one-character delimiter gives the pieces back |
| Text.SplitJoinSpaced | src/main/kotlin/com/replaymod/gradle/preprocess/ExtraMapping.kt:284 | splitting a single-space join of tokens on whitespace gives the tokens back |
| Text.SubstringSplice | src/main/kotlin/com/replaymod/gradle/preprocess/ExtraMapping.kt:305-307 | the parts before and after the first delimiter, with the delimiter between them, make up the text |
| Text.RemoveChar | src/main/kotlin/com/replaymod/gradle/preprocess/PreprocessTask.kt:780 | deleting every underscore keeps exactly the other characters, as a multiset, and in their order (`RemoveCharConcat`: deleting distributes over concatenation) |
| Text.RemoveCharConcat | src/main/kotlin/com/replaymod/gradle/preprocess/PreprocessTask.kt:780 | deleting a character from a concatenation deletes it from each part, so the other characters keep their order |
| Text.RemoveCharAbsent | src/main/kotlin/com/replaymod/gradle/preprocess/PreprocessTask.kt:780 | a text without the character is left unchanged |
| Text.Wrap32 | src/main/kotlin/com/replaymod/gradle/preprocess/PreprocessTask.kt:777 | the result is a 32-bit value congruent to the input modulo 2^32, and is the input itself when that fits |
| Text.ParseDigitsMeaning | src/main/kotlin/com/replaymod/gradle/preprocess/PreprocessTask.kt:774 | a digit string parses to its decimal value, and anything else fails |
| Text.ParsePrintedInt | src/main/kotlin/com/replaymod/gradle/preprocess/PreprocessTask.kt:780 | every non-negative 32-bit number parses back from its decimal text |
| Text.ParseInt32Meaning | src/main/kotlin/com/replaymod/gradle/preprocess/PreprocessTask.kt:774-780 | `toIntOrNull` succeeds exactly on an optional sign followed by at least one decimal digit whose signed value fits in an `Int`, and yields that value |
| Expressions.EvalVarOrNull | src/main/kotlin/com/replaymod/gradle/preprocess/PreprocessTask.kt:769-781 | a defined variable wins; otherwise a text with `.` denotes the version of its `.`-segments (`major*10000 + minor*100 + patch` wrapped to 32 bits, each of the three an integer text that fits, a missing patch 0) and any other text the integer its digits spell once underscores are deleted, when it fits; `None` exactly when neither applies |
| Expressions.EvalVar | src/main/kotlin/com/replaymod/gradle/preprocess/PreprocessTask.kt:782 | the same value as `evalVarOrNull` where it has one, and otherwise the error naming the text |
| Expressions.VersionValueMeaning | src/main/kotlin/com/replaymod/gradle/preprocess/PreprocessTask.kt:772-777 | a dotted text has at least two segments, and its version value is the one its first three segments denote |
| Expressions.IntegerLiteral | src/main/kotlin/com/replaymod/gradle/preprocess/PreprocessTask.kt:780 | a decimal numeral that is no variable evaluates to its value |
| Expressions.VersionLiteral | src/main/kotlin/com/replaymod/gradle/preprocess/PreprocessTask.kt:772-777 | `a.b.c`, with any further segments, is `a*10000 + b*100 + c` in 32-bit arithmetic |
| Expressions.ShortVersionLiteral | src/main/kotlin/com/replaymod/gradle/preprocess/PreprocessTask.kt:773 | `a.b` has patch level 0 |
| Expressions.VersionOfParts | src/main/kotlin/com/replaymod/gradle/preprocess/PreprocessTask.kt:772-777 | the version is made from the first two segments and the third one, or 0 when there is no third |
| Expressions.OperatorAt | src/main/kotlin/com/replaymod/gradle/preprocess/PreprocessTask.kt:762 | the operator alternatives are tried in pattern order: the first that fits is chosen, and none fits when none is returned |
| Expressions.LastOperatorScan | src/main/kotlin/com/replaymod/gradle/preprocess/PreprocessTask.kt:762 | no operator fits to the right of the chosen split |
| Expressions.LastOperatorFinds | src/main/kotlin/com/replaymod/gradle/preprocess/PreprocessTask.kt:762 | the greedy first group makes the match split at the rightmost position where an operator fits |
| Expressions.MatchComparisonMeaning | src/main/kotlin/com/replaymod/gradle/preprocess/PreprocessTask.kt:762 | a match's groups rebuild the text around a non-empty left and right side at the rightmost operator; a text with a line terminator never matches |
| Expressions.MatchComparisonPieces | src/main/kotlin/com/replaymod/gradle/preprocess/PreprocessTask.kt:762 | the groups of a match rebuild the text, with both sides non-empty |
| Expressions.MatchComparisonRightmost | src/main/kotlin/com/replaymod/gradle/preprocess/PreprocessTask.kt:762 | no operator fits right of a match's split, and none fits anywhere in a single-line text without a match |
| Expressions.AnyPartScan | src/main/kotlin/com/replaymod/gradle/preprocess/PreprocessTask.kt:785-788 | `any` over the parts equals the first-true scan of every part's outcome |
| Expressions.AllPartsScan | src/main/kotlin/com/replaymod/gradle/preprocess/PreprocessTask.kt:790-793 | `all` over the parts equals the first-false scan of every part's outcome |
| Expressions.FirstTrueMeaning | src/main/kotlin/com/replaymod/gradle/preprocess/PreprocessTask.kt:787 | true iff some part is true after only false parts; false iff all parts are false; an error is the first outcome that is not false |
| Expressions.FirstFalseMeaning | src/main/kotlin/com/replaymod/gradle/preprocess/PreprocessTask.kt:792 | false iff some part is false after only true parts; true iff all parts are true; an error is the first outcome that is not true |
| Expressions.EvalOr | src/main/kotlin/com/replaymod/gradle/preprocess/PreprocessTask.kt:784-789 | `evalExpr` on a text with `||` is the first-true scan of its trimmed parts |
| Expressions.EvalAnd | src/main/kotlin/com/replaymod/gradle/preprocess/PreprocessTask.kt:790-794 | `evalExpr` on a text with `&&` and no `||` is the first-false scan of its trimmed parts |
| Expressions.NegationStep | src/main/kotlin/com/replaymod/gradle/preprocess/PreprocessTask.kt:796-798 | a leading `!` negates the value of the rest, and an error passes through |
| Expressions.DoubleNegation | src/main/kotlin/com/replaymod/gradle/preprocess/PreprocessTask.kt:796-798 | `!!e` evaluates like `e` |
| Expressions.ValueMeaning | src/main/kotlin/com/replaymod/gradle/preprocess/PreprocessTask.kt:800-803 | `evalExpr` on a plain value is true iff the value is non-zero |
| Expressions.ComparisonMeaning | src/main/kotlin/com/replaymod/gradle/preprocess/PreprocessTask.kt:805-820 | `lhs OP rhs` compares the two 32-bit values; an unknown side is reported, the left side first |
| Expressions.ComparisonIsAtom | src/main/kotlin/com/replaymod/gradle/preprocess/PreprocessTask.kt:784-803 | a comparison text without connectives or a leading `!` is evaluated as a value or a comparison |
| Expressions.ComparisonSplit | src/main/kotlin/com/replaymod/gradle/preprocess/PreprocessTask.kt:805-806 | the pattern splits `lhs OP rhs` at OP when the right side holds no operator character |
| Expressions.MatchAtLastOperator | src/main/kotlin/com/replaymod/gradle/preprocess/PreprocessTask.kt:805-806 | the match groups are the text before and after the rightmost operator |
| Expressions.LastOperatorOfSplit | src/main/kotlin/com/replaymod/gradle/preprocess/PreprocessTask.kt:762 | the rightmost operator of `lhs OP rhs` is OP when the right side has no operator character |
| Expressions.NotAValue | src/main/kotlin/com/replaymod/gradle/preprocess/PreprocessTask.kt:800-804 | a comparison text is neither a variable, a version nor a number, so it reaches the comparison rule |
| Expressions.DottedComparisonFails | src/main/kotlin/com/replaymod/gradle/preprocess/PreprocessTask.kt:772-777 | a comparison with a `.` only on its right side is not read as a version |
| Expressions.OrOfTwo | src/main/kotlin/com/replaymod/gradle/preprocess/PreprocessTask.kt:785-788 | `x \|\| y` is the first-true scan of the two trimmed sides |
| Expressions.AndOfTwo | src/main/kotlin/com/replaymod/gradle/preprocess/PreprocessTask.kt:790-793 | `x && y` is the first-false scan of the two trimmed sides |
| Expressions.Precedence | src/main/kotlin/com/replaymod/gradle/preprocess/PreprocessTask.kt:784-794 | `a && b \|\| c && d` groups as `(a && b) \|\| (c && d)` |
| Preprocessor.Classify | src/main/kotlin/com/replaymod/gradle/preprocess/PreprocessTask.kt:848-912 | a line taken for a directive starts with that directive's keyword |
| Preprocessor.ClassifyMeaning | src/main/kotlin/com/replaymod/gradle/preprocess/PreprocessTask.kt:848-912 | a line is dispatched to the first directive, in chain order, whose keyword it starts with, and is code when it starts with none |
| Preprocessor.ClassifyFromMeaning | src/main/kotlin/com/replaymod/gradle/preprocess/PreprocessTask.kt:848-912 | the chain skips only directives whose keyword the line does not start with |
| Preprocessor.EvalCondition | src/main/kotlin/com/replaymod/gradle/preprocess/PreprocessTask.kt:833-841 | a condition succeeds exactly when it starts with a space and its trimmed text evaluates, giving that value |
| Preprocessor.Open | src/main/kotlin/com/replaymod/gradle/preprocess/PreprocessTask.kt:848-853 | opening pushes one block with the result as both current value and true-found, and keeps the frame consistent |
| Preprocessor.Replace | src/main/kotlin/com/replaymod/gradle/preprocess/PreprocessTask.kt:862-884 | the innermost block is replaced and the outer blocks are kept |
| Preprocessor.Close | src/main/kotlin/com/replaymod/gradle/preprocess/PreprocessTask.kt:892-899 | closing pops the innermost block |
| Preprocessor.ElseIfStep | src/main/kotlin/com/replaymod/gradle/preprocess/PreprocessTask.kt:854-875 | an `elseif` keeps the frame consistent |
| Preprocessor.ApplyDirective | src/main/kotlin/com/replaymod/gradle/preprocess/PreprocessTask.kt:848-911 | every directive keeps the frame consistent: one indentation per open block, active iff every block is current |
| Preprocessor.Step | src/main/kotlin/com/replaymod/gradle/preprocess/PreprocessTask.kt:843-951 | a directive line is emitted as its remapped text; a code line leaves the frame as it was |
| Preprocessor.StructuralErrors | src/main/kotlin/com/replaymod/gradle/preprocess/PreprocessTask.kt:833-911 | a missing space, an `elseif`/`else`/`endif` without a block, an `elseif` after `else`, and a doubled or missing remap toggle fail with their own errors |
| Preprocessor.StepFailures | src/main/kotlin/com/replaymod/gradle/preprocess/PreprocessTask.kt:843-944 | a line fails only with an error about itself; a code line fails only when an inactive line is shorter than the block's indentation |
| Preprocessor.DirectiveFailures | src/main/kotlin/com/replaymod/gradle/preprocess/PreprocessTask.kt:848-911 | a directive fails only with an error about its own line |
| Preprocessor.CodeLineFailures | src/main/kotlin/com/replaymod/gradle/preprocess/PreprocessTask.kt:929-939 | a code line fails only when it is inactive and shorter than the indentation it would be cut at |
| Preprocessor.ElseIfAfterTaken | src/main/kotlin/com/replaymod/gradle/preprocess/PreprocessTask.kt:865-868 | after a taken branch an `elseif` does not evaluate its condition, and the block becomes inactive |
| Preprocessor.ElseNegates | src/main/kotlin/com/replaymod/gradle/preprocess/PreprocessTask.kt:876-885 | `else` makes the block current iff no earlier branch was taken |
| Preprocessor.IfElseExclusive | src/main/kotlin/com/replaymod/gradle/preprocess/PreprocessTask.kt:848-885 | right after an `if` in an active region, `else` flips whether code is active |
| Preprocessor.EndIfUndoesIf | src/main/kotlin/com/replaymod/gradle/preprocess/PreprocessTask.kt:848-853 | an `endif` right after an `if` restores the frame the `if` found |
| Preprocessor.IfDefUnreachable | src/main/kotlin/com/replaymod/gradle/preprocess/PreprocessTask.kt:886-891 | with the two built-in keyword sets no line is ever taken for `ifdef` |
| Preprocessor.IfDefIsMissingSpace | src/main/kotlin/com/replaymod/gradle/preprocess/PreprocessTask.kt:848-849 | `//#ifdef NAME` fails as an `if` without a space |
| Preprocessor.IfDefReadAsIf | src/main/kotlin/com/replaymod/gradle/preprocess/PreprocessTask.kt:848-849 | `//#ifdef NAME` is dispatched as `if`, with no space after the keyword |
| Preprocessor.IfDefOpens | src/main/kotlin/com/replaymod/gradle/preprocess/PreprocessTask.kt:886-891 | with keywords where it can be reached, `ifdef` opens a block that is current iff the name is a variable |
| Preprocessor.ActiveCode | src/main/kotlin/com/replaymod/gradle/preprocess/PreprocessTask.kt:912-927 | active code is emitted remapped, or as the original with errors ignored while remapping is disabled |
| Preprocessor.InactiveBlank | src/main/kotlin/com/replaymod/gradle/preprocess/PreprocessTask.kt:929-931 | an inactive blank line becomes the block's indentation followed by the marker |
| Preprocessor.InactiveComments | src/main/kotlin/com/replaymod/gradle/preprocess/PreprocessTask.kt:929-942 | inactive code is commented out at the block's indentation, unless it is already commented out or indented less |
| Preprocessor.CommentRoundTrip | src/main/kotlin/com/replaymod/gradle/preprocess/PreprocessTask.kt:914-939 | uncommenting undoes commenting out |
| Preprocessor.ReactivatedLine | src/main/kotlin/com/replaymod/gradle/preprocess/PreprocessTask.kt:914-921 | a commented-out line in an active region gets its marker removed |
| Preprocessor.MarkerIsCode | src/main/kotlin/com/replaymod/gradle/preprocess/PreprocessTask.kt:848-914 | a line starting with a marker that differs from every keyword is code |
| Preprocessor.EvalMarkerIsCode | src/main/kotlin/com/replaymod/gradle/preprocess/PreprocessTask.kt:60-69 | with the Java keywords, a line starting with `//$$` is code |
| Preprocessor.CfgMarkerIsCode | src/main/kotlin/com/replaymod/gradle/preprocess/PreprocessTask.kt:71-80 | with the configuration keywords, a line starting with `#$$` is code |
| Preprocessor.Fold | src/main/kotlin/com/replaymod/gradle/preprocess/PreprocessTask.kt:843-952 | the walk keeps the frame consistent, and without a failure it emits one line per input line pair |
| Preprocessor.FoldKeepsDirective | src/main/kotlin/com/replaymod/gradle/preprocess/PreprocessTask.kt:848-911 | every directive line is emitted as its remapped text |
| Preprocessor.FailingMeaning | src/main/kotlin/com/replaymod/gradle/preprocess/PreprocessTask.kt:945-950 | the failure flag ends up set iff it was set or some line counted its remapping errors |
| Preprocessor.PrintedWhenFailing | src/main/kotlin/com/replaymod/gradle/preprocess/PreprocessTask.kt:945-950 | errors are printed exactly when these lines raise the flag |
| Preprocessor.FailingStaysSet | src/main/kotlin/com/replaymod/gradle/preprocess/PreprocessTask.kt:946 | a set failure flag is never cleared |
| Preprocessor.Report | src/main/kotlin/com/replaymod/gradle/preprocess/PreprocessTask.kt:947-949 | each error is reported once, with the line number, in order |
| Preprocessor.ConvertSource | src/main/kotlin/com/replaymod/gradle/preprocess/PreprocessTask.kt:826-957 | a successful conversion has one line per input line pair |
| Preprocessor.ConvertKeepsDirective | src/main/kotlin/com/replaymod/gradle/preprocess/PreprocessTask.kt:848-911 | directive lines of a successful conversion are their remapped text |
| Preprocessor.ConvertFailing | src/main/kotlin/com/replaymod/gradle/preprocess/PreprocessTask.kt:945-950 | the instance's flag ends up set iff it was set or some line counted errors; diagnostics are printed iff some line did |
| Preprocessor.MissingEndIfReported | src/main/kotlin/com/replaymod/gradle/preprocess/PreprocessTask.kt:953-955 | a lone `if` line whose condition evaluates is reported as a missing `endif` |
| Preprocessor.FoldDepth | src/main/kotlin/com/replaymod/gradle/preprocess/PreprocessTask.kt:843-952 | a walk that accepts every line ends with the block depth it started with plus the number of `if`/`ifdef` lines minus the number of `endif` lines |
| Preprocessor.FoldFailures | src/main/kotlin/com/replaymod/gradle/preprocess/PreprocessTask.kt:843-952 | a walk never fails with a missing `endif` itself |
| Preprocessor.ConvertMissingEndIf | src/main/kotlin/com/replaymod/gradle/preprocess/PreprocessTask.kt:826-957 | `convertSource` reports a missing `endif` exactly when every line is accepted and more blocks are opened than closed, and succeeds exactly when every line is accepted and the blocks balance |
| MappingSets.FindSig | src/main/kotlin/com/replaymod/gradle/preprocess/MappingUtils.kt:120 | lookup by signature finds a member with that signature, or there is none |
| MappingSets.LastNamed | src/main/kotlin/com/replaymod/gradle/preprocess/MappingUtils.kt:62 | a field lookup by name finds a field with that name, or there is none |
| MappingSets.LastNamedIsLast | src/main/kotlin/com/replaymod/gradle/preprocess/MappingUtils.kt:62 | the field found by name is the last one created with that name, as the library's by-name index is overwritten by each new field |
| MappingSets.FirstNamed | src/main/kotlin/com/replaymod/gradle/preprocess/MappingUtils.kt:127 | a method lookup by name finds a method with that name, or there is none |
| MappingSets.FirstNamedIsFirst | src/main/kotlin/com/replaymod/gradle/preprocess/MappingUtils.kt:127 | `find` returns the first method with that name in table order |
| MappingSets.LastDollar | src/main/kotlin/com/replaymod/gradle/preprocess/MappingUtils.kt:70 | the position of the last `$` of a class name, or none |
| MappingSets.ComputeClass | src/main/kotlin/com/replaymod/gradle/preprocess/MappingUtils.kt:70 | a top-level class name (no `$`) is looked up in the set directly, its full new name being the mapping's new name |
| MappingSets.DeobfClass | src/main/kotlin/com/replaymod/gradle/preprocess/MappingUtils.kt:70 | a top-level class known to the set gets its new name, an unknown one keeps its name |
| MappingSets.DeobfInnerExample | src/main/kotlin/com/replaymod/gradle/preprocess/MappingUtils.kt:70 | an inner class is renamed under its outer class's new name, and an inner class the set lacks keeps its own name there |
| MappingSets.Member.DeobfSig | src/main/kotlin/com/replaymod/gradle/preprocess/MappingUtils.kt:70 | the deobfuscated signature has the member's new name, and its descriptor is unchanged when the renaming is the identity |
| MappingSets.DeobfSigExample | src/main/kotlin/com/replaymod/gradle/preprocess/MappingUtils.kt:70 | the class references of a descriptor are deobfuscated through the set's class renames: `(Lx;)V` becomes `(LFoo;)V` when `x` is renamed to `Foo` |
| MappingSets.Put | src/main/kotlin/com/replaymod/gradle/preprocess/MappingUtils.kt:161-163 | creating a mapping makes its signature find it and leaves every other lookup unchanged |
| MappingSets.PutFrom | src/main/kotlin/com/replaymod/gradle/preprocess/MappingUtils.kt:161-163 | putting adds no member but the one put |
| MappingSets.PutUnique | src/main/kotlin/com/replaymod/gradle/preprocess/MappingUtils.kt:161-163 | putting keeps signatures unique |
| MappingSets.PutAllFind | src/main/kotlin/com/replaymod/gradle/preprocess/MappingUtils.kt:69-73 | after copying members, a signature finds the last copied member with it, else what it found before |
| MappingSets.ClassOnly | src/main/kotlin/com/replaymod/gradle/preprocess/MappingUtils.kt:20-23 | the class renames keep names and inner classes and drop all members |
| MappingSets.SplitOff | src/main/kotlin/com/replaymod/gradle/preprocess/MappingUtils.kt:19-30 | both results keep every class of the set |
| MappingSets.IdentityIsIdentity | src/main/kotlin/com/replaymod/gradle/preprocess/MappingUtils.kt:24-37 | the stripped classes rename every class, inner ones too, to itself, and keep their members |
| MappingSets.SplitOffRoundTrip | src/main/kotlin/com/replaymod/gradle/preprocess/MappingUtils.kt:19-38 | putting the class renames back onto the stripped classes gives the original classes |
| MappingSets.SplitOffMeaning | src/main/kotlin/com/replaymod/gradle/preprocess/MappingUtils.kt:19-38 | for every class: the renames keep its new name, the stripped class is the identity with the same members, and the two recombine into the original |
| MappingSets.JoinMember | src/main/kotlin/com/replaymod/gradle/preprocess/MappingUtils.kt:161-174 | a joined member keeps `a`'s signature and takes `b`'s new name |
| MappingSets.MergedMember | src/main/kotlin/com/replaymod/gradle/preprocess/MappingUtils.kt:61-68 | an `a` member keeps its signature and takes the new name of the `b` member found, or is copied when none is found |
| MappingSets.MergedFields | src/main/kotlin/com/replaymod/gradle/preprocess/MappingUtils.kt:61-68 | each `a` field is joined with the last `b` field named like its new name, or copied |
| MappingSets.MergedMethods | src/main/kotlin/com/replaymod/gradle/preprocess/MappingUtils.kt:74-81 | each `a` method is joined with the `b` method of its deobfuscated signature, the descriptor renamed through `a`'s classes, or copied |
| MappingSets.Unclaimed | src/main/kotlin/com/replaymod/gradle/preprocess/MappingUtils.kt:69-73 | the `b` members kept are exactly those whose signature is no `a` member's deobfuscated signature, descriptors renamed through `a`'s classes |
| MappingSets.MergeClass | src/main/kotlin/com/replaymod/gradle/preprocess/MappingUtils.kt:60-102 | a merged class has `b`'s name; its inner classes are `a`'s plus the unclaimed ones of `b`, kept as they are, and `a`'s inner classes are renamed through `b` |
| MappingSets.MergeKeepsB | src/main/kotlin/com/replaymod/gradle/preprocess/MappingUtils.kt:69-86 | a `b` field or method that no `a` member leads to by its deobfuscated signature is in the merge unchanged |
| MappingSets.MergeKeepsA | src/main/kotlin/com/replaymod/gradle/preprocess/MappingUtils.kt:61-81 | an `a` field or method is in the merge, joined with its partner (the last `b` field of its new name, the `b` method of its deobfuscated signature) or copied |
| MappingSets.MergeBoth | src/main/kotlin/com/replaymod/gradle/preprocess/MappingUtils.kt:41-58 | the classes are `a`'s plus the unclaimed classes of `b`, kept as they are; `a`'s classes are renamed through `b` where `b` has them |
| MappingSets.Partner | src/main/kotlin/com/replaymod/gradle/preprocess/MappingUtils.kt:119-130 | an `a` member's join partner is a `b` member carrying its new name, and there is none exactly when no `b` member carries that name |
| MappingSets.JoinMembers | src/main/kotlin/com/replaymod/gradle/preprocess/MappingUtils.kt:119-130 | the joined members are exactly the `a` members with a partner (by deobfuscated signature, descriptor renamed through `a`'s classes, else by new name), each joined with it |
| MappingSets.JoinMembersFind | src/main/kotlin/com/replaymod/gradle/preprocess/MappingUtils.kt:119-130 | a signature finds the join of `a`'s member with its partner, and nothing when that member or its partner is missing |
| MappingSets.JoinClassFind | src/main/kotlin/com/replaymod/gradle/preprocess/MappingUtils.kt:116-158 | fields and methods of a joined class are looked up like `a`'s, then through the partner found by deobfuscated signature or by new name |
| MappingSets.JoinClass | src/main/kotlin/com/replaymod/gradle/preprocess/MappingUtils.kt:116-158 | a joined class has `b`'s name and keeps the inner classes of `a` whose new name `b` knows |
| MappingSets.Join | src/main/kotlin/com/replaymod/gradle/preprocess/MappingUtils.kt:107-114 | a class survives the join iff `b` has a class under its new name, and it takes that class's name |
| Inference.AddNames | src/main/kotlin/com/replaymod/gradle/preprocess/PreprocessTask.kt:552-561 | the owner is listed under exactly the given names that carry the prefix |
| Inference.BuildIndex | src/main/kotlin/com/replaymod/gradle/preprocess/PreprocessTask.kt:546-579 | a class is listed under a member name iff it is not done and declares that name as a `field_…` field or a `func_…` method |
| Inference.Gather | src/main/kotlin/com/replaymod/gradle/preprocess/PreprocessTask.kt:631-642 | the gathered classes are those listed under some of the names |
| Inference.Candidates | src/main/kotlin/com/replaymod/gradle/preprocess/PreprocessTask.kt:631-642 | the candidates are the classes of the other tree sharing an indexed member name with the class |
| Inference.WinnerFrom | src/main/kotlin/com/replaymod/gradle/preprocess/PreprocessTask.kt:644-651 | a winner beats every other candidate by count |
| Inference.Best | src/main/kotlin/com/replaymod/gradle/preprocess/PreprocessTask.kt:644-654 | no candidate iff none was gathered; a single guess is strictly most frequent; otherwise all candidates are returned and none is strictly best |
| Inference.BestMeaning | src/main/kotlin/com/replaymod/gradle/preprocess/PreprocessTask.kt:644-654 | at most one candidate is strictly most frequent, and an ambiguous guess names at least two |
| Inference.Infer | src/main/kotlin/com/replaymod/gradle/preprocess/PreprocessTask.kt:624-656 | there is a guess for exactly the class names not done |
| Inference.InferAt | src/main/kotlin/com/replaymod/gradle/preprocess/PreprocessTask.kt:625-655 | with unique names, each class gets the guess of its own candidates |
| Inference.InferValue | src/main/kotlin/com/replaymod/gradle/preprocess/PreprocessTask.kt:624-656 | each guess is that of some class with the key's name |
| Inference.Keys | src/main/kotlin/com/replaymod/gradle/preprocess/PreprocessTask.kt:584 | the guesses are visited once per class name not done |
| Inference.FirstNamed | src/main/kotlin/com/replaymod/gradle/preprocess/PreprocessTask.kt:606-607 | the first class with the name, or none when no class has it |
| Inference.RenameFirst | src/main/kotlin/com/replaymod/gradle/preprocess/PreprocessTask.kt:606-612 | renaming fails exactly when no class has the name |
| Inference.PairUp | src/main/kotlin/com/replaymod/gradle/preprocess/PreprocessTask.kt:609-613 | a committed pair takes the next `class_N` and marks it done |
| Inference.PairUpShrinks | src/main/kotlin/com/replaymod/gradle/preprocess/PreprocessTask.kt:609-613 | committing a pair never adds to the classes not done |
| Inference.CommitNames | src/main/kotlin/com/replaymod/gradle/preprocess/PreprocessTask.kt:584-614 | a commit loop adds one name per pair and only those names to `done` |
| Inference.CommitNumbers | src/main/kotlin/com/replaymod/gradle/preprocess/PreprocessTask.kt:609 | the shared names are numbered consecutively from the counter |
| Inference.CommitIdle | src/main/kotlin/com/replaymod/gradle/preprocess/PreprocessTask.kt:584-614 | a commit loop without pairs changes nothing |
| Inference.CommitPairs | src/main/kotlin/com/replaymod/gradle/preprocess/PreprocessTask.kt:584-604 | every committed pair is a mutual single guess |
| Inference.CommitShrinks | src/main/kotlin/com/replaymod/gradle/preprocess/PreprocessTask.kt:584-614 | a commit loop never adds to the classes not done |
| Inference.RoundMeaning | src/main/kotlin/com/replaymod/gradle/preprocess/PreprocessTask.kt:543-614 | a round adds exactly its pairs' names, commits only mutual single guesses, and shrinks the work left when it commits anything |
| Inference.Unchanged | src/main/kotlin/com/replaymod/gradle/preprocess/PreprocessTask.kt:526-537 | the names both trees have are done from the start |
| Inference.RenameKeeps | src/main/kotlin/com/replaymod/gradle/preprocess/PreprocessTask.kt:609-612 | renaming one class keeps every other name present |
| Inference.CommitOk | src/main/kotlin/com/replaymod/gradle/preprocess/PreprocessTask.kt:584-607 | a commit loop raises nothing when every reverse lookup has a guess and every destination class exists |
| Inference.GuessSource | src/main/kotlin/com/replaymod/gradle/preprocess/PreprocessTask.kt:631-642 | a single guess comes from a member the guessed class shares with the guessing class |
| Inference.GuessHasReverse | src/main/kotlin/com/replaymod/gradle/preprocess/PreprocessTask.kt:594-595 | with unique destination names and the field/method naming discipline, a single guess has a non-empty reverse guess |
| Inference.RoundOk | src/main/kotlin/com/replaymod/gradle/preprocess/PreprocessTask.kt:584-614 | a round raises nothing under that discipline |
| Inference.HandOut | src/main/kotlin/com/replaymod/gradle/preprocess/PreprocessTask.kt:609-615 | handing out consecutive names keeps later names fresh, and `done` grows iff a pair was committed |
| Inference.RoundsStable | src/main/kotlin/com/replaymod/gradle/preprocess/PreprocessTask.kt:542-615 | when `Rounds` stops, a further round commits nothing and changes nothing |
| Inference.RoundsOk | src/main/kotlin/com/replaymod/gradle/preprocess/PreprocessTask.kt:542-615 | the loop raises nothing when the trees keep the discipline |
| Inference.InferSharedOk | src/main/kotlin/com/replaymod/gradle/preprocess/PreprocessTask.kt:521-616 | `inferSharedClassMappings` (`InferShared`, running `Rounds` from the unchanged state) raises nothing when destination names are unique, kinds are apart, and no destination class is already named `class_N` |
| Inference.RoundPairsBeat | src/main/kotlin/com/replaymod/gradle/preprocess/PreprocessTask.kt:584-604 | each pair is two classes that each count the other strictly more often than any other candidate |
| Trees.IndexOfName | src/main/kotlin/com/replaymod/gradle/preprocess/PreprocessTask.kt:665-668 | the first position of a name, or none when it is absent |
| Trees.NamespaceId | src/main/kotlin/com/replaymod/gradle/preprocess/PreprocessTask.kt:665-668 | the source namespace is -1, a destination namespace its position, anything else -2 |
| Trees.NamespaceIdMeaning | src/main/kotlin/com/replaymod/gradle/preprocess/PreprocessTask.kt:665-668 | an id found in a tree stands for that namespace there |
| Trees.GetClass | src/main/kotlin/com/replaymod/gradle/preprocess/PreprocessTask.kt:705-714 | a class lookup finds a class of the tree with that name in the namespace, or there is none |
| Trees.GetMember | src/main/kotlin/com/replaymod/gradle/preprocess/PreprocessTask.kt:726-727 | a member lookup finds a member with that name, and that descriptor when one is asked for |
| Trees.Desc | src/main/kotlin/com/replaymod/gradle/preprocess/PreprocessTask.kt:719 | a member has a descriptor in a namespace iff it has a source descriptor |
| Trees.DescInSource | src/main/kotlin/com/replaymod/gradle/preprocess/PreprocessTask.kt:719 | in the source namespace a member's descriptor is its own |
| StrictMerge.MergeIdsOf | src/main/kotlin/com/replaymod/gradle/preprocess/PreprocessTask.kt:665-668 | each of the four ids is looked up in the tree it is used on: both source ids in the source tree, both destination ids in the destination tree; each stands for its namespace there, or for none when the tree lacks it |
| StrictMerge.RemoveAt | src/main/kotlin/com/replaymod/gradle/preprocess/PreprocessTask.kt:705-735 | removing a used manual entry drops it and keeps the others |
| StrictMerge.FindExt | src/main/kotlin/com/replaymod/gradle/preprocess/PreprocessTask.kt:719-733 | the first manual member with that name, and that descriptor when one is known |
| StrictMerge.SharedMember | src/main/kotlin/com/replaymod/gradle/preprocess/PreprocessTask.kt:726-742 | a member found through the shared namespace is a destination member with the same shared name |
| StrictMerge.MembersLeftFromExt | src/main/kotlin/com/replaymod/gradle/preprocess/PreprocessTask.kt:718-745 | the unused manual members are manual members |
| StrictMerge.MembersKeepExt | src/main/kotlin/com/replaymod/gradle/preprocess/PreprocessTask.kt:718-745 | each manual member is emitted under its names or left over |
| StrictMerge.MembersFrom | src/main/kotlin/com/replaymod/gradle/preprocess/PreprocessTask.kt:718-745 | each emitted member comes from a source member, renamed by a manual member it claims or through the shared namespace |
| StrictMerge.ExtMemberWins | src/main/kotlin/com/replaymod/gradle/preprocess/PreprocessTask.kt:719-724 | a source member that claims a manual member is emitted under that manual name |
| StrictMerge.SharedMemberUsed | src/main/kotlin/com/replaymod/gradle/preprocess/PreprocessTask.kt:726-730 | a source member without a manual member is emitted under the name found through the shared namespace |
| StrictMerge.Inject | src/main/kotlin/com/replaymod/gradle/preprocess/PreprocessTask.kt:677-702 | a leftover manual member is emitted iff it has a descriptor, and one without a descriptor is logged |
| StrictMerge.FindClass | src/main/kotlin/com/replaymod/gradle/preprocess/PreprocessTask.kt:705 | the first manual class with that name, or none |
| StrictMerge.SharedClass | src/main/kotlin/com/replaymod/gradle/preprocess/PreprocessTask.kt:713-714 | the destination class found through the shared namespace has the source class's shared name |
| StrictMerge.ConsumeClass | src/main/kotlin/com/replaymod/gradle/preprocess/PreprocessTask.kt:705-748 | a class that used a manual class takes its names |
| StrictMerge.InjectClass | src/main/kotlin/com/replaymod/gradle/preprocess/PreprocessTask.kt:750-754 | a leftover manual class is emitted under its names |
| StrictMerge.MembersCarried | src/main/kotlin/com/replaymod/gradle/preprocess/PreprocessTask.kt:718-748 | each manual member is emitted, or logged as lacking a descriptor |
| StrictMerge.ConsumeCarries | src/main/kotlin/com/replaymod/gradle/preprocess/PreprocessTask.kt:705-748 | a used manual class is carried into the class it produces |
| StrictMerge.InjectCarries | src/main/kotlin/com/replaymod/gradle/preprocess/PreprocessTask.kt:750-754 | a leftover manual class is carried into the table |
| StrictMerge.ExtClassesKept | src/main/kotlin/com/replaymod/gradle/preprocess/PreprocessTask.kt:704-754 | no manual class is lost by `MergeMappings`: each is carried into some emitted class |
| StrictMerge.ClassesFrom | src/main/kotlin/com/replaymod/gradle/preprocess/PreprocessTask.kt:704-754 | each class `mergeMappings` (`MergeMappings`) emits is named by a manual class or through the shared namespace |
| StrictMerge.SharedClassUsed | src/main/kotlin/com/replaymod/gradle/preprocess/PreprocessTask.kt:713-745 | a source class without a manual class is emitted through its shared destination class |
| StrictMerge.ExtClassWins | src/main/kotlin/com/replaymod/gradle/preprocess/PreprocessTask.kt:705-712 | a manual class is used by the first source class of its name |
| Descriptors.SemicolonFrom | src/main/kotlin/com/replaymod/gradle/preprocess/ExtraMapping.kt:132-133 | the first `;` at or after a position, or the end |
| Descriptors.MapDescIdentity | src/main/kotlin/com/replaymod/gradle/preprocess/ExtraMapping.kt:132-133 | `mapDesc` (`MapDesc`) through the identity changes nothing |
| Descriptors.MapDescCompose | src/main/kotlin/com/replaymod/gradle/preprocess/ExtraMapping.kt:189-195 | mapping twice is mapping through the composed renaming |
| Descriptors.MapDescRoundTrip | src/main/kotlin/com/replaymod/gradle/preprocess/ExtraMapping.kt:132-138 | mapping forwards then backwards restores a descriptor when the renamings are inverse |
| Descriptors.MapDescPrimitive | src/main/kotlin/com/replaymod/gradle/preprocess/ExtraMapping.kt:132-133 | a descriptor without class references is its own image |
| ClassTables.IndexOfSrc | src/main/kotlin/com/replaymod/gradle/preprocess/ExtraMapping.kt:87-95 | the first entry for a class, or none |
| ClassTables.Lookup | src/main/kotlin/com/replaymod/gradle/preprocess/ExtraMapping.kt:87-95 | the destination of a listed class, and none for an unlisted one |
| ClassTables.VisitMeaning | src/main/kotlin/com/replaymod/gradle/preprocess/ExtraMapping.kt:87-95 | a visit sets one class's name and keeps every other one, without listing a class twice |
| ClassTables.VisitAllMeaning | src/main/kotlin/com/replaymod/gradle/preprocess/ExtraMapping.kt:84-96 | after visiting pairs in order, the last pair for a class wins and other classes keep their names |
| ClassTables.LastDst | src/main/kotlin/com/replaymod/gradle/preprocess/ExtraMapping.kt:82 | the destination of the last pair for a class |
| ClassTables.LastWithDst | src/main/kotlin/com/replaymod/gradle/preprocess/ExtraMapping.kt:132-133 | the source of the last class with that destination name |
| ClassTables.BackwardForward | src/main/kotlin/com/replaymod/gradle/preprocess/ExtraMapping.kt:132-138 | on a one-to-one table, mapping a listed class back undoes mapping it forward, and the other way round |
| InternalNames.Dotted | src/main/kotlin/com/replaymod/gradle/preprocess/ExtraMapping.kt:56-74 | reading separators back as dots changes nothing else |
| InternalNames.InternalDotted | src/main/kotlin/com/replaymod/gradle/preprocess/ExtraMapping.kt:56-73 | the converted rest reads back as the dotted name it came from |
| InternalNames.ToInternalDotted | src/main/kotlin/com/replaymod/gradle/preprocess/ExtraMapping.kt:56-74 | `toInternal` (`ToInternal`) only replaces dots, so the dotted name is recovered |
| InternalNames.InternalFails | src/main/kotlin/com/replaymod/gradle/preprocess/ExtraMapping.kt:63-65 | the conversion fails exactly at an empty segment before the class part |
| InternalNames.ToInternalFails | src/main/kotlin/com/replaymod/gradle/preprocess/ExtraMapping.kt:56-65 | `toInternal` fails exactly on a name with an empty package segment after the first |
| InternalNames.InnerTail | src/main/kotlin/com/replaymod/gradle/preprocess/ExtraMapping.kt:69 | inner classes follow `$` |
| InternalNames.PackageTail | src/main/kotlin/com/replaymod/gradle/preprocess/ExtraMapping.kt:63-69 | package segments and the first class segment follow `/` |
| InternalNames.ToInternalShape | src/main/kotlin/com/replaymod/gradle/preprocess/ExtraMapping.kt:56-74 | `a.b.C.D` becomes `a/b/C$D` in general: packages by `/`, inner classes by `$` |
| ExtraParse.DescAsWritten | src/main/kotlin/com/replaymod/gradle/preprocess/ExtraMapping.kt:305-308 | a descriptor read from a token starts with `(` and is never `()` |
| ExtraParse.DescOf | src/main/kotlin/com/replaymod/gradle/preprocess/ExtraMapping.kt:307 | a destination descriptor is read only from a token with `(` |
| ExtraParse.MethodTokenRoundTrip | src/main/kotlin/com/replaymod/gradle/preprocess/ExtraMapping.kt:304-310 | a method token splits back into its name and descriptor |
| ExtraParse.TokenSplits | src/main/kotlin/com/replaymod/gradle/preprocess/ExtraMapping.kt:304-310 | a token with `(` is its name followed by its descriptor |
| ExtraParse.ParseParts | src/main/kotlin/com/replaymod/gradle/preprocess/ExtraMapping.kt:284-317 | an entry or an error carries the line's number |
| ExtraParse.ParseLineWith | src/main/kotlin/com/replaymod/gradle/preprocess/ExtraMapping.kt:276-317 | an entry or an error carries the line's number |
| ExtraParse.ParseLineAsWritten | src/main/kotlin/com/replaymod/gradle/preprocess/ExtraMapping.kt:276-317 | an error carries the line's number |
| ExtraParse.ParseLine | src/main/kotlin/com/replaymod/gradle/preprocess/ExtraMapping.kt:276-317 | an entry or an error carries the line's number |
| ExtraParse.ParseLineSkips | src/main/kotlin/com/replaymod/gradle/preprocess/ExtraMapping.kt:279-282 | a line yields nothing exactly when it is blank or a comment |
| ExtraParse.ParseLineErrors | src/main/kotlin/com/replaymod/gradle/preprocess/ExtraMapping.kt:286-317 | a line fails exactly with two tokens where the second ends in `;`, or with fewer than two or more than four tokens |
| ExtraParse.ParsersAgree | src/main/kotlin/com/replaymod/gradle/preprocess/ExtraMapping.kt:276-317 | the parser as written and the corrected one fail alike, skip alike, agree on class and field entries, and differ on a method entry only in its destination descriptor |
| ExtraParse.ParserAsWrittenInventsDescriptor | src/main/kotlin/com/replaymod/gradle/preprocess/ExtraMapping.kt:307 | the code gives the destination of `a.B foo() bar` the descriptor `(bar` |
| ExtraParse.PlainToken | src/main/kotlin/com/replaymod/gradle/preprocess/ExtraMapping.kt:307 | a token without `(` names no destination descriptor |
| ExtraParse.LineRoundTrip | src/main/kotlin/com/replaymod/gradle/preprocess/ExtraMapping.kt:279-284 | a line of tokens is read back as its tokens |
| ExtraParse.ParsePrinted | src/main/kotlin/com/replaymod/gradle/preprocess/ExtraMapping.kt:273-320 | every entry a line can express is read back from its line |
| ExtraParse.ParsePartsPrinted | src/main/kotlin/com/replaymod/gradle/preprocess/ExtraMapping.kt:284-317 | the tokens of such an entry give it back |
| ExtraParse.ReadFromErrors | src/main/kotlin/com/replaymod/gradle/preprocess/ExtraMapping.kt:273-320 | a read fails exactly when some line fails, with the first failing line's error |
| ExtraParse.ReadFromFails | src/main/kotlin/com/replaymod/gradle/preprocess/ExtraMapping.kt:273-320 | a read fails exactly when some line fails |
| ExtraParse.ReadFromFailsAt | src/main/kotlin/com/replaymod/gradle/preprocess/ExtraMapping.kt:273-320 | one failing line, wherever it sits, makes the whole read fail |
| ExtraParse.ReadFromFirstError | src/main/kotlin/com/replaymod/gradle/preprocess/ExtraMapping.kt:273-320 | a failed read reports its first failing line |
| ExtraParse.ReadFromEntries | src/main/kotlin/com/replaymod/gradle/preprocess/ExtraMapping.kt:273-320 | a read holds exactly the entries of its lines |
| ExtraParse.Read | src/main/kotlin/com/replaymod/gradle/preprocess/ExtraMapping.kt:273-320 | `read`, each line parsed as written, fails exactly when a line fails to parse |
| ExtraParse.ReadCorrected | src/main/kotlin/com/replaymod/gradle/preprocess/ExtraMapping.kt:273-320 | the read with the corrected line parser fails exactly when a line fails to parse |
| ExtraParse.ReadFromSameErrors | src/main/kotlin/com/replaymod/gradle/preprocess/ExtraMapping.kt:273-320 | the two line parsers make a read fail alike, with the same error |
| ExtraParse.ReadFails | src/main/kotlin/com/replaymod/gradle/preprocess/ExtraMapping.kt:273-320 | a read as written and a corrected read fail exactly on a bad line, and when the read as written fails the corrected one fails alike |
| ExtraParse.ReadEntriesFromLines | src/main/kotlin/com/replaymod/gradle/preprocess/ExtraMapping.kt:276-282 | each entry of either read carries the number, from 1, of the line it came from, and is that line's entry |
| ExtraParse.ReadKeepsEntries | src/main/kotlin/com/replaymod/gradle/preprocess/ExtraMapping.kt:273-320 | no line's entry is missing from either read |
| ExtraResolve.ResolveIdsMeaning | src/main/kotlin/com/replaymod/gradle/preprocess/ExtraMapping.kt:49-52 | every id names, in the tree it is used on, the namespace it is meant for |
| ExtraResolve.IdsAsWrittenMisread | src/main/kotlin/com/replaymod/gradle/preprocess/ExtraMapping.kt:51-52 | the ids as written mean the wrong namespaces on a destination tree that orders them differently |
| ExtraResolve.EntryToInternalMeaning | src/main/kotlin/com/replaymod/gradle/preprocess/ExtraMapping.kt:54-80 | conversion changes only class names, and fails exactly when one of them cannot be converted |
| ExtraResolve.AllToInternal | src/main/kotlin/com/replaymod/gradle/preprocess/ExtraMapping.kt:54-80 | all entries are converted in order, or the first bad one is reported |
| ExtraResolve.ClassPairs | src/main/kotlin/com/replaymod/gradle/preprocess/ExtraMapping.kt:82 | the pairs are exactly the class entries |
| ExtraResolve.TreePairs | src/main/kotlin/com/replaymod/gradle/preprocess/ExtraMapping.kt:87-92 | the pairs are exactly the classes the trees agree on |
| ExtraResolve.ClassTableMeaning | src/main/kotlin/com/replaymod/gradle/preprocess/ExtraMapping.kt:82-96 | a manual class entry wins; otherwise a class is named through the shared namespace, or is unknown |
| ExtraResolve.LastDstOfTable | src/main/kotlin/com/replaymod/gradle/preprocess/ExtraMapping.kt:82 | in a table without repeated sources, the last pair is the lookup |
| ExtraResolve.FindDstCls | src/main/kotlin/com/replaymod/gradle/preprocess/ExtraMapping.kt:99-118 | the manual class first, then the shared namespace; an unknown class is logged, and a destination without a name is an error |
| ExtraResolve.Named | src/main/kotlin/com/replaymod/gradle/preprocess/ExtraMapping.kt:149-150 | the methods with a name, in class order |
| ExtraResolve.FindByDesc | src/main/kotlin/com/replaymod/gradle/preprocess/ExtraMapping.kt:162-165 | the first method with that descriptor, or none |
| ExtraResolve.ExactPairs | src/main/kotlin/com/replaymod/gradle/preprocess/ExtraMapping.kt:162-173 | each exact pair uses up one overload on each side, and pairs a source descriptor with the destination descriptor it maps to |
| ExtraResolve.ExactPairsMeaning | src/main/kotlin/com/replaymod/gradle/preprocess/ExtraMapping.kt:161-173 | exact pairing fails iff a source overload has no descriptor; the overloads left over are subsequences of the inputs; each pair's descriptors belong to overloads of each side; no source overload left over has an exact partner among the destination ones left over |
| ExtraResolve.ExactPairsFails | src/main/kotlin/com/replaymod/gradle/preprocess/ExtraMapping.kt:162-163 | exact pairing fails exactly when a source overload has no descriptor |
| ExtraResolve.ExactPairsLeft | src/main/kotlin/com/replaymod/gradle/preprocess/ExtraMapping.kt:161-173 | the overloads left unpaired are the inputs with some left out, in order |
| ExtraResolve.ExactPairsFrom | src/main/kotlin/com/replaymod/gradle/preprocess/ExtraMapping.kt:161-173 | each pair's source descriptor is a source overload's and its destination descriptor a destination overload's |
| ExtraResolve.ExactPairsMaximal | src/main/kotlin/com/replaymod/gradle/preprocess/ExtraMapping.kt:161-173 | no overload left over on the source side has an exact partner among those left over on the destination side |
| ExtraResolve.SubseqTrans | src/main/kotlin/com/replaymod/gradle/preprocess/ExtraMapping.kt:161-173 | a subsequence of a subsequence is a subsequence |
| ExtraResolve.SubseqRemove | src/main/kotlin/com/replaymod/gradle/preprocess/ExtraMapping.kt:167 | removing one element leaves a subsequence |
| ExtraResolve.ZipLeft | src/main/kotlin/com/replaymod/gradle/preprocess/ExtraMapping.kt:176-182 | the remaining overloads are paired in order, as many as the shorter side |
| ExtraResolve.AllDescs | src/main/kotlin/com/replaymod/gradle/preprocess/ExtraMapping.kt:187-189 | the overloads' descriptors, or none when one lacks a descriptor |
| ExtraResolve.Dedup | src/main/kotlin/com/replaymod/gradle/preprocess/ExtraMapping.kt:187-189 | the distinct descriptors, in first-occurrence order |
| ExtraResolve.EntriesFor | src/main/kotlin/com/replaymod/gradle/preprocess/ExtraMapping.kt:191-197 | one entry per source descriptor, with the descriptor mapped forward |
| ExtraResolve.PairOverloads | src/main/kotlin/com/replaymod/gradle/preprocess/ExtraMapping.kt:158-185 | with equal counts, one entry per source overload |
| ExtraResolve.PairOverloadsMeaning | src/main/kotlin/com/replaymod/gradle/preprocess/ExtraMapping.kt:158-185 | with equal counts, pairing fails iff a source overload has no descriptor; otherwise the exact pairs come first, then the overloads left over on both sides, as many on each, paired by position with their own descriptors |
| ExtraResolve.OverloadDescs | src/main/kotlin/com/replaymod/gradle/preprocess/ExtraMapping.kt:187-189 | the collected descriptors are distinct |
| ExtraResolve.OverloadDescsCover | src/main/kotlin/com/replaymod/gradle/preprocess/ExtraMapping.kt:187-189 | every overload's descriptor is collected, a destination one mapped back |
| ExtraResolve.OverloadDescsOnly | src/main/kotlin/com/replaymod/gradle/preprocess/ExtraMapping.kt:187-189 | only overloads' descriptors are collected |
| ExtraResolve.OverloadDescsFail | src/main/kotlin/com/replaymod/gradle/preprocess/ExtraMapping.kt:187-189 | collecting fails exactly when an overload has no descriptor |
| ExtraResolve.CompleteOverloads | src/main/kotlin/com/replaymod/gradle/preprocess/ExtraMapping.kt:143-197 | a missing signature is logged iff neither class is known; a missing method iff a class is known and neither side has an overload of that name; no entry is made iff no side has such an overload; equal counts are paired, unequal ones collected |
| ExtraResolve.UnequalOverloads | src/main/kotlin/com/replaymod/gradle/preprocess/ExtraMapping.kt:187-197 | with unequal counts, completion fails iff descriptors cannot be collected, and otherwise makes one entry per collected descriptor |
| ExtraResolve.UnequalOverloadsMeaning | src/main/kotlin/com/replaymod/gradle/preprocess/ExtraMapping.kt:187-197 | with unequal counts, completion fails iff an overload of either side has no descriptor; otherwise every overload's descriptor in source terms has an entry, every entry's descriptor is an overload's, no two entries share a source descriptor, and each destination descriptor is the source one mapped |
| ExtraResolve.UnequalOverloadsCover | src/main/kotlin/com/replaymod/gradle/preprocess/ExtraMapping.kt:187-190 | every overload's descriptor, in source terms, has an entry |
| ExtraResolve.UnequalOverloadsOnly | src/main/kotlin/com/replaymod/gradle/preprocess/ExtraMapping.kt:187-197 | every entry's source descriptor is an overload's, and its destination descriptor that one mapped |
| ExtraResolve.SrcOverloads | src/main/kotlin/com/replaymod/gradle/preprocess/ExtraMapping.kt:149 | the source overloads all carry the entry's source name |
| ExtraResolve.DstOverloads | src/main/kotlin/com/replaymod/gradle/preprocess/ExtraMapping.kt:150 | the destination overloads all carry the entry's destination name |
| ExtraResolve.CompleteMethod | src/main/kotlin/com/replaymod/gradle/preprocess/ExtraMapping.kt:125-141 | a missing descriptor is mapped from the other side's |
| ExtraResolve.CompleteEntry | src/main/kotlin/com/replaymod/gradle/preprocess/ExtraMapping.kt:119-199 | class entries pass through, and every completed entry is this entry with its classes and descriptors filled in |
| ExtraResolve.CompleteAllSound | src/main/kotlin/com/replaymod/gradle/preprocess/ExtraMapping.kt:98-200 | completed entries and problems come from the file's entries |
| ExtraResolve.CompleteAllEntries | src/main/kotlin/com/replaymod/gradle/preprocess/ExtraMapping.kt:98-200 | each completed entry completes an entry of the file |
| ExtraResolve.CompleteAllLines | src/main/kotlin/com/replaymod/gradle/preprocess/ExtraMapping.kt:98-200 | each problem names a line of the file |
| ExtraResolve.CompleteAllComplete | src/main/kotlin/com/replaymod/gradle/preprocess/ExtraMapping.kt:98-200 | no entry is lost: each is completed or has a logged problem |
| ExtraResolve.Swap | src/main/kotlin/com/replaymod/gradle/preprocess/ExtraMapping.kt:202-221 | the backward entry swaps the classes, and source and destination |
| ExtraResolve.SwapTwice | src/main/kotlin/com/replaymod/gradle/preprocess/ExtraMapping.kt:202-221 | swapping twice gives the entry back |
| ExtraResolve.SwapAll | src/main/kotlin/com/replaymod/gradle/preprocess/ExtraMapping.kt:202-221 | the backward entries are the forward ones swapped |
| EntryTables.GroupKeys | src/main/kotlin/com/replaymod/gradle/preprocess/ExtraMapping.kt:232-238 | the keys are the entries' source classes, each once |
| EntryTables.Group | src/main/kotlin/com/replaymod/gradle/preprocess/ExtraMapping.kt:232-238 | a group holds exactly the entries about its class |
| EntryTables.FirstClassDst | src/main/kotlin/com/replaymod/gradle/preprocess/ExtraMapping.kt:244 | the name of the first class entry, or none |
| EntryTables.PutMember | src/main/kotlin/com/replaymod/gradle/preprocess/ExtraMapping.kt:253-254 | a visit followed by `visitDstName`: the member with the same name and descriptor takes the new destination name in place, and a new key is appended; keys stay unique |
| EntryTables.LastVisited | src/main/kotlin/com/replaymod/gradle/preprocess/ExtraMapping.kt:250-261 | none iff no entry visits the key; otherwise the destination name of the last entry that visits it |
| EntryTables.Visit | src/main/kotlin/com/replaymod/gradle/preprocess/ExtraMapping.kt:250-261 | the members after visiting the entries in order: one per name and descriptor, holding exactly the destination name of the last visit to that key |
| EntryTables.VisitGroup | src/main/kotlin/com/replaymod/gradle/preprocess/ExtraMapping.kt:232-250 | visiting a class's `groupBy` group is visiting all entries, when only entries about that class put members |
| EntryTables.MethodDst | src/main/kotlin/com/replaymod/gradle/preprocess/ExtraMapping.kt:257-260 | a method's destination name in the table is that of the last method entry with its class, name and descriptor |
| EntryTables.FieldDst | src/main/kotlin/com/replaymod/gradle/preprocess/ExtraMapping.kt:252-256 | a field's destination name in the table is that of the last field entry with its class and name |
| EntryTables.TableSources | src/main/kotlin/com/replaymod/gradle/preprocess/ExtraMapping.kt:232-243 | the classes of `entriesToMappingTree` (`EntriesToTable`) are the group keys, in order |
| EntryTables.TableDistinct | src/main/kotlin/com/replaymod/gradle/preprocess/ExtraMapping.kt:232-243 | no source class has two table classes |
| EntryTables.TableFromEntries | src/main/kotlin/com/replaymod/gradle/preprocess/ExtraMapping.kt:232-243 | every table class is the class of some entry |
| EntryTables.TableCovers | src/main/kotlin/com/replaymod/gradle/preprocess/ExtraMapping.kt:232-243 | every entry's class has a table class |
| EntryTables.TableClassDst | src/main/kotlin/com/replaymod/gradle/preprocess/ExtraMapping.kt:244-245 | a class is named by its first class entry, or else keeps its name |
| EntryTables.TableClassMethods | src/main/kotlin/com/replaymod/gradle/preprocess/ExtraMapping.kt:257-260 | a class holds one method per name and descriptor, and holds a method exactly when the last method entry with that class, name and descriptor renames it so |
| EntryTables.TableClassFields | src/main/kotlin/com/replaymod/gradle/preprocess/ExtraMapping.kt:252-256 | a class holds one field per name, with the tree's field descriptor, and holds a field exactly when the last field entry with that class and name renames it so |
| EntryTables.MethodLands | src/main/kotlin/com/replaymod/gradle/preprocess/ExtraMapping.kt:257-260 | every method entry's name and descriptor land in its class, with the destination name of the last entry for them |
| EntryTables.FieldLands | src/main/kotlin/com/replaymod/gradle/preprocess/ExtraMapping.kt:252-256 | every field entry's name lands in its class, with the destination name of the last entry for it |
| EntryTables.LastFieldWins | src/main/kotlin/com/replaymod/gradle/preprocess/ExtraMapping.kt:252-256 | the lines `a.B x y` and `a.B x z` give class `a/B` the single field `x -> z` |
| Resolution.CompleteAllError | src/main/kotlin/com/replaymod/gradle/preprocess/ExtraMapping.kt:98-200 | a failed completion names the line of one of its entries |
| Resolution.Tables | src/main/kotlin/com/replaymod/gradle/preprocess/ExtraMapping.kt:202-221 | the resolved entries and problems are the completion's |
| Resolution.Resolve | src/main/kotlin/com/replaymod/gradle/preprocess/ExtraMapping.kt:42-223 | `resolve` as written, all four namespace ids looked up in the source tree, fails only naming the line of an entry of the file |
| Resolution.ResolveCorrected | src/main/kotlin/com/replaymod/gradle/preprocess/ExtraMapping.kt:42-223 | the resolution with the destination ids looked up in the destination tree fails only naming the line of an entry of the file |
| Resolution.ResolveErrors | src/main/kotlin/com/replaymod/gradle/preprocess/ExtraMapping.kt:42-223 | for any namespace ids, so for `Resolve` as written and for `ResolveCorrected`, a failed resolution names the line of an entry of the file |
| Resolution.ResolveSound | src/main/kotlin/com/replaymod/gradle/preprocess/ExtraMapping.kt:42-223 | for any namespace ids, every resolved entry completes an entry of the file |
| Resolution.ResolveAccounts | src/main/kotlin/com/replaymod/gradle/preprocess/ExtraMapping.kt:42-223 | for any namespace ids, each entry of the file is resolved or has a logged problem |
| Resolution.BackMethodDst | src/main/kotlin/com/replaymod/gradle/preprocess/ExtraMapping.kt:203-221 | in the backward table, a method's name is the source name of the last resolved entry with its destination class, name and descriptor |
| Resolution.BackFieldDst | src/main/kotlin/com/replaymod/gradle/preprocess/ExtraMapping.kt:203-221 | in the backward table, a field's name is the source name of the last resolved entry with its destination class and name |
| Resolution.LastVisitedSwap | src/main/kotlin/com/replaymod/gradle/preprocess/ExtraMapping.kt:203-221 | visiting the swapped entries is visiting the entries read the other way |
| Resolution.SwapMethodDst | src/main/kotlin/com/replaymod/gradle/preprocess/ExtraMapping.kt:203-221 | the backward table renames a method as `BackMethodDst` says |
| Resolution.SwapFieldDst | src/main/kotlin/com/replaymod/gradle/preprocess/ExtraMapping.kt:203-221 | the backward table renames a field as `BackFieldDst` says |
| Resolution.ResolveMirrorsMethod | src/main/kotlin/com/replaymod/gradle/preprocess/ExtraMapping.kt:202-221 | for any namespace ids, a resolved method's key is in the forward table and its destination key in the backward table, each renamed as the last entry with that key says |
| Resolution.ResolveMirrorsField | src/main/kotlin/com/replaymod/gradle/preprocess/ExtraMapping.kt:202-221 | for any namespace ids, a resolved field's name is in the forward table and its destination name in the backward table, each renamed as the last entry with that name says |
| ProjectGraph.AddRoot | src/main/kotlin/com/replaymod/gradle/preprocess/RootPreprocessExtension.kt:8-12 | adding the root succeeds iff there is no root yet and no extra mappings are given; each failure has its own error |
| ProjectGraph.SingleRoot | src/main/kotlin/com/replaymod/gradle/preprocess/RootPreprocessExtension.kt:9 | a root can be set once only |
| ProjectGraph.AddLink | src/main/kotlin/com/replaymod/gradle/preprocess/RootPreprocessExtension.kt:29-30 | a child is appended as the last link, and the earlier links are kept |
| ProjectGraph.FindNodeIsFirst | src/main/kotlin/com/replaymod/gradle/preprocess/RootPreprocessExtension.kt:32-36 | `findNode` returns the first node in pre-order with that project name |
| ProjectGraph.FindNodeMeaning | src/main/kotlin/com/replaymod/gradle/preprocess/RootPreprocessExtension.kt:32-36 | what `findNode` (`FindNode`) finds is a node of the graph with that name, and it finds nothing only when no node has the name |
| ProjectGraph.FindParentSound | src/main/kotlin/com/replaymod/gradle/preprocess/RootPreprocessExtension.kt:38-48 | `findParent` (`FindParent`) gives the start no parent, and a found parent is a graph node linking to the node, with that link's extra mappings |
| ProjectGraph.FindParentComplete | src/main/kotlin/com/replaymod/gradle/preprocess/RootPreprocessExtension.kt:38-48 | every node of the graph except the start has a parent |
| ProjectGraph.NodesAddLink | src/main/kotlin/com/replaymod/gradle/preprocess/RootPreprocessExtension.kt:29-30 | adding a child adds exactly that node, last |
| ProjectGraph.AddLinkFindNode | src/main/kotlin/com/replaymod/gradle/preprocess/RootPreprocessExtension.kt:29-36 | after adding a child, a name is found as before, else as the new child |
| ProjectGraph.AddLinkFindParent | src/main/kotlin/com/replaymod/gradle/preprocess/RootPreprocessExtension.kt:29-48 | a new child has a parent that links to it |

## Left out

- File I/O is left out: reading the extra mapping file, `convertFile`,
  and the file walk around `convertSource`. Input and output are lists of
  lines.
- The remapper that produces each line's remapped text and errors is
  code this model cannot see. `Preprocessor.ConvertSource` takes its
  result as a parameter.
- The instance field `fail` is a parameter and a result of
  `Preprocessor.ConvertSource`. The text printed to the error stream is
  returned as `Diagnostic`s.
- Loggers become returned lists: `Logged` in `StrictMerge`, `Problem` in
  `ExtraResolve`. Their message texts are not modelled.
- The mapping-tree library is modelled only as far as the core queries
  it (`Trees`): namespaces, names per namespace, descriptors and first-match lookups.
  Where the library keeps its own index, lookups return the first match.
- EntryTables.PutMember: a table member is found again by its exact name
  and descriptor. The library also lets a member without a descriptor
  match one with a descriptor. In `EntriesToTable` this cannot arise: a
  field's descriptor depends on its name only, and completed methods
  carry both descriptors.
- Preprocessor.ConvertSource: like `zip`, the walk stops at the end of
  the shorter of the source lines and the remapped lines.
- Expressions.VersionValue: its contract only bounds the result. Its
  meaning is stated by `VersionLiteral`, `ShortVersionLiteral` and
  `VersionOfParts`.
- Copying a `b`-only class onto a key `a` already holds replaces the
  class in the model. The library may reuse the existing object.
- MappingSets.JoinMember: method parameter mappings are not modelled.
- MappingSets.MergeClass: this row and `MappingSets.MergeBoth` state the
  merge for class names and inner classes, not member by member. Member
  contents are stated by `MergeKeepsA` and `MergeKeepsB`.
- Inference sees a class only as its name and its field and method names
  (`Shape`). The exception of `getValue` becomes `MissingReverse`, that
  of `single()` becomes `EmptyReverse`, and the `getClass(…)!!` checks at
  src/main/kotlin/com/replaymod/gradle/preprocess/PreprocessTask.kt:606-607 become `MissingClass`. A `Shape`
  always has its names, so the `getName(…)!!` checks (PreprocessTask.kt
  lines 533, 548, 553, 558, 565, 570, 575, 626, 634 and 639) cannot fail
  in the model: a class or member without a name in the namespace is
  not modelled. The
  `assert` at src/main/kotlin/com/replaymod/gradle/preprocess/PreprocessTask.kt:595 is not modelled, since JVM assertions are off by
  default.
- Inference.InferSharedOk: freedom from exceptions is proved only under
  unique destination names, separate field and method prefixes, and no
  `class_N` name already in the destination tree. Outside these
  conditions the model returns the error the code would throw.
- StrictMerge: a source class or member without a name in the named
  namespace is passed over. The code would look it up with a null name.
- StrictMerge: a shared destination class or member without a named
  name is passed over (`SharedClass`, `SharedMember`). The code would
  visit it with a null destination name. The throwaway tree that
  receives classes without a destination is modelled as a class without
  members. `visitEnd` is not modelled.
- StrictMerge.ExtMemberWins: proved when no two source members claim the
  same manual member, and no source member claims two.
- ExtraResolve.TreePairs: a source class without a name in the named
  namespace is passed over. The code would visit the class tree with a
  null name.
- Descriptors.MapDesc: a class reference `L…` without its closing `;` is
  copied unchanged. The library rejects such a descriptor with an
  `IllegalArgumentException` when it maps it between two different
  namespaces. A descriptor written in the manual mapping file can reach
  this case.
- `EntryTables` names a table class by the first class entry for it
  (`firstNotNullOfOrNull`), while the class table of `resolve` keeps the
  last one (`associate`). The model follows the code in both places.
- ClassTables.Backward: a destination name listed twice maps back to the
  last class listed.
- InternalNames.ToInternal: `isUpperCase` is modelled for ASCII letters only.
- Project nodes are compared by value. The configuration lambda of the
  DSL and the `invoke` operator are modelled as building immutable nodes.
  A `File` is its path.
- Preprocessor.IfDefOpens: the `ifdef` branch cannot be reached with the
  built-in keywords (`IfDefUnreachable`). It is modelled as written, for
  keyword sets where it can be reached.
- Text.ParseInt32: only the ASCII digits `0`-`9` are decimal digits.
  `toIntOrNull` also accepts the other Unicode decimal digits.
- Text.ParseDigitsMeaning: stated for ASCII digits only, for the same
  reason.
- Text.ParseInt32Meaning: stated for ASCII digits only, for the same
  reason.
- MappingSets.ComputeClass: the library creates a missing inner class
  mapping inside `a` while deobfuscating. The model returns it without
  adding it to `a`.
- MappingSets.Member.DeobfSig: the descriptor is rewritten as text, each
  `L…;` class reference renamed. The library parses it into types first.
  The two agree on well-formed descriptors.
- MappingSets.FirstNamed: the library's method collection is iterated in
  the order of its hash map. The model uses the order of the table.

## Findings

| source | as written | input that shows it | evidently intended | confidence | as-written member | corrected member |
|---|---|---|---|---|---|---|
| src/main/kotlin/com/replaymod/gradle/preprocess/ExtraMapping.kt:307 | the destination descriptor is `"(" + dstName.substringAfter("(")`; without a `(` the token comes back whole, so a descriptor is invented | line `a.B foo() bar`: the destination gets descriptor `(bar` | a destination token without `(` names no descriptor, which resolution then completes from the trees | not executed | ExtraParse.ParserAsWrittenInventsDescriptor | ExtraParse.ParseLine |
| src/main/kotlin/com/replaymod/gradle/preprocess/ExtraMapping.kt:51-52 | `dstSharedNsId` and `dstNamedNsId` are looked up in `srcTree` | source namespaces `named, shared`, destination namespaces `shared, named`: the destination ids point at the swapped namespaces | the destination ids are looked up in `dstTree`, as `mergeMappings` does at src/main/kotlin/com/replaymod/gradle/preprocess/PreprocessTask.kt:667-668 | not executed | ExtraResolve.IdsAsWrittenMisread | ExtraResolve.ResolveIdsMeaning |

`ExtraParse.Read` and `Resolution.Resolve` model the code as written.
`ExtraParse.ReadCorrected` and `Resolution.ResolveCorrected` use the
corrected definitions. The lemmas about reading are stated for both
reads, and those about resolving for any namespace ids.
