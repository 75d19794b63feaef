# nukecli command-line compiler, modelled in Dafny

`nukecli.py` turns a command line such as
`-Blur {1 2} -set b1 -Grade -push b1 -Merge2 -Write -execute 1-10`
into one string of Nuke TCL statements. It does this in three parts:

* **Tokenizer** (`parseCLI` line 214, `parseLine`):
  - puts a space in front of the input and cuts it at every `" -"`;
  - drops the pieces that are empty and strips the rest;
  - cuts each segment into tokens with the pattern
    `\{[{}.0-9\s]+\}|[^\s]+`: a brace group, or else a run of
    non-white-space characters;
  - the first token is the command, the others its arguments.
* **Class resolver** (`getNukeNode`): maps a command word to one name of the
  plugin catalog. It tries three tiers:
  1. `^cand\d?$`, case-sensitive;
  2. the same pattern, ignoring case;
  3. a unique `^cand` prefix, ignoring case.

  The first two tiers sort their matches and take the last one. In the
  first tier that is the highest version digit. The second tier sorts in
  case-sensitive byte order, so when its matches differ in case the last
  one need not be the highest version: with catalog `Blur`, `BLUR2` the
  input `blur` gives `Blur`. The third tier raises an error when it finds
  several matches. When no tier matches, the resolver raises "could not be
  matched".
* **Stack-statement compiler** (`parseCLI`):
  - `-set x` captures the stack top under a fresh identifier.
  - `-push x` pushes it back. `push 0` pushes a null placeholder.
  - `-execute [range]` captures now. Its execute statement is appended
    after all other statements.
  - `-save path [force]` emits `script_save` behind a path guard that
    prints warnings.
  - Any other word creates a node of the resolved class.
  - Finally, every statement is joined with `;`, and one more `;` ends the
    program.

The modules follow those parts:

* `text.dfy`: Python 2 byte-string notions (white space, digits, ASCII
  case folding, `join`, `strip`).
* `tokenizer.dfy`: the tokenizer.
* `lexorder.dfy`: the order `list.sort()` puts strings in.
* `resolver.dfy`: the class resolver.
* `nodeids.dfy`: identifiers.
* `compiler.dfy`: the compiler.
* `compiler_lemmas.dfy`: the compiler's properties.

Each loop of the source is a method with a loop, and each loop body is a
method of its own. Every such method is proved equal to a pure
specification function. The properties are proved about those functions:
* `Resolver.Resolve` is proved equal to `ResolveSpec`.
* `Compiler.Compile` is proved equal to `CompileSpec`, which is built from
  `Step` and `Run`.

The source raises exceptions; the model returns `Err` values:
* the IndexError of a blank segment is `BlankCommand`;
* the KeyError of an unknown `-push` name is `UndefinedVariable`;
* the IndexError of `-save` with no path is `MissingSavePath`;
* the resolver's ValueError is `Unresolved` with a `ResolveError`.
  `Resolver.Message` gives that error's text.

Where the code and its documentation differ, the model follows the code:
* A second `-set x` replaces the binding of `x` (line 221). It does not
  keep the first one.
* `-set` or `-push` with an argument count other than one is not
  rejected. Like any other word, it goes to class resolution (line 250).
* `-execute` with several arguments uses the first as its range.
* `-save` with no argument fails with an IndexError, not a syntax error.
* A segment that is only white space (the empty command line, or
  `"a - "`) fails. The emptiness filter runs before the strip (line 214),
  so the segment survives, and `parseLine` then pops from an empty token
  list (line 200).
* Brace groups are not checked for balance or nesting. The brace
  alternative matches a `{`, then at least one character of the class
  `[{}.0-9\s]`, up to the last `}` of that run. The class holds white
  space, so `{1} {2}` is a single token, not two.

## Model

| member | source | states |
|---|---|---|
| Text.Strip | nukecli.py:214 | `strip()` gives a slice of the piece with only white space cut off before and after it; it is "" exactly when the piece is all white space, and otherwise neither starts nor ends with white space |
| Text.Lower | nukecli.py:163 | ASCII case folding maps `A`-`Z` to `a`-`z` and leaves every other character as it is |
| Text.FoldEqual | nukecli.py:162-163 | two strings are equal ignoring case exactly when they have the same length and each pair of characters is equal or one ASCII letter in its two cases |
| Tokenizer.SplitDash | nukecli.py:214 | `split(' -')` yields at least one piece, and the first piece is a prefix of the input |
| Tokenizer.SplitDashJoin | nukecli.py:214 | joining the pieces of `split(' -')` with `" -"` gives back the input |
| Tokenizer.SplitDashPiecesFree | nukecli.py:214 | no piece of the split contains `" -"` |
| Tokenizer.KeepStripped | nukecli.py:214 | the list comprehension yields at most one segment per piece |
| Tokenizer.NonEmpty | nukecli.py:214 | the `if i` filter keeps exactly the non-empty pieces |
| Tokenizer.SegmentsFilterThenStrip | nukecli.py:214 | the segments are the non-empty pieces, stripped, in order: the filter runs before the strip |
| Tokenizer.BlankPieceKept | nukecli.py:214 | a piece made only of white space is not dropped; it becomes an empty segment |
| Tokenizer.StrippedSegments | nukecli.py:214 | stripping pieces free of `" -"` leaves segments free of it that neither start nor end with white space |
| Tokenizer.Segments | nukecli.py:209-214 | the segments of the command line, with a space put in front, are the non-empty pieces of its split, stripped, in order; none contains `" -"` or starts or ends with white space |
| Tokenizer.BraceLongest | nukecli.py:213 | when the brace-class run after a `{` holds a `}` past its first character, the prefix up to the last such `}` is a brace group and no longer prefix is one |
| Tokenizer.NoBracePrefix | nukecli.py:213 | when that run holds no such `}`, no prefix is a brace group |
| Tokenizer.TokenLength | nukecli.py:213 | the match at a non-white-space position is the longest prefix that is a brace group when there is one, and otherwise the whole run of non-white-space characters |
| Tokenizer.Tokens | nukecli.py:199-213 | every token `findall` returns is a brace group or a word; there are none exactly when the segment is all white space |
| Tokenizer.BraceValueIsOneToken | nukecli.py:213 | a brace value `{...}` followed by text whose brace-class run holds no `}` is taken whole as one token, and the text after it is tokenized on its own |
| Tokenizer.AdjacentBraceValuesMerge | nukecli.py:213 | `{1} {2}` is one token, because the brace class includes white space |
| Tokenizer.TokensCover | nukecli.py:199-213 | the tokens, concatenated, hold the segment's non-white-space characters in order, with none lost or added |
| Tokenizer.TokensOfJoinedWords | nukecli.py:199-213 | space-joined words without white space or a leading brace tokenize back to the same words |
| Tokenizer.ParseLine | nukecli.py:192-201 | there is no command exactly when the segment is all white space (the pop raises); otherwise the command is the first token, a brace group or a word |
| LexOrder.Greatest | nukecli.py:157-169 | the last element after `sort()` is in the list and no element sorts after it |
| LexOrder.VersionOrder | nukecli.py:146-147 | a bare name sorts before its one-digit versions, and versions sort by their digit, so the highest version is taken |
| NodeIds.NodeId | nukecli.py:185-190 | an identifier is "N" followed by at least one character |
| NodeIds.NodeIdRoundTrip | nukecli.py:185-190 | the counter value can be read back from its identifier |
| NodeIds.NodeIdInjective | nukecli.py:185-190 | two identifiers are equal exactly when their counter values are, so identifiers in one compilation never collide |
| Resolver.CollectMatches | nukecli.py:152-156 | the loop over the catalog collects exactly the tier's matches, in catalog order |
| Resolver.LastInOrder | nukecli.py:157-159 | returns the greatest match, which is what `sort()` then `[-1]` returns |
| Resolver.Resolve | nukecli.py:136-183 | the three-tier resolver returns what ResolveSpec says: exact tier, then folded tier, then a unique prefix, else one of the two errors |
| Resolver.Message | nukecli.py:179-183 | the error text opens with the quoted input, and the text of an ambiguity names every class that matched |
| Resolver.Candidates | nukecli.py:152-156 | a tier never matches more names than the catalog holds |
| Resolver.CandidatesMembers | nukecli.py:152-176 | a name is in the tier's match list if and only if it is in the catalog and the tier's pattern accepts it |
| Resolver.TierImplications | nukecli.py:149-173 | an exact version match is also a case-insensitive one, which is also a case-insensitive prefix match |
| Resolver.ExactTierWins | nukecli.py:149-159 | if any catalog name is `cand` or `cand` plus one digit, the result is such a name and is the greatest of them |
| Resolver.FoldedTierWins | nukecli.py:161-169 | with no exact match but a case-insensitive one, the result is the greatest case-insensitive version match |
| Resolver.PartialTier | nukecli.py:171-183 | with no version match, one prefix match is returned; several give the ambiguity error listing all of them in catalog order; none gives "could not be matched" |
| Resolver.ResolvedIsCatalogName | nukecli.py:136-183 | any successful result is a catalog name that starts with the candidate when case is ignored |
| Resolver.BlurExample | nukecli.py:146-159 | with catalog Blur and Blur2, "Blur" resolves to "Blur2" |
| Resolver.FoldedTierSortsByCase | nukecli.py:161-168 | the case-insensitive tier takes the last match in case-sensitive order: with catalog Blur and BLUR2, "blur" resolves to "Blur", not to the version-2 name |
| Compiler.Deferred | nukecli.py:256-260 | one execute statement per pending execution |
| Compiler.Emit | nukecli.py:262 | the program is never empty and ends with `;` |
| Compiler.CompileSegment | nukecli.py:216-253 | one iteration of the main loop computes exactly the step of the specification (parse, then dispatch on the command word) |
| Compiler.Save | nukecli.py:234-249 | the `-save` branch with its path guard computes exactly SaveStep |
| Compiler.Walk | nukecli.py:216-253 | the main loop over the segments gives the left fold of the steps, stopping at the first error |
| Compiler.AppendDeferred | nukecli.py:255-260 | the second loop appends one execute statement per pending execution, in registration order |
| Compiler.Compile | nukecli.py:203-263 | `parseCLI` computes CompileSpec: segments, main loop, deferred executes, then the join with `;` |
| CompilerLemmas.FreshId | nukecli.py:220-231 | the identifier handed out next is bound to no variable and used by no pending execution |
| CompilerLemmas.DispatchEffect | nukecli.py:218-253 | per command word: only `set` changes variables, only `execute` registers an execution, at most one statement is emitted, statements and notes are only appended |
| CompilerLemmas.StepEffect | nukecli.py:216-253 | the same effect for one whole segment |
| CompilerLemmas.EffectPreserves | nukecli.py:212-233 | such an effect keeps the state invariant: "0" bound, identifiers issued earlier, pending executions distinct and captured |
| CompilerLemmas.StepPreserves | nukecli.py:216-253 | one segment keeps the invariant and only appends to statements, executions and notes |
| CompilerLemmas.RunPreserves | nukecli.py:216-253 | the whole main loop keeps the invariant and only appends |
| CompilerLemmas.InitWf | nukecli.py:210-212 | the initial state, with "0" bound to "0", satisfies the invariant |
| CompilerLemmas.RunAppend | nukecli.py:216 | walking a + b is walking a, then walking b from where a stopped, unless a fails |
| CompilerLemmas.StepOnTokens | nukecli.py:217 | a segment is dispatched on its first token with the rest as arguments |
| CompilerLemmas.DispatchKeywords | nukecli.py:218-234 | the words set and push with one argument, execute and save go to their own branches |
| CompilerLemmas.RunStopsAtError | nukecli.py:216-253 | the first failing segment ends the walk with its error, whatever follows |
| CompilerLemmas.FirstErrorAborts | nukecli.py:203-253 | the first failing segment aborts the whole compilation with its error; no program is produced |
| CompilerLemmas.ResolutionFailureAborts | nukecli.py:250-253 | a node word the resolver rejects aborts the compilation with the resolver's error |
| CompilerLemmas.SetLine | nukecli.py:218-222 | a segment `set x` takes the set step |
| CompilerLemmas.SetBindsFreshId | nukecli.py:218-222 | `set x` binds x to a fresh identifier, replacing any earlier binding, and emits exactly its capture statement |
| CompilerLemmas.BindingKeptWithoutSet | nukecli.py:218-222 | segments that are not `set x` leave x bound as it was, or unbound |
| CompilerLemmas.SetThenPush | nukecli.py:218-229 | after `set x` and no other `set x`, `push x` emits `push $id` for the identifier `set x` captured |
| CompilerLemmas.PushUnsetFails | nukecli.py:223-225 | `push x` for a name other than "0" that no earlier segment set fails with an undefined-variable error |
| CompilerLemmas.PushZeroIsPlaceholder | nukecli.py:223-229 | `push 0` always emits `push 0` |
| CompilerLemmas.NodeLineStep | nukecli.py:250-253 | a resolvable node segment appends its creation statement and changes nothing else |
| CompilerLemmas.NodeStmts | nukecli.py:250-253 | one creation statement per node segment, in input order |
| CompilerLemmas.NodeCommandsInOrder | nukecli.py:250-253 | a run of resolvable node segments appends exactly their creation statements, in input order, and changes nothing else |
| CompilerLemmas.ExecuteCapturesNow | nukecli.py:230-233 | `execute [range]` captures the stack top at once under a fresh identifier and registers it with its first argument as range |
| CompilerLemmas.ExecutesInEncounterOrder | nukecli.py:230-233 | the pending executions carry the ranges of the execute segments, in the order they were met |
| CompilerLemmas.ExecsFollowSegments | nukecli.py:230-256 | after the walk, the k-th pending execution has the range of the k-th execute segment |
| CompilerLemmas.DeferredExecutesLast | nukecli.py:255-262 | the program is the main statements followed by one execute statement per execute segment, in order, each for an identifier captured earlier, all distinct, with the range verbatim or the first/last knobs |
| CompilerLemmas.LastExecuteIsFinal | nukecli.py:230-260 | when the last segment is `execute r`, the last statement executes the node captured there over r |
| CompilerLemmas.SaveStepEffect | nukecli.py:234-249 | the save guard never fails on a path: it emits `script_save {path}` exactly when allowed, and otherwise only records warnings |
| CompilerLemmas.SaveGuard | nukecli.py:234-249 | a `save path ...` segment never aborts and changes no variable or execution; it saves exactly when the path is not a directory and is new or followed by "force"; otherwise it records warnings |
| CompilerLemmas.SaveWithoutPathFails | nukecli.py:235 | `save` with no path fails |
| CompilerLemmas.EmitTerminated | nukecli.py:262 | the program is every statement followed by `;`, or the single `;` when there is none |
| CompilerLemmas.EmptyCommandLineFails | nukecli.py:200-214 | an empty command line fails with the blank-segment error |

## Left out

- The catalog's construction (lines 133-134, `pynuke.getPluginList` with the
  Reader/Writer exclusions) is not modelled. The catalog is a parameter
  (`Env.catalog`).
- The `__main__` block and the hand-off to `nuke.tcl` (lines 265-275) are
  I/O and are not modelled.
- NodeIds.NodeId: identifiers come from a counter ("N" and a decimal
  numeral). The source hashes the variable name and a random number with
  crc32 and writes a minus sign as `_`. That hash can collide; the counter
  cannot. So the model assumes collisions never happen.
- The filesystem queries `os.path.isdir` and `os.path.exists` (lines 236
  and 239) are the parameters `Env.isDir` and `Env.pathExists`.
- The save warnings are printed by the source (lines 237-248). The model
  records them as a list of notes, returned only when the compilation
  succeeds.
- Resolver.Matches: the candidate is read as literal text. The source
  pastes it into a regular expression unescaped, so a candidate holding
  pattern characters (`.`, `*`, `(`, ...) matches differently there.
- Resolver.Matches: `$` in Python also matches just before a final
  newline. That case is left out because catalog names hold no newline.
- Text.Lower: case is folded for ASCII letters only, which is what
  `re.IGNORECASE` does on Python 2 byte strings. Other characters are
  compared as they are.
- Resolver.LastInOrder: the in-place `sort()` followed by `[-1]` is
  computed as a scan for the greatest element, which returns the same
  string. The order of the sorted list itself is not kept.
- Compiler.Walk, Compiler.CompileSegment and Compiler.Save: the single
  loop body of `parseCLI` is split into one method per iteration and one
  for the save branch. The save branch returns where the source uses
  `continue`.
- Exceptions are modelled as `Err` results. Which exception type reaches
  the caller, and the traceback, are not.
