# Verified models of cherubsh's builtins

cherubsh is a shell; this project models the parts of its builtin layer where the work is done by
small algorithms with much state, and proves what they compute. It is written in Dafny;
`dafny verify dfyconfig.toml` checks all of it.

Text is a sequence of characters, one for each byte. Numbers are unbounded, and machine limits are
written out where the code meets them: the 32-bit hash, `usize` decimals, the clamped widths of
printf, the dense limit of arrays. Code that updates objects or runs loops is modelled by classes
and loops, each proved against a function; lemmas then state what the functions mean.

| files | what they model |
|---|---|
| `Pattern` | glob and extended glob matching, removal and substitution |
| `IndexedArray` | the dense and sparse representation of indexed arrays |
| `AbiArray`, `AbiAssoc`, `CText` | the linked mirrors of arrays handed to loadable builtins |
| `Variables`, `Environment` | bindings, dynamic scope, unset, global access |
| `Assignments`, `ApplyAssignment`, `ReadonlyPlaces` | the assign, apply and unset family and what it does to readonly variables |
| `Sync`, `LentReadonly` | lending a variable to a loadable builtin and writing it back |
| `Registry` | loading and unloading builtins, and the library references they hold |
| `Scanners`, `Quoting`, `QuoteScan`, `PrintedElement` | quoters, unquoters, scanners, and how printed variables are read back |
| `ReadSplit` | field splitting of `read` |
| `GetOpt`, `GetOptsVars` | the builtins' option cursor and the `getopts` builtin |
| `PrintfEscape`, `PrintfFormat`, `Printf` | printf: escapes, conversion specifications, the reuse of the format |
| `Spelling`, `Umask` | `cd`'s spelling correction, symbolic masks |
| `Ascii`, `Decimal`, `Option`, `Sequences`, `SortedMap` | shared definitions |

Some properties one would expect do not hold of the code. Each has a lemma with a concrete input
and one that says exactly when the property does hold; where that one gives less, the item says so:

- An indexed array can lose an element: setting 1500, 600 and 1600 hides element 1500
  (`ElementLost`, `InsertExact`). Lending that array to a loadable builtin brings the element back
  (`LendingRevives`, `LentExactly`).
- `+(p)` refuses the empty text even where a branch matches it (`PlusMissesEmptyText`,
  `PlusAgreesExactly`, which is exact for branches that hold no such `+(p)` themselves).
- A readonly variable can change: assigning a list to an associative array unsets the name first,
  and where the name is a caller's local that hides a readonly binding, that binding is uncovered
  and written (`HazardReached`, `ReadonlyExactly`). Lending an array to a loadable builtin writes
  over it even when it is readonly (`ReadonlyArrayWritten`, `LentIndexedReadonly`,
  `LentAssocReadonly`).
- Unsetting part of a caller's local can move a readonly binding out of its scope
  (`ElementUnsetMoves`, `CallInPlace`).
- Writing an associative array back from a loadable builtin merges it with what unsetting the name
  uncovers (`LendingUncovers`, `AssocExactly`, `HiddenDecides`), and an empty one can stop being an
  array (`EmptyLosesKind`, `KindExactly`).
- Loading a builtin over another library's builtin of the same name leaves that library open for
  good (`ShadowingLeaks`, `LeakFreeExactly`).
- Quote removal does not undo the `$'...'` form (`ControlIsLost`, `AnsiExact` and its companions),
  such a value can leave a line open (`ControlCanStayOpen`, `QuoteSettled`), and such a key can
  mislead the bracket scan (`UnprintableKey`, `PrintedElementReads`).
- `read` marks escaped characters with a character that may itself occur in the line
  (`OwnMarkerMisread`, `MarkingExact`).
- `read` with one name strips escaped blanks too, which it keeps for several names
  (`OneNameTrimsEscaped`, `OneNameExactly`).
- The C subscript scanner and the shell's scanners part on command substitutions
  (`SubstitutionParts`). They agree where none stands before the closing bracket (`ScannersAgree`),
  which is sufficient; the exact condition is proved for a plain substitution
  (`SubstitutionExactly`). In general the C scanner can lose count inside a substitution and come
  back to the same bracket by what stands behind it, so an exact condition would have to follow
  both scans to the end.
- `getopts` and the builtins' own option cursor differ on `+` words and on a colon given as an
  option (`PlusWordDiffers`, `ColonDiffers`, `ParsersAgreeExactly`).
- A `getopts` call can abort when the arguments were replaced since the call before
  (`ReplacedArgumentsAbort`, `AbortsExactly`, `FixedArgumentsNeverAbort`).
- With a readonly OPTIND a loop over `getopts` does not end (`ReadonlyOptindWitness`,
  `ReadonlyOptindLoops`).

## Model

| member | source | states |
|---|---|---|
| `Pattern.CollectMatchEnds` | crates/expander/src/pattern.rs:519-563 | the recursive matcher returns exactly the end positions of the words the tokens denote, none missing and none extra |
| `Pattern.TokEnds` | crates/expander/src/pattern.rs:519-563 | the same for one token |
| `Pattern.OneStep` | crates/expander/src/pattern.rs:565-590 | the end positions of one occurrence of any branch, exactly |
| `Pattern.EnumerateExtEnds` | crates/expander/src/pattern.rs:565-632 | each of the five extended forms reaches exactly the ends of its own words |
| `Pattern.ForwardClosure` | crates/expander/src/pattern.rs:565-632 | the work list of `*(p)` and `+(p)` terminates with exactly the ends of one or more forward occurrences |
| `Pattern.Fnmatch` | crates/expander/src/pattern.rs:416-419 | the anchored match holds if and only if the whole text is a word of the pattern |
| `Pattern.ReadingsAgree` | crates/expander/src/pattern.rs:64-70 | on patterns where no branch of a `+(...)` matches the empty text, the matcher decides the documented language, for every word |
| `Pattern.PlusAgreesExactly` | crates/expander/src/pattern.rs:64-70 | one `+(...)` whose branches hold no `+(...)` with an empty match of their own is matched as documented on all words if and only if no branch matches the empty text |
| `Pattern.PlusMissesEmptyText` | crates/expander/src/pattern.rs:565-632 | `+(\|a)` and the empty text: documented to match, refused by the matcher |
| `Pattern.LiteralLanguage` | crates/expander/src/pattern.rs:829-842 | a pattern of literals denotes the texts equal to it up to case folding |
| `Pattern.LiteralHits` | crates/expander/src/pattern.rs:641-703 | a literal pattern can be cut off at its own length only, which is what the shortcut tests |
| `Pattern.Hits` | crates/expander/src/pattern.rs:641-703 | all places where a prefix or suffix match can be cut off |
| `Pattern.RemovePattern` | crates/expander/src/pattern.rs:641-703 | prefix and suffix removal cut the shortest or longest matching end, or nothing when none matches; the literal shortcut included |
| `Pattern.LongestMatch` | crates/expander/src/pattern.rs:803-827 | the longest match that starts at a position |
| `Pattern.SubstAnchored` | crates/expander/src/pattern.rs:728-801 | anchored substitution replaces the longest matching prefix or suffix |
| `Pattern.SubstScan` | crates/expander/src/pattern.rs:803-827 | the scan computes leftmost, longest, non-overlapping replacement |
| `Pattern.LiteralLongest` | crates/expander/src/pattern.rs:844-927 | the longest match of a literal pattern at a position is the literal itself, or none |
| `Pattern.FindLiteral` | crates/expander/src/pattern.rs:921-940 | the first place at which a literal stands, skipping none |
| `Pattern.LiteralScan` | crates/expander/src/pattern.rs:893-910 | the scan of the literal path gives exactly what the scan with the matcher gives, for all texts, once or everywhere |
| `Pattern.LiteralAnchored` | crates/expander/src/pattern.rs:851-892 | the literal path replaces exactly the prefix or suffix the matcher would |
| `Pattern.PatSubst` | crates/expander/src/pattern.rs:728-911 | substitution in all four modes, on the literal path and with the matcher alike: the longest match at one end, or leftmost longest matches once or everywhere; stars replace an empty text |
| `Pattern.StarsMatchEmpty` | crates/expander/src/pattern.rs:942-953 | the patterns singled out for the empty text do match it |
| `Pattern.SubstituteSelf` | crates/expander/src/pattern.rs:728-827 | replacing every match by itself gives the text back, for all patterns, texts and modes, anchored ones included |
| `IndexedArray.InsertExact` | crates/shell/src/state/arrays.rs:42-75 | an insert updates the element map and the count correctly if and only if it does not collide with a sparse index |
| `IndexedArray.InsertSound` | crates/shell/src/state/arrays.rs:42-75 | without a collision an insert keeps the representation sound and is the map update |
| `IndexedArray.InsertUnsound` | crates/shell/src/state/arrays.rs:42-75 | every colliding insert loses an element or miscounts |
| `IndexedArray.GrowthHides` | crates/shell/src/state/arrays.rs:29-75 | growing the dense part over a sparse index hides that element |
| `IndexedArray.AppendCountsTwice` | crates/shell/src/state/arrays.rs:42-75 | appending at an index that is sparse counts it twice |
| `IndexedArray.ElementLost` | crates/shell/src/state/arrays.rs:29-75 | setting 1500, 600 and 1600 loses element 1500 while the count says three |
| `IndexedArray.RemoveSound` | crates/shell/src/state/arrays.rs:87-110 | removal is map removal and keeps the representation sound, on every sound array |
| `IndexedArray.RunExact` | crates/shell/src/state/arrays.rs:8-160 | any run of inserts and removals without collision denotes the same run on a map |
| `IndexedArray.SmallIndicesStayDense` | crates/shell/src/state/arrays.rs:29-75 | runs over indices up to 1024 never collide |
| `IndexedArray.AscendingNeverCollides` | crates/shell/src/state/arrays.rs:21-27 | inserting in ascending order never collides, whatever the gaps |
| `IndexedArray.RebuildExact` | crates/shell/src/state/arrays.rs:21-27 | an array built from ascending pairs denotes exactly those pairs |
| `IndexedArray.Array.Get` | crates/shell/src/state/arrays.rs:77-85 | lookup returns the element of the denoted map, or nothing where the map has none, on every array |
| `IndexedArray.Array.TrimDenseTail` | crates/shell/src/state/arrays.rs:106-110 | drops the empty tail of the dense part and nothing else |
| `IndexedArray.Array.Insert` | crates/shell/src/state/arrays.rs:42-75 | the in-place insert reaches the specified state |
| `IndexedArray.Array.Remove` | crates/shell/src/state/arrays.rs:87-104 | the in-place removal reaches the specified state and returns, on every array, the element a lookup sees, or else a hidden one, or nothing |
| `IndexedArray.Array.MaxIndex` | crates/shell/src/state/arrays.rs:116-129 | the largest index among all stored elements, hidden ones included, or none when there is none; on every array |
| `IndexedArray.Array.All` | crates/shell/src/state/arrays.rs:147-160 | every stored element in index order, hidden ones included, on every array; read as a map the sparse value wins |
| `IndexedArray.ListedExactly` | crates/shell/src/state/arrays.rs:147-160 | a listing denotes what lookups see if and only if every sparse index inside the dense part has the same value there |
| `IndexedArray.LostElementListed` | crates/shell/src/state/arrays.rs:147-160 | the element lost to lookups after setting 1500, 600 and 1600 is still listed |
| `AbiArray.RingInverse` | crates/builtins/src/dynamic.rs:189-222 | `next` and `previous` undo each other all round the ring |
| `AbiArray.RingWalk` | crates/builtins/src/dynamic.rs:224-243 | on a ring the limited walk is never cut short and meets each entry once |
| `AbiArray.MakeElements` | crates/builtins/src/dynamic.rs:168-187 | fresh, distinct nodes for the given values, NUL bytes dropped |
| `AbiArray.AbiArray.constructor` | crates/builtins/src/dynamic.rs:148-166 | a new mirror is a well-formed ring over the sorted values |
| `AbiArray.AbiArray.Relink` | crates/builtins/src/dynamic.rs:189-222 | relinking rebuilds the ring and the counters in place from any links |
| `AbiArray.AbiArray.Replace` | crates/builtins/src/dynamic.rs:168-187 | replacement leaves a well-formed ring over the new values |
| `AbiArray.AbiArray.ValuesFromLinks` | crates/builtins/src/dynamic.rs:224-243 | reading back follows the links; on a ring it yields exactly the entries |
| `AbiArray.AbiArray.Insert` | crates/builtins/src/dynamic.rs:888-904 | an insert through the mirror is the update of the element map, in ascending order |
| `AbiArray.AbiArray.Flush` | crates/builtins/src/dynamic.rs:907-913 | a flush leaves a well-formed empty ring |
| `AbiArray.RunUpdates` | crates/builtins/src/dynamic.rs:888-913 | any run of inserts and flushes leaves a well-formed ring over exactly the updated map |
| `AbiAssoc.ChainsHoldEachOnce` | crates/builtins/src/dynamic.rs:290-300 | every entry is on some chain and no node is met twice |
| `AbiAssoc.OneChainDecides` | crates/builtins/src/dynamic.rs:246-250 | the chain that the hash selects decides whether a key is present |
| `AbiAssoc.ReadBack` | crates/builtins/src/dynamic.rs:302-322 | reading a well-formed table loses nothing, repeats nothing and denotes the map of its entries |
| `AbiAssoc.AbiAssoc.constructor` | crates/builtins/src/dynamic.rs:253-265 | a new mirror is a well-formed table over the values |
| `AbiAssoc.AbiAssoc.Relink` | crates/builtins/src/dynamic.rs:290-300 | relinking rebuilds all chains in place from any links |
| `AbiAssoc.AbiAssoc.Push` | crates/builtins/src/dynamic.rs:290-300 | pushing one node at the front keeps the other chains and extends its own |
| `AbiAssoc.AbiAssoc.Replace` | crates/builtins/src/dynamic.rs:267-288 | replacement leaves a well-formed table over the new values |
| `AbiAssoc.AbiAssoc.ValuesFromBuckets` | crates/builtins/src/dynamic.rs:302-322 | reads the chains in slot order, each with a step limit |
| `AbiAssoc.AbiAssoc.Bind` | crates/builtins/src/dynamic.rs:934-961 | a binding through the mirror is the update of the map, whatever the bucket order |
| `AbiAssoc.AbiAssoc.Flush` | crates/builtins/src/dynamic.rs:964-970 | a flush leaves a well-formed empty table |
| `AbiAssoc.RunUpdates` | crates/builtins/src/dynamic.rs:934-970 | any run of bindings and flushes leaves a well-formed table over exactly the updated map |
| `CText.StripNul` | crates/builtins/src/dynamic.rs:143-145 | a C string holds no NUL, and text without NUL is kept as it is |
| `CText.StripHead` | crates/builtins/src/dynamic.rs:143-145 | one byte at a time, a NUL becomes nothing and any other byte itself |
| `CText.StripJoins` | crates/builtins/src/dynamic.rs:143-145 | conversion goes part by part: what is not a NUL is kept, in order |
| `Sync.FlagsAre` | crates/builtins/src/dynamic.rs:325-364 | each of the nine attribute bits is set if and only if the variable has the attribute, and the array bits follow the kind |
| `Sync.Attributes` | crates/builtins/src/dynamic.rs:366-384 | decoding yields an attribute if and only if its bit is set |
| `Sync.FlagsRoundTrip` | crates/builtins/src/dynamic.rs:325-384 | the nine attributes survive encoding and decoding, for every kind |
| `Sync.RestoreSets` | crates/builtins/src/dynamic.rs:578-596 | writing attributes back sets exactly the nine and touches no element |
| `Sync.RestoreAttributes` | crates/builtins/src/dynamic.rs:578-596 | the loop that does so |
| `Sync.IndexedExact` | crates/builtins/src/dynamic.rs:551-561 | after write-back an indexed variable holds exactly the mirrored elements and attributes, whatever it held before |
| `Sync.SyncIndexed` | crates/builtins/src/dynamic.rs:551-561 | the write-back loop reaches that state |
| `Sync.LendIndexed` | crates/builtins/src/dynamic.rs:386-415 | a variable listed into a snapshot, changed by any run of inserts and flushes, and written back holds those updates of the elements a listing of it yields, with its own attributes; nothing is written when nothing changed |
| `Sync.LentExactly` | crates/shell/src/state/environment/locals.rs:433-510 | lending is the same updates of the elements lookups see, for all updates, if and only if no hidden element differs from the visible one |
| `Sync.LendingRevives` | crates/shell/src/state/environment/locals.rs:433-510 | the lost element 1500 is back after the array is lent and given another element |
| `Sync.AssocExactly` | crates/builtins/src/dynamic.rs:562-572 | associative write-back yields exactly the mirrored elements for all mirrors if and only if unsetting the name uncovers no elements and no case attribute |
| `Sync.UsuallyClean` | crates/builtins/src/dynamic.rs:562-572 | that holds for every name that is not a local of a caller, and under `localvar_unset` |
| `Sync.HiddenDecides` | crates/shell/src/state/environment/variables.rs:322-393 | for a caller's local, nothing is uncovered if and only if the binding it hides has no elements and no case attribute |
| `Sync.LendingUncovers` | crates/builtins/src/dynamic.rs:562-572 | a function that lends its caller's empty local array gets the element of the hidden global array back |
| `Sync.KindExactly` | crates/builtins/src/dynamic.rs:562-572 | an array written back is associative still if and only if the nameref attribute finds nothing to refer to, and the mirror has elements or what unsetting the name uncovers is associative; for all environments, mirrors and attributes, read off the state before |
| `Sync.EmptyLosesKind` | crates/builtins/src/dynamic.rs:562-572 | an empty global associative array, lent and written back, becomes a scalar |
| `Sync.FilledKeepsKind` | crates/builtins/src/dynamic.rs:562-572 | one written back with elements and without the nameref attribute keeps its kind in every environment; the nine attributes come back with every mirror |
| `Sync.SyncAssoc` | crates/builtins/src/dynamic.rs:562-572 | the associative write-back loop |
| `Sync.LendAssoc` | crates/builtins/src/dynamic.rs:386-415 | the round trip for associative arrays: the same updates of the variable's own elements where nothing is uncovered, its own attributes always |
| `LentReadonly.LentIndexedReadonly` | crates/builtins/src/dynamic.rs:551-561 | writing an indexed array back keeps every readonly binding, for all mirrors, if and only if the array is not readonly itself |
| `LentReadonly.LentAssocReadonly` | crates/builtins/src/dynamic.rs:562-572 | writing an associative array back keeps every readonly binding, for all mirrors, if and only if it is not readonly itself and unsetting it uncovers no readonly binding |
| `LentReadonly.ReadonlyArrayWritten` | crates/builtins/src/dynamic.rs:551-561 | a readonly array without elements gains one through lending and is readonly still |
| `Registry.StepSurplus` | crates/builtins/src/dynamic.rs:1454-1620 | in every reachable state a step changes the surplus of open references over users by one exactly when it leaks: a load that reopens a library in use, or whose accepted names cover every active entry of the handle |
| `Registry.RunBalanced` | crates/builtins/src/dynamic.rs:1454-1620 | over every run, an active entry has its library open and nothing is closed twice |
| `Registry.BalancedMeansOpen` | crates/builtins/src/dynamic.rs:1454-1620 | in such a state an active entry's library has more opens than closes |
| `Registry.LeakFreeExactly` | crates/builtins/src/dynamic.rs:1454-1620 | a run from the empty registry ends with no leaked reference if and only if no load of it leaks, which is read off the registry before each load |
| `Registry.ShadowedExactly` | crates/builtins/src/dynamic.rs:1454-1582 | a load of another library takes the last active entry from a handle if and only if each active entry of it has a name among those loaded |
| `Registry.LeakedForever` | crates/builtins/src/dynamic.rs:1454-1620 | what one load leaks stays open through every later run |
| `Registry.ShadowingLeaks` | crates/builtins/src/dynamic.rs:1454-1582 | loading a builtin and then another library's builtin of the same name, from the empty registry, leaves the first library open for good |
| `Registry.RunOneActive` | crates/builtins/src/dynamic.rs:1454-1620 | in every reachable state a name has at most one active entry |
| `Registry.UnloadedStaysGone` | crates/builtins/src/dynamic.rs:1584-1620 | after an unload the name has no active entry: nothing shadowed comes back |
| `Registry.InactiveForever` | crates/builtins/src/dynamic.rs:1454-1620 | an entry once inactive stays in place, inactive, through every run |
| `Registry.NewestVisible` | crates/builtins/src/dynamic.rs:1454-1582 | after a load the newest entry of each name is the visible one |
| `Registry.Registry.Lookup` | crates/builtins/src/dynamic.rs:1415-1426 | returns an active entry of the name, the only one there is, or none when there is none |
| `Registry.Registry.Iter` | crates/builtins/src/dynamic.rs:1428-1441 | each name with an active entry, once |
| `Registry.Registry.IsDynamic` | crates/builtins/src/dynamic.rs:1443-1452 | true if and only if the name has an active entry |
| `Registry.Registry.Load` | crates/builtins/src/dynamic.rs:1454-1582 | loading takes the registry to the specified state; success if and only if every name is accepted |
| `Registry.Registry.Unload` | crates/builtins/src/dynamic.rs:1584-1620 | unloading takes the registry to the specified state; success if and only if the name was active and closing the library, where that is done, worked |
| `Scanners.SkipSingleQuoted` | crates/builtins/src/common.rs:115-124 | where a single-quoted span ends |
| `Scanners.SkipDoubleQuoted` | crates/builtins/src/common.rs:126-139 | where a double-quoted span ends, past nested substitutions |
| `Scanners.SkipBalancedPair` | crates/builtins/src/common.rs:141-160 | where a substitution closes |
| `Scanners.SkipAssignmentSubscript` | crates/builtins/src/common.rs:87-113 | stops just past the bracket that closes the subscript |
| `Scanners.MatchingArrayClose` | crates/builtins/src/common.rs:179-205 | stops at the bracket that closes the subscript |
| `Scanners.ScansAgree` | crates/builtins/src/common.rs:87-113 | the two subscript scans find the same bracket on every text |
| `Scanners.AssignmentOperator` | crates/builtins/src/common.rs:65-85 | finds the assignment operator outside quotes and subscripts |
| `Scanners.SkipSubscript` | crates/shell/loadable_abi.c:798-825 | the C scanner for loadable builtins |
| `Scanners.ScannersAgree` | crates/shell/loadable_abi.c:798-825 | from an open bracket, the C scanner finds the bracket the shell's scanners find, or none when they find none, if no `$(` stands before it |
| `Scanners.SubstitutionExactly` | crates/shell/loadable_abi.c:798-825 | past a `$(...)` whose text has no quotes, backslashes or parentheses, whatever follows, they find the same bracket if and only if the brackets in it pair up |
| `Scanners.SubstitutionParts` | crates/shell/loadable_abi.c:798-825 | a text with `$(` on which they differ |
| `Scanners.SplitRejoins` | crates/builtins/src/common.rs:56-63 | a split word is put together again from its sides and operator |
| `Quoting.QuoteDouble` | crates/builtins/src/common.rs:1296-1314 | the double-quoting loop |
| `Quoting.QuoteSingle` | crates/builtins/src/alias.rs:85-97 | the single-quoting loop, as alias, complete and mapfile have it |
| `Quoting.QuoteAssignment` | crates/builtins/src/common.rs:1343-1357 | the loop of `set`'s single quotes |
| `Quoting.QuoteAnsi` | crates/builtins/src/common.rs:1375-1397 | the `$'...'` loop |
| `Quoting.QuoteBackslash` | crates/builtins/src/printf.rs:328-377 | the backslash loop of `printf %q` |
| `Quoting.DequoteIndexedSubscript` | crates/builtins/src/common.rs:469-510 | the quote-removing loop computes the specified removal |
| `Quoting.SingleQuotedReadsBack` | crates/builtins/src/complete.rs:646-657 | quote removal undoes single quotes on every text; alias and mapfile quote the same way |
| `Quoting.ShellExact` | crates/builtins/src/common.rs:1296-1314 | quote removal undoes `declare -p` quoting if and only if the text has no control byte |
| `Quoting.AnsiExact` | crates/builtins/src/common.rs:1361-1411 | the same for `${v@Q}` |
| `Quoting.SetExact` | crates/builtins/src/common.rs:1319-1357 | for `set`: if and only if in POSIX mode or without control bytes |
| `Quoting.KeyExact` | crates/builtins/src/common.rs:1704-1717 | for printed array keys |
| `Quoting.PrintfExact` | crates/builtins/src/printf.rs:328-377 | for `printf %q`: if and only if the text has no control byte or starts with a tilde |
| `Quoting.JobsExact` | crates/builtins/src/jobs.rs:200-211 | for jobs: on every text |
| `Quoting.ControlIsLost` | crates/builtins/src/common.rs:1361-1411 | a text with a control byte is never recovered from its `$'...'` form |
| `QuoteScan.QuoteRemoveWholeOperand` | crates/builtins/src/cond.rs:638-674 | the operand unquoter computes the specified removal |
| `QuoteScan.WholeExact` | crates/builtins/src/cond.rs:638-674 | it undoes `declare -p` quoting if and only if the text has no control byte |
| `QuoteScan.SourceHasOpenQuote` | crates/builtins/src/dynamic.rs:1181-1215 | the open-quote test runs the quote automaton |
| `QuoteScan.QuoteSettled` | crates/builtins/src/dynamic.rs:1181-1215 | for every quoter and ASCII text, the output leaves a quote open if and only if it takes the `$'...'` form and the text holds a single quote |
| `QuoteScan.PrintedLineComplete` | crates/builtins/src/dynamic.rs:1181-1215 | no space-joined list of quoted values leaves a quote open, mixed quoters included, if none of them is of that kind |
| `QuoteScan.ControlCanStayOpen` | crates/builtins/src/dynamic.rs:1181-1215 | a newline and a single quote in one printed value leave the line open |
| `PrintedElement.DoubleSkips` | crates/builtins/src/common.rs:126-139 | the double-quote scan stops at the printed value's own closing quote |
| `PrintedElement.CloseOfKey` | crates/builtins/src/common.rs:179-205 | the bracket scan stops at the bracket behind a printed key if and only if the key does not hold both a control byte and a single quote |
| `PrintedElement.ElementSplits` | crates/builtins/src/common.rs:56-113 | a printed element splits at the intended operator, whatever the value, if and only if the key is not of that kind |
| `PrintedElement.ReferenceSplits` | crates/builtins/src/common.rs:162-177 | a printed reference splits into the name and the printed key under the same condition |
| `PrintedElement.PrintedElementReads` | crates/builtins/src/common.rs:1590-1613 | both splits, if and only if the key does not hold both a control byte and a single quote; key and value are recovered if and only if free of control bytes |
| `PrintedElement.UnprintableKey` | crates/builtins/src/common.rs:56-113 | a key of a newline and a quote, for which neither split is the intended one |
| `ReadSplit.MarkingExact` | crates/builtins/src/read.rs:511-541 | marking escaped characters is faithful if and only if the line has no bare marker character |
| `ReadSplit.OwnMarkerMisread` | crates/builtins/src/read.rs:511-541 | a marker character in the line goes missing and protects the blank after it |
| `ReadSplit.GetWord` | crates/builtins/src/read.rs:693-749 | one word and the delimiter after it, with the shared cursor |
| `ReadSplit.SplitIfs` | crates/builtins/src/read.rs:676-691 | all fields of a line |
| `ReadSplit.FieldsConserve` | crates/builtins/src/read.rs:676-749 | the fields end to end are exactly the characters that are escaped or not separators, in order |
| `ReadSplit.BlankIfsNoEmpty` | crates/builtins/src/read.rs:693-749 | with only blanks in IFS no field is empty |
| `ReadSplit.SplitIsTheReading` | crates/builtins/src/read.rs:693-749 | from a non-blank, a list of fields is a reading of the line under the field grammar if and only if it is the one computed |
| `ReadSplit.SplitExact` | crates/builtins/src/read.rs:676-749 | the same for whole lines: the grammar has one reading and splitting finds it |
| `ReadSplit.TrimBoth` | crates/builtins/src/read.rs:558-584 | trims blanks at both ends and no more |
| `ReadSplit.SplitReadVariables` | crates/builtins/src/read.rs:590-630 | values for any number of names: fields in order, the rest of the line for the last name |
| `ReadSplit.LastValue` | crates/builtins/src/read.rs:590-630 | the last name takes its one field, or the rest of the line less trailing blanks |
| `ReadSplit.NamesGetFields` | crates/builtins/src/read.rs:590-630 | with enough names the values are the fields, padded with empty texts |
| `ReadSplit.OneNameExactly` | crates/builtins/src/read.rs:558-584 | one name gets the line less its unescaped blanks, as the last of several names gets its rest, if and only if the line so stripped is empty or has no escaped blank at either end |
| `ReadSplit.OneNameTrimsEscaped` | crates/builtins/src/read.rs:558-584 | of `a` and an escaped blank, one name gets `a`, the first of two names both characters |
| `GetOpt.OptParser.NextEvent` | crates/builtins/src/getopt.rs:49-121 | the builtins' option cursor, one step in place |
| `GetOpt.OptParser.TakeLetter` | crates/builtins/src/getopt.rs:78-121 | the option letter at the cursor, with its argument |
| `GetOpt.Next` | crates/builtins/src/getopt.rs:49-121 | every event that is not an end moves the cursor forward and keeps it in bounds |
| `GetOpt.OptionSpec` | crates/builtins/src/getopts.rs:224-241 | the lookup loop of `getopts` |
| `GetOpt.SpecAgrees` | crates/builtins/src/getopts.rs:224-241 | the two option-string lookups agree on every letter but the colon |
| `GetOpt.CallMovesOn` | crates/builtins/src/getopts.rs:93-214 | every successful `getopts` call moves forward, from any place, so a driving loop ends |
| `GetOpt.AbortsExactly` | crates/builtins/src/getopts.rs:132-153 | a call aborts if and only if its place is past the end of an option word, the word after that has no letter, and the option string gives `?` an argument |
| `GetOpt.FixedArgumentsNeverAbort` | crates/builtins/src/getopts.rs:93-214 | from the start, and from every place left by calls on the same arguments, no call of a run aborts |
| `GetOpt.ReplacedArgumentsAbort` | crates/builtins/src/getopts.rs:132-153 | `getopts ab` on `-ab`, then `getopts '?:'` on `-x` and an empty argument: the second call aborts |
| `GetOpt.ParsersAgreeExactly` | crates/builtins/src/getopts.rs:93-214 | the cursor and a driven `getopts` report the same options, errors and first operand if and only if the cursor meets no `+` word and takes no colon for an option |
| `GetOpt.PlainArgumentsAgree` | crates/builtins/src/getopts.rs:93-214 | they agree when no argument of two or more bytes starts with `+`, and none that starts with `-` holds a colon unless the option string has none |
| `GetOpt.PlusWordDiffers` | crates/builtins/src/getopt.rs:49-121 | `+a` is an option to the cursor and the first operand to `getopts` |
| `GetOpt.ColonDiffers` | crates/builtins/src/getopts.rs:224-241 | `-:` with the option string `a:` is an option to the cursor and an error to `getopts` |
| `GetOptsVars.HiddenApart` | crates/builtins/src/getopts.rs:291-293 | the hidden variables of a depth clash with none of the public ones |
| `GetOptsVars.PlaceStored` | crates/builtins/src/getopts.rs:264-283 | the place written as decimal text is the place read at the next call, whatever the name |
| `GetOptsVars.CallStored` | crates/builtins/src/getopts.rs:36-214 | after a step the variables hold the name, OPTARG if and only if there is one, the place to go on from, and all else as before; for a name of its own and writable variables |
| `GetOptsVars.CallWent` | crates/builtins/src/getopts.rs:36-214 | one call of a run, for any name: the first of the remaining reports and a place nearer to the end, or the end with OPTIND at the first operand |
| `GetOptsVars.ReadonlyOptindLoops` | crates/builtins/src/getopts.rs:243-283 | with a readonly OPTIND a loop over `getopts` goes on for ever if and only if its first call reports something |
| `GetOptsVars.ReadonlyOptindWitness` | crates/builtins/src/getopts.rs:243-283 | `readonly OPTIND=1` and `getopts a o -a`: every call reports the option |
| `GetOptsVars.Shell.Call` | crates/builtins/src/getopts.rs:36-214 | one call, for any name and any readonly variables: the writes of the source in their order, those to readonly variables refused, none at an abort |
| `GetOptsVars.Shell.Getopts` | crates/builtins/src/getopts.rs:17-84 | usage and name errors, their statuses, and the call; no status at an abort; for a name of its own and writable variables, the variables carry the whole outcome |
| `GetOptsVars.Shell.Drive` | crates/builtins/src/getopts.rs:17-214 | calling until it fails, with only the variables in between, any name and from any stored place, gives the whole list of reports and leaves OPTIND at the first operand unless it is the name |
| `Decimal.ParseToString` | crates/builtins/src/getopts.rs:36-55 | a number written to a variable is read back |
| `Spelling.SpellingExact` | crates/builtins/src/cd.rs:294-325 | 0 is equality, 1 an adjacent transposition, 2 Levenshtein distance one, 3 anything else, for all names |
| `Spelling.SpellingSymmetric` | crates/builtins/src/cd.rs:294-325 | the distance is symmetric |
| `Spelling.ChooseEntry` | crates/builtins/src/cd.rs:262-279 | the entry chosen is a closest one below 3, the last such unless exact |
| `Spelling.Correct` | crates/builtins/src/cd.rs:262-279 | a correction is offered if and only if some entry is one slip away |
| `Umask.ParseWho` | crates/builtins/src/umask.rs:155-216 | the class letters of a clause |
| `Umask.ParsePerms` | crates/builtins/src/umask.rs:218-250 | permission letters and copied classes, stopping at the next operator or the first error |
| `Umask.ApplyClause` | crates/builtins/src/umask.rs:155-216 | one clause with all its operators |
| `Umask.ApplySymbolic` | crates/builtins/src/umask.rs:155-216 | the loop over the clauses |
| `Umask.CommaIsSequence` | crates/builtins/src/umask.rs:155-216 | a comma is sequencing for all specifications, errors included |
| `Umask.ClauseFrame` | crates/builtins/src/umask.rs:155-216 | a clause changes nothing outside its classes |
| `Umask.ClausesStayWithin` | crates/builtins/src/umask.rs:155-216 | no specification leaves the nine permission bits |
| `Umask.PrintedClause` | crates/builtins/src/umask.rs:120-148 | a printed class sets exactly its printed permissions |
| `Umask.PrintedModeRestores` | crates/builtins/src/umask.rs:120-148 | applying a printed mask restores it from any current mask |
| `PrintfEscape.Digits` | crates/builtins/src/printf.rs:1066-1101 | the digit loop of the numeric escapes |
| `PrintfEscape.EmitFormatEscape` | crates/builtins/src/printf.rs:969-1038 | each escape of a format, its bytes and how much text it uses |
| `PrintfEscape.EmitUnicode` | crates/builtins/src/printf.rs:1103-1131 | the unicode escapes |
| `PrintfEscape.OctalEscape` | crates/builtins/src/common.rs:1413-1436 | a three-digit octal byte never takes a digit from what follows |
| `PrintfEscape.QuotedByteReads` | crates/builtins/src/common.rs:1413-1436 | each quoted byte is one character or one escape and stands for itself |
| `PrintfFormat.ParseNumber` | crates/builtins/src/printf.rs:458-494 | the clamped and saturating sums equal the true number clamped once; the overflow mark is set if and only if it exceeds the 32-bit maximum |
| `PrintfFormat.ParseTime` | crates/builtins/src/printf.rs:502-530 | the time format ends at the first parenthesis before a letter |
| `PrintfFormat.ParseConversion` | crates/builtins/src/printf.rs:429-566 | the parser's loops compute the specified reading |
| `PrintfFormat.ParseAt` | crates/builtins/src/printf.rs:429-566 | parsing moves forward and stays in bounds |
| `PrintfFormat.DirectiveReads` | crates/builtins/src/printf.rs:429-566 | every well-formed specification is read as what it says, whatever follows |
| `PrintfFormat.AcceptedIsDirective` | crates/builtins/src/printf.rs:429-566 | nothing else is accepted |
| `Printf.TakeArg` | crates/builtins/src/printf.rs:613-620 | the next argument, or a missing one |
| `Printf.ResolveStars` | crates/builtins/src/printf.rs:568-611 | star widths and precisions come from the arguments in order; a negative width means left |
| `Printf.FormatRound` | crates/builtins/src/printf.rs:117-312 | one pass over the format: text, arguments left, use, stop and status |
| `Printf.Printf` | crates/builtins/src/printf.rs:61-81 | the whole command prints what the passes print and returns their worst status |
| `Printf.RoundTakes` | crates/builtins/src/printf.rs:117-312 | an unstopped pass takes exactly the arguments the format asks for, in order; a stopped one the first of them |
| `Printf.RunOrdered` | crates/builtins/src/printf.rs:65-81 | over every run arguments are taken left to right, none twice, each for the next place of the repeated format |
| `Printf.RunEnds` | crates/builtins/src/printf.rs:65-81 | a run needs at most as many passes as arguments, and at least one |
| `Printf.RunTakesAll` | crates/builtins/src/printf.rs:65-81 | an unstopped run takes all arguments in the fewest passes that can, or its format takes none |
| `Printf.BatchesJoin` | crates/builtins/src/printf.rs:65-81 | whole rounds of arguments and then more print what the two print one after the other |
| `Printf.QuotedPrints` | crates/builtins/src/common.rs:1413-1436 | the body of a byte-quoted string without `%`, used as a format, prints the bytes and takes no argument |
| `Environment.WithGlobalUpdates` | crates/shell/src/state/variable_helpers.rs:266-285 | swapping the global in, updating and swapping back updates the saved global and leaves the visible binding alone |
| `Variables.StepsStayFree` | crates/shell/src/state/environment/arrays.rs:3-538 | no array, element, attribute or export operation makes a binding readonly |
| `Assignments.PayloadFree` | crates/builtins/src/common.rs:831-1061 | no call of the family makes a binding readonly or half readonly |
| `Assignments.UnsetKeeps` | crates/shell/src/state/environment/variables.rs:322-393 | unsetting a name that is not readonly keeps every readonly binding, uncovered ones included |
| `Assignments.UnsetGlobalMoves` | crates/shell/src/state/variable_helpers.rs:254-285 | unsetting a global from inside a call moves the innermost saved binding into the global's place |
| `Assignments.CallKeeps` | crates/builtins/src/common.rs:251-418 | every call of the assign, apply and unset family, local or global, keeps every readonly binding of every name, in order and unchanged, with one exception |
| `Assignments.RunKeeps` | crates/builtins/src/common.rs:597-682 | so does every run of such calls without the exception |
| `ReadonlyPlaces.CallInPlace` | crates/shell/src/state/environment/variables.rs:322-393 | such a call leaves each readonly binding in its own scope if and only if it is refused, global, or does not unset a caller's local that hides one |
| `ReadonlyPlaces.UnsetInPlace` | crates/shell/src/state/environment/variables.rs:322-393 | unsetting a name that is not readonly moves a readonly binding if and only if the name is a caller's local that hides one |
| `ReadonlyPlaces.ElementUnsetMoves` | crates/shell/src/state/environment/variables.rs:322-393 | three nested calls: unsetting element 0 of a caller's scalar makes the readonly local it hides the visible one |
| `Assignments.ReadonlyExactly` | crates/builtins/src/common.rs:1176-1220 | list assignment to an associative array keeps readonly bindings for all lists if and only if the name hides none in a caller's scope |
| `Assignments.HazardReached` | crates/builtins/src/common.rs:1176-1197 | three nested calls reach the exception: the name is an associative local, and a readonly local of the first call is changed |
| `ApplyAssignment.Shell.CarryAttrs` | crates/builtins/src/common.rs:1077-1089 | the loop that carries attributes over |
| `ApplyAssignment.Shell.AddElements` | crates/builtins/src/common.rs:1005-1016 | elements written in order, numbered after the one before |
| `ApplyAssignment.NextIndex` | crates/builtins/src/common.rs:876-879 | an append starts one past the largest stored index, else after a plain value, else at 0 |
| `ApplyAssignment.Shell.ApplyIndexedList` | crates/builtins/src/common.rs:859-897 | an indexed list, local or global, set or appended where the array ends, step by step reaches the specified environment and status |
| `ApplyAssignment.Shell.ApplyAssocList` | crates/builtins/src/common.rs:898-937 | the same for an associative list |

## Left out

- Parsing of pattern text into tokens, the test for glob characters, and case modification: the model starts from tokens, and the test is an argument.
- Collating symbols, equivalence classes and locale case folding in patterns: classes are bytes, ranges and the named ASCII classes, with ASCII folding. A replacement is a function of the match.
- Number and float rendering, field padding, the escapes of `%b`, time formats and locale encoding in printf: parameters of the model, since only the order in which arguments reach them is claimed.
- The assignment made by printf's `%n`, and flushing of partial output.
- Processes, terminals, files, `dlopen` internals and the calls into loaded code: opens and closes are counted, results are parameters.
- Special variables (RANDOM, SECONDS, DIRSTACK, GROUPS, BASH_ALIASES and the like), restricted mode and the exported process environment.
- The printing order of associative arrays: it changes no element.
- Assignment through a nameref: a redirected assignment is the assignment to its target, which is a call of the family itself; chains are not followed, and circular ones not modelled.
- Arithmetic evaluation and word expansion of values and subscripts: their results are arguments of a call, and their own side effects are not modelled.
- Messages and diagnostics.
- Non-ASCII text in quoters and case attributes, and multi-byte locales in `read`.
- `declare` as a whole, the directory stack, history, completion, `test`, and the other builtins: mostly input and output, or easy members.
- GetOptsVars.Shell.Getopts: that the variables carry the outcome is claimed for a name other than OPTIND, OPTARG and the hidden variables, for writable variables, and for lengths that fit a machine word; the writes themselves are stated without these. Variables are flat: locals and namerefs are not followed here.
- GetOptsVars.Shell.Drive: needs OPTIND and the hidden variables writable, since the loop may not end otherwise (`ReadonlyOptindLoops`), and lengths that fit a machine word.
- Scanners.ScannersAgree: the condition is sufficient, not necessary; `SubstitutionExactly` has the exact one for a subscript that is a plain substitution.
- Quoting.PrintfExact: for ASCII, since bytes above it take another path.
- QuoteScan.QuoteSettled: for ASCII, as the quoters are.
- QuoteScan.PrintedLineComplete: the same.
- Printf.QuotedPrints: for texts without `%`, which the quoter does not escape.
- Sync.LendAssoc: the elements are stated where unsetting the name uncovers nothing; `AssocExactly` says what happens otherwise. Scalars written back are plain assignments and have no member of their own.
- Sync.LendIndexed: asks that the snapshot holds no NUL byte; `StripNul` says what becomes of one.
- Pattern.PlusAgreesExactly: for branches without an unsafe `+(...)` of their own; nested ones may cancel or compound the difference.
- GetOpt.PlainArgumentsAgree: sufficient, not necessary; `ParsersAgreeExactly` has the exact condition, over the events of the cursor.
- Assignments.CallKeeps: needs the flag and the attribute of readonly to agree in every binding, which the family itself preserves.
