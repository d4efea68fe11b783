# Verification model of the trust compiler's core algorithms

A Dafny model of those parts of the trust compiler whose correctness depends on
more than one function or on whole runs, with proofs of what they promise. Verify
with `dafny verify dfyconfig.toml`.

| file | part of the compiler |
|---|---|
| `Types.dfy` | type ids, alias chains and the registry, as far as the other files need them |
| `BaseSearch.dfy`, `Overload.dfy`, `OverloadLaws.dfy` | overload resolution: conversion ranks, the search through base classes, the choice of a signature |
| `OverloadSuffix.dfy` | the C++ name suffix of an overload |
| `LruCache.dfy`, `LruLaws.dfy` | the LRU cache, and laws about its runs |
| `Location.dfy`, `LineIndex.dfy`, `Utf8.dfy`, `SourceMap.dfy` | packed locations, the sparse line index, columns of UTF-8 text, and the cached line/column query on top of both |
| `FrameEpoch.dfy`, `Dependents.dfy` | mutation epochs per lexical scope, and the borrows that uses of dependents find |
| `Powers.dfy`, `IntLiteral.dfy`, `LiteralLaws.dfy` | integer literals: parsing, inferred type, annotations |
| `Promotion.dfy`, `IntDivision.dfy` | types of arithmetic expressions, without and with integer division |
| `SmtCompare.dfy` | export of integer comparisons to SMT-LIB |
| `Cli.dfy`, `CliLaws.dfy` | the driver's command-line parser |

Objects that the source updates in place are classes (`LruCache.Cache`,
`LineIndex.FileEntry`, `SourceMap.SourceMap`, `FrameEpoch.Epochs`, `Dependents.Tracker`,
`Cli.Target`), loops are methods; each is tied by its contract to a specification
function, and the laws are proved about that function. List iterators are references to node objects.
A failed `EXPECT` is `None`. Bytes of names and source texts are chars and numbers
below 256. Machine words are numbers with their bounds written out; shifts and masks
of packed locations are written arithmetically, which `Location.BitForms` justifies on
32-bit vectors.

Where the code and its own comments differ, the code is modelled:

- `include/types/overload_resolve.hpp:8-11` says that narrowing conversions are
  discarded; the code ranks them 4000 and above and keeps the candidate
  (lemma `Overload.RankTable`).
- `include/driver/cli.hpp:76-77` says that an option with an optional value never takes
  the next token; the short form does (`CliLaws.OptionalValueForms`).
- `include/types/overload_resolve.hpp:30-33` says that the suffix tells overloads apart;
  it does so only up to the grouping of words (`OverloadSuffix.SuffixCollision`).
- `include/location/location.hpp:13-20` gives file ids to 511 input and 31 output files;
  the factories refuse the last of each (`Location.FactoryLimits`).

Properties the code does not have on all inputs, with the exact condition under which
each holds:

- The epoch test at the use of a dependent tells whether its anchor was mutated since
  birth: only if no scope further in declares the anchor's name at the use, which the
  compiler merely warns about, and none bound it at any time since birth without telling
  the tracker, as a parameter does (`FrameEpoch.RedeclaredInside`,
  `FrameEpoch.RedeclaredBesideBorrow`, `FrameEpoch.ParameterAlarm`,
  `FrameEpoch.BorrowRightIff`, `FrameEpoch.AgreeIff`).
- The use of a dependent finds the borrow of the variable it means: only if that was last
  written in the scope that declares it and no scope further out has been written under
  its name (`Dependents.HiddenDependent`, `Dependents.ForgottenBorrow`,
  `Dependents.UseRightIff`).
- The search through base classes ends: not above an inheritance cycle, and two class
  declarations can form one (`BaseSearch.MutualBasesNeverEnd`, `BaseSearch.EmptiesIff`,
  `BaseSearch.SearchEndsIff`).
- The type of an arithmetic expression does not depend on its bracketing: not for every
  bag of leaves with untyped operands (`Promotion.AnyIsNotAssociative`,
  `Promotion.ShapeFreeIff`) or for every number of integer divisions
  (`IntDivision.IntDivShape`, `IntDivision.DividedShapeIff`).
- An exported comparison means the comparison of the integers
  (`SmtCompare.ExportRightIff`, `SmtCompare.ConcreteOperands`,
  `SmtCompare.GlobalOperand`; with literals `SmtCompare.UnsignedLocal`,
  `SmtCompare.LiteralRightIff`, `SmtCompare.LiteralLeftIff`).
- The line/column cache stays right when output text is appended (`SourceMap.StaleRun`,
  `SourceMap.AppendKeepsMemo`, `SourceMap.AnswersStayIff`).
- A file id survives packing (`Location.DecodePacked`, `Location.OutputAliasing`).
- Overloads differ in their suffix (`OverloadSuffix.SuffixClashes`,
  `OverloadSuffix.SuffixCollision`).
- Only integer literals are accepted as such (`IntLiteral.LoneMinusAccepted`,
  `IntLiteral.AcceptedTexts`).

## Model

| member | source | states |
|---|---|---|
| Types.CanonicalIdempotent | src/types/registry.cpp:655-666 | Following aliases ends in an id without behavioural flags that is its own canonical id |
| Types.CanonicalEndsAliases | src/types/registry.cpp:655-666 | The canonical id lies at the end of the alias chain and is no alias |
| Types.EntryOfUser | src/types/registry.cpp:572-578 | Bases and signature of an id that is no alias are those of its own registry entry; ids without entry have none |
| Types.BuiltinIds | src/types/builtin_types.cpp:63-101 | The built-in types differ, and have the groups and widths of their names |
| BaseSearch.SearchBases | include/types/overload_resolve.hpp:131-143 | Every search that ends, on cyclic graphs and diamonds too, finds the target exactly when it lies in the transitive closure of the canonicalised bases |
| BaseSearch.BasesWeighLess | include/types/overload_resolve.hpp:133-142 | Replacing a popped type that is on no cycle by its bases lowers the number of inheritance paths still pending |
| BaseSearch.FrontierStep | include/types/overload_resolve.hpp:134-141 | One round keeps the frontier: everything pending is a base of the source type, and a pending type leads to the target if any does |
| BaseSearch.EmptiesIff | include/types/overload_resolve.hpp:133-142 | The worklist runs empty exactly when nothing above the source type lies on an inheritance cycle |
| BaseSearch.SearchEndsIff | include/types/overload_resolve.hpp:133-142 | The search ends exactly when nothing above the source lies on a cycle, or the target comes, depth first from the last base on, before any type on or below a cycle |
| BaseSearch.AbsentTargetEnds | include/types/overload_resolve.hpp:133-144 | For a target that is no base the search ends exactly on cycle-free ground |
| BaseSearch.MutualBasesNeverEnd | src/semantic/record_decl_analyzer.cpp:97-129 | Two classes that are bases of each other, which a declaration before the definition makes possible, are searched for ever for anything but the two |
| Overload.OverloadConversionRank | include/types/overload_resolve.hpp:62-145 | Whenever the ranking ends it is the rank specified through the transitive closure |
| Overload.RankBands | include/types/overload_resolve.hpp:62-76 | Rank 0 exactly for canonical identity of non-Any types, 5000 exactly when Any is involved, all other conversions strictly between |
| Overload.MachineOrder | include/types/overload_resolve.hpp:105-129 | The ranks order the conversions of a machine number: nearer widenings, then floats at least as wide from the narrowest, then all narrowings alike |
| Overload.RankTable | include/types/overload_resolve.hpp:80-129 | The rank of every conversion between numbers, by kind of conversion and width |
| Overload.ExactOrder | include/types/overload_resolve.hpp:80-104 | Targets of arbitrary precision rank alike, behind widenings and a float of the same width, before wider floats and narrowings |
| Overload.Convertible | include/types/overload_resolve.hpp:62-145 | There is a conversion exactly to unknown or equal types, among machine numbers, from numbers and Bool to arbitrary precision, and from a record to its bases |
| Overload.AliasRanks | include/types/overload_resolve.hpp:66-76 | An alias ranks as its target, on either side |
| Overload.RecordRank | include/types/overload_resolve.hpp:131-144 | A record converts with rank 2000 exactly to its proper bases and to nothing else |
| Overload.ViableIff | include/types/overload_resolve.hpp:162-188 | Viable exactly when the arity fits, surplus arguments meet a variadic type, and every argument converts |
| Overload.RankSignature | include/types/overload_resolve.hpp:174-187 | Ranks of all arguments, or none as soon as one argument has no conversion |
| Overload.CollectCandidates | include/types/overload_resolve.hpp:161-189 | The viable signatures, in order, with their rank vectors |
| Overload.ResolveOverload | include/types/overload_resolve.hpp:155-225 | Whenever the rankings it begins end, the two nested loops compute the undominated candidates and the verdict drawn from them |
| Overload.ResolutionEndsOnAcyclic | include/types/overload_resolve.hpp:155-189 | Resolution ends for all signatures if no argument type has an inheritance cycle above it, whatever cycles lie elsewhere |
| OverloadLaws.UndominatedBelow | include/types/overload_resolve.hpp:204-219 | The dominance order is well founded: under every dominated candidate lies an undominated one |
| OverloadLaws.ChosenIffStrictBest | include/types/overload_resolve.hpp:191-224 | A signature is chosen exactly when it is no worse than every other viable candidate everywhere and strictly better somewhere |
| OverloadLaws.ChoiceOrAmbiguity | include/types/overload_resolve.hpp:147-151 | No viable candidate gives neither, otherwise exactly one of: a choice, or at least two ambiguous entries |
| OverloadLaws.OrderIrrelevant | include/types/overload_resolve.hpp:155-224 | Permuting the signatures keeps the choice and the bag of ambiguous candidates |
| OverloadLaws.IrrelevantAlternative | include/types/overload_resolve.hpp:155-224 | Adding or removing a signature that is not viable or is strictly dominated changes nothing |
| OverloadLaws.ExactIsZero | include/types/overload_resolve.hpp:74-76 | Zero rank vectors come from exact matches and from nothing else |
| OverloadLaws.ExactMatchWins | include/types/overload_resolve.hpp:191-223 | Once some signature matches every argument exactly, the exact matches alone decide: one is chosen, several are ambiguous |
| OverloadLaws.CloserWins | include/types/overload_resolve.hpp:105-129 | Of two overloads to which a machine number converts, in any of the ways, the closer one is chosen; equally close ones are ambiguous |
| OverloadLaws.LowerRankWins | include/types/overload_resolve.hpp:191-224 | Of two viable overloads of one argument the one of lower rank is chosen, equal ranks are ambiguous |
| OverloadLaws.NarrowerFloatWins | include/types/overload_resolve.hpp:123-125 | An integer takes the narrower of two float overloads at least as wide as it |
| OverloadLaws.NarrowingsAmbiguous | include/types/overload_resolve.hpp:113-129 | Two overloads that both narrow the argument are ambiguous, however much they narrow |
| OverloadSuffix.OverloadCppSuffix | include/types/overload_resolve.hpp:34-56 | Empty exactly for an id that is no function type; otherwise the loops build the suffix from the sanitized names and the variadic mark |
| OverloadSuffix.SuffixOfKeptNames | include/types/overload_resolve.hpp:39-55 | The text of the suffix for names of ASCII digits and letters |
| OverloadSuffix.SanitizedName | include/types/overload_resolve.hpp:43-49 | Every byte but ASCII digits and letters becomes an underscore, one for one |
| OverloadSuffix.SuffixCollision | include/types/overload_resolve.hpp:30-56 | Two signatures share a suffix exactly when they consist of the same sequence of alphanumeric words |
| OverloadSuffix.DecodeSuffix | include/types/overload_resolve.hpp:34-56 | For alphanumeric names other than vararg the parameter list and the variadic mark can be read back |
| OverloadSuffix.SuffixClashes | include/types/overload_resolve.hpp:39-55 | Outside that class distinct signatures do clash |
| LruCache.Cache.constructor | include/utils/cache.hpp:24-25 | A new cache of any capacity is empty and valid |
| LruCache.Cache.Lookup | include/utils/cache.hpp:27-37 | A hit returns the value and moves the entry to the fresh end; list and index stay consistent |
| LruCache.Cache.Discard | include/utils/cache.hpp:40-45 | Dropping the old entry of a key removes it from the list and the index and nothing else |
| LruCache.Cache.EvictOldest | include/utils/cache.hpp:48-51 | Eviction removes the front of the list and its index entry |
| LruCache.Cache.Insert | include/utils/cache.hpp:39-56 | The old entry of the key goes, the oldest one is evicted if the list is still full, the new one comes last |
| LruCache.AfterInsertKeeps | include/utils/cache.hpp:39-56 | Insertion keeps keys distinct and the size within the capacity |
| LruLaws.Replay | include/utils/cache.hpp:21-66 | The class runs through exactly the states of the list specification, for every trace |
| LruLaws.RunKeeps | include/utils/cache.hpp:21-66 | Every run keeps keys distinct and the capacity bound |
| LruLaws.InclusionLaw | include/utils/cache.hpp:27-56 | On one trace a smaller cache holds a subsequence of a larger one, and each of its hits is a hit there with the same value |
| LruLaws.RecencyLaw | include/utils/cache.hpp:27-56 | The cache holds exactly the last capacity distinct keys inserted or hit, oldest first, each with its latest inserted value |
| Location.BitForms | include/location/location.hpp:148-183 | The shifts, masks and unions of the packing equal the arithmetic used for them |
| Location.FactoryLimits | include/location/location.hpp:61-68 | Ids go to the first 510 input and the first 30 output files, and only to them, but for the wrapping index |
| Location.FileLimits | include/location/location.hpp:85-91 | An id is accepted exactly when its index without the output bit is at most 510 |
| Location.IndexOfId | include/location/location.hpp:79-82 | Every id but 0 has a table position; that of the bare output bit lies outside all tables |
| Location.DecodePacked | include/location/location.hpp:84-91 | Packing keeps the offset, and the file exactly when an output index fits five bits |
| Location.DecodeMade | include/location/location.hpp:61-68 | Locations in files made by the two factories decode to the same file and offset, and to the table position unless the 64-bit increment wrapped |
| Location.PackDecoded | include/location/location.hpp:148-183 | Every decodable word is the packing of what it decodes to |
| Location.OutputAliasing | include/location/location.hpp:84-91 | The limit check accepts output ids that share all their locations |
| Location.PackedOrder | include/location/location.hpp:199-205 | Comparing packed words is comparing file, then offset |
| Location.ValidRange | include/location/location.hpp:230 | Valid means in one file, running forward, and neither end invalid |
| Location.PackedInterval | include/sourcemap/mapper.hpp:618 | The packed interval test of any range means lying between its ends; for a valid range that is the same file and an offset inside |
| Location.FindNameInMappings | include/sourcemap/mapper.hpp:613-623 | Returns the first mapping whose name matches and whose range contains the location, or none when there is none |
| Location.KeyInjective | include/sourcemap/mapper.hpp:568-570 | Cache keys of different locations differ |
| LineIndex.CollectLines | src/utils/cache.cpp:21-30 | All line starts with their numbers |
| LineIndex.SampleLines | src/utils/cache.cpp:40-46 | Picks from the first to the last line whose neighbours lie equally far apart, give or take one line |
| LineIndex.BuildIndex | src/utils/cache.cpp:11-47 | The sparse index holds max(2, sqrt(lines)) true line starts, or all of them if fewer, in even steps over the whole text |
| LineIndex.SampleSizeIs | src/utils/cache.cpp:32-33 | The size of the index: at least 2 and at least the root of the lines rounded down, as far as there are that many, and no larger |
| LineIndex.UpperBound | src/utils/cache.cpp:54 | Binary search for the first anchor beyond the target |
| LineIndex.FindBy | src/utils/cache.cpp:49-73 | The last anchor not beyond the target |
| LineIndex.FileEntry.AppendSource | src/sourcemap/reader.cpp:46-51 | Appends and clears the index of the file; beyond the size limit it fails with the text appended and the old index kept, whose anchors still hold |
| LineIndex.FileEntry.EnsureCache | src/sourcemap/reader.cpp:60-64 | Builds the index on first use |
| LineIndex.FileEntry.CalcColumn | src/sourcemap/reader.cpp:67-105 | Scanning from the nearest indexed line gives the line and the UTF-8 column counted from the start of the text |
| Utf8.CharsOfEncoding | src/sourcemap/reader.cpp:93-98 | The bytes counted in the UTF-8 encoding of a text (RFC 3629, section 3) are as many as its characters |
| Utf8.CountedBytes | src/sourcemap/reader.cpp:93-98 | In any bytes, well encoded or not, each counts but those whose two top bits are 10 |
| Utf8.ColumnCountsCharacters | src/sourcemap/reader.cpp:67-105 | Behind k characters of a line the column is k + 1, whatever precedes the line |
| Utf8.LineOffset | src/sourcemap/reader.cpp:108-138 | A line that exists starts behind as many bytes 10 as lines precede it, the last of them right in front; other numbers stand for the end |
| Utf8.OutsideText | src/sourcemap/reader.cpp:67-85 | Offsets beyond the text stand for its end, in an empty text for a column of line 1 |
| LineIndex.FileEntry.CalcLineOffset | src/sourcemap/reader.cpp:108-138 | Returns the start of the line, or the end of the text for a line that does not exist |
| LineIndex.LineStartRoundTrip | src/sourcemap/reader.cpp:67-138 | The start of a line is at column 1 of that line |
| LineIndex.PositionRoundTrip | src/sourcemap/reader.cpp:67-138 | The start of the line of an offset is the last line start before it |
| LineIndex.AppendMovesBeyond | src/sourcemap/reader.cpp:46-51 | Every appended text leaves the position of an offset alone exactly when the offset is within the old text or its end |
| SourceMap.SourceMap.GetFile | include/sourcemap/mapper.hpp:490-503 | Finds the table entry of a file id |
| SourceMap.SourceMap.LineColumn | include/sourcemap/mapper.hpp:567-581 | Answers from the memo or computes, and leaves the memo as specified on values, in every state |
| SourceMap.AnswerPlaces | include/sourcemap/mapper.hpp:490-503 | A query is answered from the text of the file its location lies in, input and output files apart, if there is one and the offset is not 0 |
| SourceMap.AnswerElsewhere | include/sourcemap/mapper.hpp:574-576 | The invalid location is line 1, column 1; no answer for the file fields no file has |
| SourceMap.MemoStep | include/sourcemap/mapper.hpp:567-581 | What one query leaves in the memo: the answer given comes last; without an answer, or for the invalid location, nothing changes |
| SourceMap.Transparent | include/sourcemap/mapper.hpp:567-581 | As long as what the memo remembers is right its answers are those counted from the sources, and stay so |
| SourceMap.SourceMap.LineColumns | include/sourcemap/mapper.hpp:567-581 | Over a whole run of queries on unchanged sources every answer is the uncached one |
| SourceMap.SourceMap.OutputAppend | src/sourcemap/mapper.cpp:259-267 | Appends to the one output file addressed, or fails; the memo stays as it is |
| SourceMap.AppendPlaces | src/sourcemap/mapper.cpp:259-267 | An append reaches the one output file of its id, and fails exactly without such a file or beyond 0x3F_FFFF bytes |
| SourceMap.SourceMap.Serve | src/sourcemap/mapper.cpp:259-267 | Over every run of queries and appends the class replies as the memo on values |
| SourceMap.RunTransparent | src/sourcemap/mapper.cpp:259-267 | As long as no query lies beyond the present end of its output file every reply of the run is the one without a memo |
| SourceMap.StaleRun | src/sourcemap/mapper.cpp:259-267 | A run that queries beyond the end, appends a line break and queries again gets the old answer |
| SourceMap.AnswersStayIff | src/sourcemap/mapper.cpp:259-267 | After appending every answer is right, whatever is appended and asked, exactly when nothing remembered lies beyond the old end |
| SourceMap.AppendKeepsMemo | src/sourcemap/mapper.cpp:259-267 | After appending to an output file the memo is right for every appended text exactly when nothing remembered lies beyond the old end |
| FrameEpoch.Epochs.Push | include/semantic/frame_epoch.hpp:36 | Opens an empty frame |
| FrameEpoch.Epochs.Pop | include/semantic/frame_epoch.hpp:39-43 | Closes the innermost frame but never the global one |
| FrameEpoch.Epochs.Declare | include/semantic/frame_epoch.hpp:46-51 | Registers a name in the innermost frame unless it is empty or a placeholder |
| FrameEpoch.Epochs.Mutate | include/semantic/frame_epoch.hpp:55-65 | Raises the epoch and stores the site in the frame of declaration |
| FrameEpoch.Epochs.FindFrame | include/semantic/frame_epoch.hpp:96-114 | The scan finds the innermost declaring frame, else the global one |
| FrameEpoch.DeclareEffect | include/semantic/frame_epoch.hpp:46-51 | A declared name is found in the innermost frame from then on and no other name is affected; the empty name and the placeholder are not declared |
| FrameEpoch.MutateEffect | include/semantic/frame_epoch.hpp:54-65 | A mutation raises the epoch of its name by one and notes its site, in the frame the name means, and touches nothing else |
| FrameEpoch.Epochs.EpochOf | include/semantic/frame_epoch.hpp:68-75 | The epoch stored in the frame the name resolves to |
| FrameEpoch.Epochs.ChangeSiteOf | include/semantic/frame_epoch.hpp:78-85 | The change site stored in the frame the name resolves to |
| FrameEpoch.Replay | include/semantic/frame_epoch.hpp:28-118 | The class runs through exactly the states of the state machine, for every run |
| FrameEpoch.StepMirrors | include/semantic/frame_epoch.hpp:36-65 | Every operation keeps each frame equal to what the history charges to its instance |
| FrameEpoch.EpochRefinesHistory | include/semantic/frame_epoch.hpp:46-114 | After every run the epoch counts the past mutations charged to the frame instance the name belongs to now, and the change site is the last of them |
| FrameEpoch.BlockEffect | include/semantic/frame_epoch.hpp:36-74 | A balanced block in its own scope restores depth and resolution and raises each epoch by exactly the mutations that resolved to the surviving frame |
| FrameEpoch.BlocksAreBalanced | include/semantic/frame_epoch.hpp:34-43 | What a block is: declarations and mutations, blocks side by side, and blocks between entering and leaving a scope |
| FrameEpoch.BorrowOutdated | src/semantic/nativeref.cpp:513-530 | At every use, in whatever scope, if the anchor's frame is the one the tracker sees and tracker and program never disagreed about the name since birth, the epoch test reports exactly the mutations of the variable borrowed from, by the scoping of the program |
| FrameEpoch.BorrowRightIff | src/semantic/nativeref.cpp:463-530 | The test is right for all placements of mutations in the same scopes and bindings exactly under that condition |
| FrameEpoch.HiddenAnchorFails | src/semantic/nativeref.cpp:513-530 | Once the name is hidden from the tracker the test is wrong for some placement of mutations |
| FrameEpoch.ConfusionFails | src/semantic/nativeref.cpp:475-481 | So is it after any point at which tracker and program disagreed about the name |
| FrameEpoch.AgreeIff | src/semantic/nativeref.cpp:463-469 | They agree exactly when a binding of the name further in than the anchor goes with a declaration known to the tracker |
| FrameEpoch.ParameterAlarm | src/semantic/decl_analyzer.cpp:476-508 | A parameter of the anchor's name, assigned in the body of its function: a false alarm after the function is left |
| FrameEpoch.RedeclaredInside | src/semantic/decl_analyzer.cpp:204-219 | A shadowing declaration in an inner scope: one run with a false alarm, one with a missed use |
| FrameEpoch.RedeclaredBesideBorrow | src/semantic/decl_analyzer.cpp:204-219 | The same two failures when the anchor's name is declared in the scope of the borrow itself |
| FrameEpoch.ShadowedNeverReaches | include/semantic/frame_epoch.hpp:96-105 | While an inner frame declares a name no mutation of it reaches a frame further out |
| Dependents.Tracker.EnterScope | src/semantic/nativeref.cpp:24-27 | Opens an empty frame |
| Dependents.Tracker.ExitScope | src/semantic/nativeref.cpp:29-34 | Closes the innermost frame but never the global one |
| Dependents.Tracker.RecordBirth | src/semantic/nativeref.cpp:202-222 | A declaration records its borrow in the innermost frame; a plain one changes nothing |
| Dependents.Tracker.PropagateBorrowOnAssign | src/semantic/nativeref.cpp:224-246 | An assignment records or drops the borrow in the innermost frame, wherever the variable is declared |
| Dependents.Tracker.FindFrameWithDependent | src/semantic/nativeref.cpp:263-276 | The scan finds the innermost note under the name |
| Dependents.Replay | src/semantic/nativeref.cpp:24-276 | The class runs through exactly the states of the state machine, for every run |
| Dependents.HomeIsRight | src/semantic/nativeref.cpp:513-523 | If the variable meant was last written in its own scope, and no scope further out was under its name, a use finds its borrow |
| Dependents.UseRightIff | src/semantic/nativeref.cpp:513-523 | That is so for all borrows the values of a run may carry exactly under this condition |
| Dependents.HiddenDependent | src/semantic/nativeref.cpp:202-219 | An input: a plain variable hides a dependent one and is taken for it |
| Dependents.ForgottenBorrow | src/semantic/nativeref.cpp:238-241 | An input: a borrow assigned in an inner scope is forgotten when that is left |
| IntLiteral.StripDigitSeparators | include/types/int_literal.hpp:28-32 | Removes exactly the separators |
| IntLiteral.DropLeadingZeros | include/types/int_literal.hpp:76-77 | Dropping leading zeros does not change the outcome |
| IntLiteral.GuardIsExact | include/types/int_literal.hpp:85 | The guard fires exactly when the next value would not fit 64 bits |
| IntLiteral.AccumulateDigits | include/types/int_literal.hpp:80-91 | Exact value, saturation at the first overflowing digit, or rejection |
| IntLiteral.ParseIntegerLiteral | include/types/int_literal.hpp:67-92 | The parser computes its specification by digit prefix and value |
| IntLiteral.AcceptedTexts | include/types/int_literal.hpp:67-92 | Accepted are exactly the well-formed literals, a lone minus, and texts whose leading digits overflow before any junk |
| IntLiteral.LoneMinusAccepted | include/types/int_literal.hpp:72-91 | An input: a minus without digits is accepted |
| IntLiteral.ParseIsExact | include/types/int_literal.hpp:67-92 | A well-formed literal is parsed to its value, or flagged when it exceeds 64 bits |
| IntLiteral.ShiftedBounds | include/types/int_literal.hpp:102-104 | The shifted 64-bit limits are the two's-complement limits of every width from 1 to 64 |
| IntLiteral.FitsSignedIsRange | include/types/int_literal.hpp:98-106 | The magnitude test is membership in the two's-complement range |
| IntLiteral.InferredTypeIsMinimal | include/types/int_literal.hpp:125-154 | The smallest of Int8 to Int64 that contains the value, BigInteger exactly when none does |
| IntLiteral.FitsTargetIsRange | include/semantic/analysis_common.hpp:96-114 | Signed targets take exactly the values in range, unsigned ones exactly those written without a minus |
| IntLiteral.FitsTargetAtAll | include/semantic/analysis_common.hpp:96-114 | Targets that are no machine integers take every text, the others none that is unreadable or exceeds 64 bits |
| IntLiteral.AnnotationIsRange | include/semantic/analysis_common.hpp:53-90 | An integer annotation is accepted exactly for the values of its type, otherwise overflow is reported |
| IntLiteral.AnnotationMonotone | include/semantic/analysis_common.hpp:53-114 | Acceptance is monotone in the width within a group |
| IntLiteral.InferredTypeAccepts | include/semantic/analysis_common.hpp:53-90 | Every literal is accepted under the type inferred for it |
| IntLiteral.MinusZeroRefused | include/semantic/analysis_common.hpp:106-111 | Minus zero is refused by unsigned targets although zero is in range |
| LiteralLaws.SeparatorsIgnored | include/types/int_literal.hpp:28-32 | An underscore anywhere in a literal changes neither its number nor its type nor the verdict on an annotation |
| LiteralLaws.NumeralIsRead | include/types/int_literal.hpp:67-92 | Decimal notation of a number is read as that number below 2^64 and flagged from there on, with or without a minus |
| LiteralLaws.OtherCharsSpoil | include/types/int_literal.hpp:67-92 | Any other character between digits is refused |
| LiteralLaws.TypeOfNumeral | include/types/int_literal.hpp:125-154 | The type inferred for a numeral, by number |
| LiteralLaws.NumeralAnnotation | include/semantic/analysis_common.hpp:53-114 | A built-in integer annotation takes exactly the numerals of its type |
| LiteralLaws.MinusAnnotation | include/semantic/analysis_common.hpp:53-114 | With a minus: signed types take what is in range, unsigned ones nothing |
| LiteralLaws.OtherAnnotation | include/semantic/analysis_common.hpp:53-90 | What the other built-in annotations accept, and which problem is reported otherwise |
| Promotion.BinaryJoinsClasses | include/semantic/type_inference.hpp:71-121 | The result of one operator is the join of the classes of its operands |
| Promotion.TreeTypeIsBagType | include/types/promotion.hpp:58-109 | The type of an expression tree is read off the bag of its leaf types, INVALID exactly when arbitrary precision and floats mix |
| Promotion.ShapeIndependence | include/semantic/type_inference.hpp:71-121 | Trees over the same leaf types have the same type, whatever the bracketing, order and repetition |
| Promotion.AnyOperand | include/types/promotion.hpp:39-52 | An untyped operand behaves like a second operand of the other's type exactly for signed integers and floats |
| Promotion.RefusedExactly | include/semantic/type_inference.hpp:71-121 | Exactly when the operands of an arithmetic operator have no common type |
| Promotion.TestsAreBool | include/semantic/type_inference.hpp:71-75 | Comparisons and logical operators give Bool |
| Promotion.ArithmeticIsNumeric | include/semantic/type_inference.hpp:84-121 | Arithmetic gives a numeric type or INVALID, whatever the operands |
| Promotion.ShapeFreeIff | include/semantic/type_inference.hpp:71-121 | With untyped leaves allowed, all trees over a bag of leaves have one type exactly when arbitrary precision and floats mix, or no untyped operand can change sides: none or no machine integer beside arbitrary precision, at most one or no machine number without |
| Promotion.AnyIsNotAssociative | include/semantic/type_inference.hpp:100-114 | Bracketings of the same leaves with different types: two untyped operands, and one beside an integer and a BigInteger |
| IntDivision.DividedShapeIff | include/semantic/type_inference.hpp:71-121 | All expressions over a bag of leaves, untyped ones allowed, with a given number of integer divisions have one type exactly when there is no other operator, or there are more operands of arbitrary precision than other operators, or no such operands, no floats and at most one untyped one |
| IntDivision.IntDivShape | include/semantic/type_inference.hpp:84-98 | An input: next to BigInteger the division is refused, further inside it gives Int64 |
| IntDivision.ExactAbove | include/semantic/type_inference.hpp:84-98 | In an expression with a type, operands of arbitrary precision lie above all integer divisions, at most one for each other operator |
| SmtCompare.CoercionKeepsValue | include/solver/smt_term_builder.hpp:291-305 | Extension to the target width keeps the integer an operand stands for; wide enough terms are unchanged |
| SmtCompare.ExportMeaning | src/solver/smt_expr_enc.cpp:294-316 | The exported formula says the word comparison of the coerced operands, signed or unsigned by the inferred signs |
| SmtCompare.ExportFaithful | src/solver/smt_expr_enc.cpp:294-316 | Under the condition the formula means the comparison of the integers, for all terms, signs and models |
| SmtCompare.ExportUnfaithful | src/solver/smt_expr_enc.cpp:312-314 | Otherwise some model makes the formula wrong, whatever the operator |
| SmtCompare.ExportRightIff | src/solver/smt_expr_enc.cpp:271-316 | For operands of every inferred sign, real signedness and knowledge of their type: an order comparison is right in all models exactly when the operator reads both integers back from their words, an equality exactly when equal words stand for equal integers |
| SmtCompare.ConcreteOperands | src/solver/smt_expr_enc.cpp:239-279 | For two operands of known sign: right exactly for equal signedness or a strictly wider signed operand |
| SmtCompare.OperandWidths | src/solver/smt_expr_enc.cpp:24-36 | The operands of the formula are as wide as the widest of the declared sort and the two |
| SmtCompare.ConcreteAtSort | src/solver/smt_expr_enc.cpp:249-316 | For two operands of known sign under any declared sort: right exactly for equal signedness or an unsigned operand narrower than the widest of the three |
| SmtCompare.UnknownType | src/solver/smt_expr_enc.cpp:312-314 | A signed operand whose type the export does not find is extended by zeros: beside a signed operand of known type right exactly if it needs no extension |
| SmtCompare.GlobalOperand | src/solver/smt_expr_enc.cpp:213-219 | A global takes sort and sign of the operand on its left: right in all models exactly when its values are meant with the same signedness |
| SmtCompare.LiteralRightIff | src/solver/smt_expr_enc.cpp:134-150 | Any operand, locals and globals without inferred sign included, against a literal on the right: equality is right exactly when the literal fits the operand's values, an order comparison when moreover the operator reads them as meant, or the literal wraps to the operator's largest number under `<=` or `>` |
| SmtCompare.UnsignedLocal | src/solver/smt_expr_enc.cpp:47-58 | An input: a UInt8 local compared with 200 is exported with a signed operator and misjudged |
| SmtCompare.LiteralLeftIff | src/solver/smt_expr_enc.cpp:134-150 | A literal on the left, encoded at its own type, against any operand: the exact condition |
| SmtCompare.LiteralOnTheLeft | src/solver/smt_expr_enc.cpp:134-150 | Against an operand whose type gives its sign it is always compared rightly |
| Cli.FindLongDistinct | include/driver/cli.hpp:104-111 | With distinct names every option is found under its name |
| Cli.FindLongFirst | include/driver/cli.hpp:104-111 | A name finds the first option that bears it, in any table |
| Cli.FindShortFirst | include/driver/cli.hpp:112-122 | A letter finds the first option that is abbreviated or named by it, in any table |
| Cli.Target.ApplyOption | include/driver/cli.hpp:94-96 | Records the callback call and its verdict |
| Cli.Target.TakePositional | include/driver/cli.hpp:246-252 | First the input file, then program arguments, otherwise an error |
| Cli.Target.TakeLong | include/driver/cli.hpp:140-180 | Long options by arity, with the lookahead for a separate value |
| Cli.Target.TakeFeature | include/driver/cli.hpp:182-208 | Feature flags and their negation |
| Cli.Target.TakeDiagnostic | include/driver/cli.hpp:210-219 | Diagnostic tokens are collected and help requests noted |
| Cli.Target.TakeShort | include/driver/cli.hpp:220-244 | Short options with attached or separate value |
| Cli.Target.Take | include/driver/cli.hpp:125-253 | One round of the loop: one token and the values it consumes |
| Cli.ParseDriverArgs | include/driver/cli.hpp:101-256 | The in-place loop computes the parse of the tokens after the program name, partial results included |
| CliLaws.DirectiveSteps | include/driver/cli.hpp:140-253 | Reading back what a directive prints has exactly its effect and consumes exactly its tokens |
| CliLaws.StepReadsDirective | include/driver/cli.hpp:124-254 | Every successful round reads one allowed directive, its tokens and no others |
| CliLaws.ParseInvertsPrint | include/driver/cli.hpp:101-256 | Printing any allowed directives and parsing them gives no error and exactly their effects in order |
| CliLaws.PrintInvertsParse | include/driver/cli.hpp:101-256 | An accepted command line is the print-out of allowed directives with the parsed effects |
| CliLaws.AcceptedIffPrinted | include/driver/cli.hpp:101-256 | A command line is accepted exactly when it prints allowed directives |
| CliLaws.ErrorMeaning | include/driver/cli.hpp:124-254 | Each error names what is wrong with the token at hand; only a refusal by the callback leaves a trace in the state |
| CliLaws.ErrorIsFirst | include/driver/cli.hpp:98-100 | An error is raised at the first place where no allowed directive can be read, after everything before it has been applied |
| CliLaws.ParseComposes | include/driver/cli.hpp:123-255 | After a prefix that parses, the rest is parsed from the state the prefix left |
| CliLaws.CanonicalRoundTrip | include/driver/cli.hpp:101-256 | Canonical forms with a separator tail reproduce exactly the callback calls, diagnostics, input file and program arguments |
| CliLaws.OptionalValueForms | include/driver/cli.hpp:233-240 | Of all forms of an option with an optional value, bare or with a value attached, exactly the bare short one takes the next token |
| CliLaws.TokenShapes | include/driver/cli.hpp:132-246 | Which branch a token takes, by its first characters and length |
| CliLaws.HelpIsCollected | include/driver/cli.hpp:210-219 | Over a whole command line help is asked for exactly when one of the collected tokens is one of the four requests |

## Left out

- TypeRegistry: registration, structural types, methods, attributes and reference kinds; the model keeps alias chains, base classes and function signatures, and takes aliases to be registered after their targets, as `registerType` does. Built-in aliases are represented by user aliases.
- BaseSearch.SearchBases: is about searches that end; where they do not (the exact cases are those of BaseSearch.SearchEndsIff) the source's loop returns nothing that could be described.
- OverloadSuffix.OverloadCppSuffix: takes the full parameter type names as given; how a full name is composed is not modelled.
- Argument collection for calls and the diagnostics drawn from a resolution.
- LruCache.Cache.Insert: requires a capacity of at least 1; with less, `insert` takes the front of an empty list, which is undefined in the source.
- LineIndex.BuildIndex: offsets and line numbers are unbounded numbers where the source stores 32-bit ones; source texts are limited to 22-bit offsets, so nothing wraps.
- The second cache of the source map (line to location) works as the first one and is not repeated.
- Arithmetic on locations, macro and range maps, serialisation and reading of source maps.
- FrameEpoch.Epochs.Mutate: epochs are unbounded where the source counts in 64 bits.
- Dependents.UseRightIff: which values carry a borrow, and of which root source, is given by the steps; the attributes and the chain of sources they are drawn from are not modelled.
- The other rules for references and borrows, reference cycles, definite assignment.
- IntLiteral.FitsSignedIsRange: widths run from 1 to 64; a width of 0 (generic integer types) shifts by 64 in the source, which is undefined.
- Parsing of prefixed (hexadecimal, octal) literals.
- Promotion.ShapeFreeIff: excludes float widths other than 16, 32 and 64, which no built-in type has.
- SmtCompare.ExportRightIff: both operands are distinct atoms; terms built from arithmetic operators, and conjunctions, quantifiers and arrays are not modelled.
- SmtCompare.LiteralRightIff: compares at the sort of the left operand; in a postcondition the sort of the function's result can take its place.
- Cli.ParseDriverArgs: the callback is a function of the calls made so far; help texts and the extraction of the server subcommand are left out.
- Name tables, formatting, transpilation, the language server, debugger and playground, pipeline and files, generators and iterators.
