# pleno-dlp: verification of the scanning core

Dafny models of the parts of pleno-dlp where a fast, windowed, streaming or concurrent form has to agree with a
simple meaning, and proofs that it does.

- **Keyword matcher** (`Ac*.dfy`): the Aho-Corasick trie, the breadth-first dense automaton and its walkers against
  "every occurrence of every pattern".
- **Stream match cache** (`StreamSearch`, `StreamIndex`, `StreamPairs`, `StreamCache`, `StreamScan`): four routes to the
  first offset and newline count of a reported secret, all equal to a search of the whole input.
- **Windows and dispatch** (`Windows`, `Dispatch`): which slices of which windows each detector is run on.
- **Decoders** (`DecodeSpec`, `DecodeBuffered`, `DecodeRuns`, `DecodeStream`, `DecodeRoundTrip`, `DecodeFound`,
  `DecodeEscapes`, `Utf8Reader`): the buffered and the streaming decoders against one specification of base64, hexadecimal, percent,
  UTF-16 and unicode-escape decoding, and encoded text found in the variants of an input.
- **Ordered lifecycle** (`Lifecycle`): scheduler, producers and emitter as one state machine, over every interleaving.
- **Verification cache** (`VerificationCache`), **archive walk** (`ArchivePreflight`, `ArchiveWalk`), **reader scanners**
  (`ReaderScan`), **token refresh** (`TokenProvider`) and **state retention** (`StateRetention`).

`dafny verify dfyconfig.toml` checks the whole project.

## Conventions

- A byte is an integer from 0 to 255 and a byte string a sequence of them. A replayable reader is a fixed byte string.
- Faults are an input: where `faults` is true, any read may fail and any call be cancelled at any point; where it is false,
  nothing fails. Inside a buffered reader errors persist: from some offset on every read fails. Likewise other calls interfere
  with the verification cache only where `others` is true.
- A callback (visited hits, runs, variants, lines, leaves) becomes the list of its calls, in order.
- The iteration order of a map is any order. Detector output and downstream answers are arbitrary inputs or choices.
- The printable threshold is the floor of four fifths of the length, and the UTF-16 threshold three quarters of the units,
  in place of floating-point products.
- SHA-256 keys are kept as their inputs: equal hashes stand for equal inputs.
- Code that changes a structure step by step is a class or a method with loops, proved against functions on values; the
  concurrent protocols are state machines whose runs are arbitrary sequences of enabled steps.

## Where the code and an expected law differ

- The line gate of `pkg/detectors/reader.go` adds up counts over the pieces of a line, which it cuts wherever its 32 KiB buffer
  is full. That gives the right lines, for all data and bounds, exactly when the needle has no border (no proper prefix that is
  also a suffix): `ReaderScan.SumsRightExactly` for the count of a line, `ReaderScan.GateExactly` for the visited lines.
  `ReaderScan.BorderedDoubles` gives the failing line of every bordered needle.
- State retention measures age from a time recorded in whole seconds. `StateRetention.EarlyDrop` reaches an entry that is dropped
  before the full age has passed since it was first missed; `StateRetention.AgeRespectedExactly` says that this cannot happen
  exactly when the first miss was at a whole second.
- An observed repository that has an entry can lose it within a run: when another observed repository carries the entry's stable
  name, because it was renamed away from that key, and its own key is free in its turn, the entry goes with it
  (`StateRetention.NameTaken`). With unique stable names `StateRetention.OwnEntryStaysExactly` says exactly when an entry stays,
  and `StateRetention.NameFollowsExactly` where it goes; in either case the checkpoint of an observed key is kept under an observed
  key (`StateRetention.ObservedSurvives`).
- Stable names do not stay unique: `StateRetention.Namesakes` reaches two entries with one name, and `StateRetention.OrderDecides`
  shows that the order of the map then decides whose checkpoint a renamed repository gets.

## Model

| member | source | states |
|---|---|---|
| `AcSpec.AllHitsExact` | pkg/ahocorasick/ahocorasick.go:117-134 | the reference hit list holds exactly the pairs (nonempty pattern, end of an occurrence), each once, ordered by end, then longer pattern first, then ascending id |
| `AcSpec.MatchedIds` | pkg/ahocorasick/ahocorasick.go:43-55 | recording hits once per id yields exactly the ids that occur, without duplicates |
| `AcSpec.LongestIsLongest` | pkg/ahocorasick/direct.go:145-182 | the state invariant's target: the longest suffix that is a trie word, at least as long as any other such suffix |
| `AcSpec.LongestStep` | pkg/ahocorasick/direct.go:159-165 | one more byte: the longest suffix after it depends only on the longest suffix before it |
| `AcSpec.SuffixHitsLongest` | pkg/ahocorasick/ahocorasick.go:120-134 | the hits of a suffix are the hits of its longest trie suffix |
| `AcSpec.SuffixHitsNearest` | pkg/ahocorasick/direct.go:173-177 | skipping to the nearest pattern along the dictionary chain loses no hit and changes no order |
| `AcSpec.CommonExact` | pkg/ahocorasick/direct.go:132-143 | a prefix of one string is a prefix of the other exactly up to the common length |
| `AcTrie.CommonPrefix` | pkg/ahocorasick/direct.go:132-143 | returns the common prefix length |
| `AcTrie.SortedOrder` | pkg/ahocorasick/direct.go:33-40 | the ids of the nonempty patterns, sorted by pattern and then by id, none missing or repeated |
| `AcTrie.FreshExactly` | pkg/ahocorasick/direct.go:42-51 | in sorted order, the prefixes a pattern adds beyond its predecessor's common prefix are exactly those no earlier pattern has |
| `AcTrie.TrieWordsExact` | pkg/ahocorasick/direct.go:42-51 | comparing neighbours only yields one node per distinct prefix of the patterns and nothing else |
| `AcTrie.CountStates` | pkg/ahocorasick/direct.go:42-51 | the counting pass returns the number of those nodes |
| `AcTrie.BuildEdges` | pkg/ahocorasick/direct.go:87-115 | the building pass creates the same nodes (the count-mismatch panic is unreachable), one edge per node to its parent prefix, and attaches each pattern id to the node that spells it, in ascending order |
| `AcTrie.SortEdges` | pkg/ahocorasick/direct.go:116-121 | sorts the edges by parent and byte, as a permutation |
| `AcTrie.EdgeRanges` | pkg/ahocorasick/direct.go:122-126 | each node's start and count delimit exactly its edges |
| `AcTrie.RangeOf` | pkg/ahocorasick/direct.go:122-126 | every edge in a node's range starts at that node and every edge of that node lies in the range |
| `AcAutomaton.CompactAlphabet` | pkg/ahocorasick/direct.go:63-85 | bytes of patterns get distinct symbols, all other bytes share one further symbol |
| `AcAutomaton.ShallowVisited` | pkg/ahocorasick/direct.go:153-180 | breadth-first order: every node no deeper than the head has been queued before its children are |
| `AcAutomaton.CopiedMove` | pkg/ahocorasick/direct.go:163-165 | copying the failure row is right wherever the node has no edge: both lead to the longest trie suffix |
| `AcAutomaton.ChildLinks` | pkg/ahocorasick/direct.go:168-179 | a child's failure link is its longest proper trie suffix, and its dictionary link the nearest such suffix that is a pattern |
| `AcAutomaton.Trie.SettledNext` | pkg/ahocorasick/direct.go:159-180 | visiting one queued node keeps rows, failure links and dictionary links right for all visited nodes |
| `AcAutomaton.Trie.AllSettled` | pkg/ahocorasick/direct.go:145-182 | when the queue is exhausted every row and link of the automaton is right |
| `AcAutomaton.Trie.StateHits` | pkg/ahocorasick/ahocorasick.go:122-133 | following dictionary links from a state reports the hits of its word |
| `AcTable.Table.constructor` | pkg/ahocorasick/direct.go:146-151 | the flat transition buffer, narrow or wide by the number of states, starts with every transition at the root |
| `AcTable.Table.Transition` | pkg/ahocorasick/direct.go:184-190 | reads the transition of a state and symbol from the flat buffer |
| `AcTable.Table.SetTransition` | pkg/ahocorasick/direct.go:192-198 | writes one transition; in the narrow table the 16-bit truncation loses nothing because state numbers fit |
| `AcMatcher.Matcher.AddChild` | pkg/ahocorasick/direct.go:168-179 | sets one child's transition, failure and dictionary link and leaves all else alone |
| `AcMatcher.Matcher.VisitNode` | pkg/ahocorasick/direct.go:159-179 | fills one node's row from its failure state, then links its children |
| `AcMatcher.Matcher.BuildDirect` | pkg/ahocorasick/direct.go:145-182 | the breadth-first pass settles every state |
| `AcMatcher.Matcher.constructor` | pkg/ahocorasick/direct.go:17-130 | compiles any pattern list, with empty and duplicate patterns, into a finished automaton |
| `AcMatcher.Matcher.Step` | pkg/ahocorasick/ahocorasick.go:123-124 | one byte moves to the state of the longest suffix read that is a trie word |
| `AcMatcher.Matcher.VisitHits` | pkg/ahocorasick/ahocorasick.go:120-134 | for every pattern list and input the visited hits equal the reference list |
| `AcMatcher.Matcher.MatchInto` | pkg/ahocorasick/ahocorasick.go:64-91 | appends the unseen ids among those with an occurrence, in report order, and marks them |
| `AcMatcher.Matcher.Match` | pkg/ahocorasick/ahocorasick.go:47-55 | returns exactly the ids with an occurrence, each once |
| `StreamSearch.MatchUnique` | pkg/engine/engine.go:106-110 | first offset and newline count of a raw are determined by the input |
| `StreamSearch.FindReaderMatch` | pkg/engine/engine.go:2316-2361 | overlapping block reads give the whole-buffer first offset and newline count, or absent; it fails only where reads may |
| `StreamSearch.FileAll` | pkg/engine/engine.go:2142-2185 | files every wanted raw by first byte, second byte and length under a true common prefix |
| `StreamSearch.ScanBlock` | pkg/engine/engine.go:2211-2279 | one block: raws still unanswered do not occur inside what was read, whatever the map order |
| `StreamSearch.FindReaderMatches` | pkg/engine/engine.go:2135-2299 | the shared pass: on success every wanted raw has its true first match; on failure only true matches were added; earlier values never change; only failing reads or a cancellation make it fail |
| `StreamIndex.OccurrencesMembers` | pkg/engine/engine.go:538-543 | the occurrence list of a prefix holds every occurrence and nothing else |
| `StreamIndex.OccurrencesAscend` | pkg/engine/engine.go:538-543 | it is strictly ascending, so nothing is listed twice |
| `StreamIndex.IndexPosition` | pkg/engine/engine.go:672-719 | one position of the general loop: the pair and the single-byte key are recorded and all other keys need no entry |
| `StreamIndex.IndexBlock` | pkg/engine/engine.go:672-721 | the general loop over a block extends every index exactly to the block's end |
| `StreamIndex.IndexBlockFast` | pkg/engine/engine.go:613-671 | the fast loop for one key establishes the same exact index and newline count |
| `StreamIndex.FastIsGeneral` | pkg/engine/engine.go:613-671 | the fast loop's invariant is the general loop's for a single key |
| `StreamIndex.TotalUnion` | pkg/engine/engine.go:514-534 | position and sample totals over disjoint groups of indexes add up, in any order |
| `StreamIndex.AddPositionCounts` | pkg/engine/engine.go:645-658 | the two budget counters move with the retained positions and sample bytes |
| `StreamIndex.ScanPrefixIndexes` | pkg/engine/engine.go:543-725 | a completed build indexes every occurrence of every requested prefix exactly once, in order, with its newline count, within both budgets; an overrun yields nothing; it is dropped only when one more occurrence than the position budget has room for stands in the input, and fails only where reads may |
| `StreamPairs.MarksComplete` | pkg/engine/engine.go:235-252 | a pair record that is not full names every occurrence seen |
| `StreamPairs.RecordWindow` | pkg/engine/engine.go:213-257 | recording a window that overlaps what was seen extends the record exactly, each position once |
| `StreamPairs.HintIsFirst` | pkg/engine/engine.go:355-390 | if no recorded earlier position is the raw and the record is not full, the hinted occurrence is the first |
| `StreamCache.PrefixNumberInjective` | pkg/engine/engine.go:331-339 | the 17-bit group keys tell prefixes apart, one-byte from two-byte ones too |
| `StreamCache.FirstIndexed` | pkg/engine/engine.go:397-410 | the first indexed position where the raw stands is its first offset, with the indexed newline count |
| `StreamCache.AbsentFromIndex` | pkg/engine/engine.go:1015-1022 | a raw that matches at no indexed position is absent from the input |
| `StreamCache.IndexMatchAt` | pkg/engine/engine.go:414-437 | samples and targeted reads decide exactly whether the raw stands at an indexed position |
| `StreamCache.IndexCandidateAt` | pkg/engine/engine.go:442-475 | returns the input's bytes at an indexed position, or nothing when no raw of that length and prefix can stand there |
| `StreamCache.AnyEarlier` | pkg/engine/engine.go:356-385 | the bounded walk over recorded positions finds no earlier occurrence only if none of them is one |
| `StreamCache.ResolveGroup` | pkg/engine/engine.go:967-1022 | one index walk answers every raw of a group, present or absent, and changes no other value |
| `StreamCache.WalkGroups` | pkg/engine/engine.go:956-1023 | groups in any order: each member ends answered or queued for the shared pass |
| `StreamCache.Classify` | pkg/engine/engine.go:850-878 | every unanswered raw of a batch is filed in its prefix group or the long list, with a usable hint if one was given |
| `StreamCache.CountGroups` | pkg/engine/engine.go:906-921 | adds the number of distinct short raws of the batch to each prefix's running count |
| `StreamCache.StreamMatchCache.ObserveRawWindow` | pkg/engine/engine.go:213-257 | keeps the pair record exact for everything seen so far |
| `StreamCache.StreamMatchCache.BootstrapRawObservation` | pkg/engine/engine.go:298-327 | on success everything before the given end has been observed, and the record is exact |
| `StreamCache.StreamMatchCache.ObserveRawCandidate` | pkg/engine/engine.go:268-296 | observation turns on with the eighth distinct raw; after success with it on, the window is observed; a failed bootstrap clears the record and disables observation for good |
| `StreamCache.StreamMatchCache.PrefixIndexes` | pkg/engine/engine.go:492-536 | returns exact indexes of the whole input, keeps earlier ones, stays within 2^20 positions and 8 MiB of samples over all builds, and changes nothing on an error; an overrun marks the missing prefixes and leaves indexes and counters alone |
| `StreamCache.StreamMatchCache.PrefixLookup` | pkg/engine/engine.go:345-412 | an answer from a hint or an index is the true first match |
| `StreamCache.StreamMatchCache.Match` | pkg/engine/engine.go:788-808 | the answer, by whichever route, is the true first match and is remembered; nothing else changes; it fails only where reads may |
| `StreamCache.StreamMatchCache.LookUpSmallGroups` | pkg/engine/engine.go:879-899 | small groups in any order: answered from hints or queued; groups that reach 64 raws over all batches, or already have an index, are kept untouched |
| `StreamCache.StreamMatchCache.ResolveIndexGroups` | pkg/engine/engine.go:947-1025 | dense groups end answered or queued for the shared pass |
| `StreamCache.StreamMatchCache.Resolve` | pkg/engine/engine.go:837-928 | on success every nonempty raw of the batch has its true first match; answers are never changed or lost, and what a failure leaves behind is true; it fails only where reads may |
| `StreamScan.EmitResult` | pkg/engine/engine.go:1890-1909 | hints taken from a window are true occurrences inside what has been observed |
| `StreamScan.ScanRawVariant` | pkg/engine/engine.go:1548-1616 | from any waiting findings of full-chunk detectors and for any detector output, the windows meet the overlap and hint obligations of the cache, and where nothing fails whatever is reported for any window is placed or waits |
| `StreamScan.ScanInput` | pkg/engine/engine.go:1548-1577 | over a whole scan of full-chunk findings, window findings, batches and single lookups every cached value is the true one, and where nothing fails every reported raw has one |
| `StreamScan.AnswersAgree` | pkg/engine/engine.go:788-808 | two scans agree on every raw both have placed, whatever routes they took |
| `Windows.SomeWindowHolds` | pkg/engine/engine.go:1491-1505 | whatever is no longer than the overlap lies inside some window |
| `Windows.WindowsRegular` | pkg/engine/engine.go:1491-1505 | windows start a step apart, are at most 32 KiB long, and only the last is shorter |
| `Windows.BufferedWindows` | pkg/engine/engine.go:1739-1760 | the buffered path dispatches exactly the window list |
| `Windows.ReaderWindows` | pkg/engine/engine.go:1583-1616 | the reader path dispatches the same windows, each with its true offset and newline base |
| `Windows.LowerCase` | pkg/engine/engine.go:2530-2543 | lower-cases ASCII letters byte by byte |
| `Windows.LowerExactly` | pkg/engine/engine.go:2530-2543 | two strings have the same lower case exactly when they differ at most in the case of ASCII letters |
| `Windows.SpansSeparated` | pkg/engine/engine.go:1825-1834 | merging hits as they arrive gives sorted, disjoint, non-touching spans inside the window |
| `Windows.SpansCover` | pkg/engine/engine.go:1811-1834 | their union is exactly the union of the clipped vicinities |
| `Dispatch.BuildPrefilter` | pkg/engine/engine.go:1173-1205 | collects distinct nonempty lower-cased keywords and the detectors that list them |
| `Dispatch.PrefilterExact` | pkg/engine/engine.go:1173-1205 | a detector owns a pattern exactly when it lists a keyword with that lower case, and no keyword is missing |
| `Dispatch.DispatchAt` | pkg/engine/engine.go:1789-1849 | each non-full-chunk detector runs, in detector order, on separated slices that cover exactly the bytes within 2048 of the end of one of its keywords, letter case aside |
| `Dispatch.KeywordReachesWindow` | pkg/engine/engine.go:1491-1505 | a stretch no longer than the overlap that holds a keyword lies in some window, and the keyword is a hit there |
| `Dispatch.KeywordNear` | pkg/engine/engine.go:1789-1849 | every byte of such a stretch is near the keyword in that window, for each detector that lists it |
| `Dispatch.OneRunCovers` | pkg/engine/engine.go:1825-1849 | a stretch that the runs of one detector cover byte by byte lies inside one of these runs |
| `Dispatch.KeywordSeen` | pkg/engine/engine.go:1491-1505 | in some window one run of the detector holds the whole stretch, so no secret up to the overlap is lost at a boundary |
| `Dispatch.ScanVariant` | pkg/engine/engine.go:1739-1849 | end to end, from the keyword lists through prefilter, matcher and windows, buffered or streamed: whatever is no longer than the overlap and holds a keyword of a detector that does not want the full chunk, equal up to the case of ASCII letters, lies wholly inside one slice that detector is run on; it fails only where reads may |
| `DecodeSpec.PrintableExactly` | pkg/decoder/decoder.go:542-563 | printable are the visible ASCII characters, blank, tab and the line ends |
| `DecodeSpec.ThresholdExactly` | pkg/decoder/decoder.go:542-563 | mostly printable means nonempty with at least four fifths printable bytes, rounded down |
| `DecodeSpec.BudgetMonotone` | pkg/decoder/decoder.go:542-563 | more bytes never tolerate fewer unprintable ones |
| `DecodeBuffered.CheckPrintable` | pkg/decoder/decoder.go:542-563 | the short-circuiting count decides exactly whether at most the tolerated number of bytes is unprintable |
| `DecodeBuffered.HasPercentEscapePair` | pkg/decoder/decoder.go:133-151 | true exactly when two adjacent percent escapes stand somewhere |
| `DecodeBuffered.HasUnicodeEscapePair` | pkg/decoder/decoder.go:153-173 | true exactly when two adjacent unicode escapes stand somewhere |
| `DecodeBuffered.PercentLength` | pkg/decoder/decoder.go:452-473 | decoding shortens the data exactly when it holds an escape |
| `DecodeBuffered.DecodePercentCandidate` | pkg/decoder/decoder.go:452-473 | returns the decoded form exactly when there is an escape and the form is mostly printable |
| `DecodeBuffered.DecodeUnicodeEscape` | pkg/decoder/decoder.go:65-100 | returns the decoded form, surrogate pairs combined and lone ones replaced, exactly when there is an escape and the form is mostly printable |
| `DecodeBuffered.SniffUtf16` | pkg/decoder/decoder.go:200-241 | byte order mark first, then three quarters NULs at odd or even offsets of the first 128 bytes |
| `DecodeBuffered.DecodeUtf16` | pkg/decoder/decoder.go:255-307 | stripping the mark and a trailing odd byte changes nothing: the result is the transcoding of all characters |
| `DecodeRuns.WalkBase64Runs` | pkg/decoder/decoder.go:377-410 | reports exactly the maximal runs of at least 32 signs, with up to two padding signs and the alphabet of the last telling sign |
| `DecodeRuns.WalkHexRuns` | pkg/decoder/decoder.go:513-531 | reports exactly the maximal runs of at least 40 digits |
| `DecodeRuns.FallbackNeverHelps` | pkg/decoder/decoder.go:412-436 | where the guessed encoding fails or gives nothing, so does the complementary one |
| `DecodeRuns.DecodeBase64Into` | pkg/decoder/decoder.go:412-436 | succeeds exactly when the guessed encoding decodes to something, and never touches bytes before its room |
| `DecodeRuns.AppendRun` | pkg/decoder/decoder.go:316-353 | a rejected run leaves earlier output intact, an accepted one is appended after a newline, and moving to owned storage changes nothing |
| `DecodeRuns.DecodeBase64WithScratch` | pkg/decoder/decoder.go:312-358 | the newline-join of the accepted runs' decodings, whatever the scratch holds and however large it is |
| `DecodeRuns.DecodeHexRuns` | pkg/decoder/decoder.go:489-509 | the newline-join of the accepted hexadecimal runs' decodings |
| `DecodeStream.Variants` | pkg/decoder/decoder.go:36-59 | the buffered variants are the specified list |
| `DecodeStream.StreamEligible` | pkg/decoder/stream.go:167-184 | the eligibility gate sees pairs across read boundaries: true exactly when one stands anywhere and it fails only where reads may |
| `DecodeStream.SniffPrefix` | pkg/decoder/stream.go:152-166 | the first 128 bytes decide about UTF-16 as the whole input does |
| `DecodeStream.TransformPercent` | pkg/decoder/stream.go:187-212 | peeking and discarding decodes to the same bytes as the buffered loop; it fails exactly when reads fail from some point of the data on, although the second look ahead ignores the error |
| `DecodeStream.TransformUnicode` | pkg/decoder/stream.go:213-232 | the same for unicode escapes and escaped surrogate pairs |
| `DecodeStream.TransformUtf16` | pkg/decoder/stream.go:233-252 | the same for UTF-16, lone surrogates and a trailing odd byte included |
| `DecodeStream.EarlyStopSafe` | pkg/decoder/stream.go:320-341 | the streaming early abort never rejects a run that the full count accepts |
| `DecodeStream.CountDecoded` | pkg/decoder/stream.go:407-418 | counts the decoding chunk by chunk and stops once the budget is exceeded |
| `DecodeStream.FlushRun` | pkg/decoder/stream.go:284-362 | the two-pass run decoding appends exactly what the buffered form does |
| `DecodeStream.DecodeStreamRuns` | pkg/decoder/stream.go:272-405 | runs across 64 KiB blocks give the same lines as the buffered form |
| `DecodeStream.WalkDecoded` | pkg/decoder/stream.go:125-149 | each decoder visits what the specified list has for it |
| `DecodeStream.WalkVariants` | pkg/decoder/stream.go:18-37 | visits exactly the variants the buffered form returns, in the same order; a failure, which only a failing read or a cancellation causes, cuts the list short |
| `DecodeRoundTrip.Base64RoundTrip` | pkg/decoder/decoder.go:412-450 | the decoding used undoes base64 encoding under all four encodings |
| `DecodeRoundTrip.HexRoundTrip` | pkg/decoder/decoder.go:489-509 | the decoding used undoes hexadecimal encoding in either letter case |
| `Utf8Reader.EncodedReads` | pkg/decoder/decoder.go:65-100 | a reader of UTF-8 that does not know the encoder (lead bytes, continuation bytes, shortest form, no surrogates) reads every encoded number back, and a surrogate as the replacement character, whatever stands around it |
| `Utf8Reader.ReadsEncoded` | pkg/decoder/decoder.go:65-100 | and what it reads as a character is that character's encoding, so there is no other form |
| `DecodeRoundTrip.TranscodedReads` | pkg/decoder/decoder.go:255-307 | whatever the input bytes, their transcoding is well-formed UTF-8 that reads as their characters: pairs combined, lone surrogates replaced, byte order marks dropped |
| `DecodeRoundTrip.Utf16RoundTrip` | pkg/decoder/decoder.go:255-307 | transcoding the UTF-16 form of any text, in either byte order, gives its UTF-8 form, which reads back as the text |
| `DecodeRoundTrip.AlphabetsExactly` | pkg/decoder/decoder.go:118-127 | the signs of each alphabet are those that stand for some six bits, and run signs those of either |
| `DecodeFound.RunFound` | pkg/decoder/decoder.go:312-358 | every maximal run that is long enough and decodes to mostly printable bytes has them in a variant of the input |
| `DecodeFound.HexFound` | pkg/decoder/decoder.go:489-531 | twenty or more mostly printable bytes in hexadecimal, in either letter case and anywhere in the input, are found |
| `DecodeFound.GuessDecodes` | pkg/decoder/decoder.go:377-450 | the alphabet guessed from the last telling sign decodes what either alphabet encoded |
| `DecodeFound.Base64Found` | pkg/decoder/decoder.go:312-450 | twenty-four or more mostly printable bytes in base64, in either alphabet, padded or not and anywhere in the input, are found |
| `DecodeFound.AsciiSniffed` | pkg/decoder/decoder.go:200-241 | ASCII text of at least four characters is recognised in either byte order without a byte order mark |
| `DecodeFound.PlainSniffed` | pkg/decoder/decoder.go:200-241 | bytes without a NUL are taken for UTF-16 exactly when a byte order mark leads four or more of them |
| `DecodeFound.Utf16Found` | pkg/decoder/decoder.go:255-307 | printable text of at least four characters in UTF-16, in either byte order, is found as it is |
| `DecodeEscapes.PercentRoundTrip` | pkg/decoder/decoder.go:452-473 | decoding undoes percent encoding, whichever bytes were escaped, in either letter case, with plus signs for blanks |
| `DecodeEscapes.PercentFound` | pkg/decoder/decoder.go:452-473 | percent-encoded text anywhere in an input is found, when the input has two adjacent escapes and decodes to mostly printable bytes and no percent sign stands within two bytes before the text |
| `DecodeEscapes.PercentTextFound` | pkg/decoder/decoder.go:133-151 | a mostly printable text of which two bytes in a row are escaped is found when it is the whole input |
| `DecodeEscapes.EscapeReads` | pkg/decoder/decoder.go:65-100 | whatever stands around it, an escape decodes to UTF-8 that reads as its number, as the pair it begins, or as the replacement character |
| `DecodeEscapes.UnicodeRoundTrip` | pkg/decoder/decoder.go:65-100 | decoding undoes unicode escapes of any characters, surrogate pairs included, in either letter case and between plain bytes: the decoded bytes read back as the text |
| `DecodeEscapes.UnicodeFound` | pkg/decoder/decoder.go:65-100 | unicode-escaped text anywhere in an input is found, when the input has two adjacent escapes and decodes to mostly printable bytes and no backslash stands within eleven bytes before the text |
| `DecodeEscapes.UnicodeTextFound` | pkg/decoder/decoder.go:153-173 | a mostly printable text of which two characters in a row, or one beyond the basic plane, are escaped is found when it is the whole input |
| `DecodeEscapes.PercentPairExactly` | pkg/decoder/decoder.go:133-151 | the gate is two percent signs three bytes apart, each with two hexadecimal digits |
| `DecodeEscapes.UnicodePairExactly` | pkg/decoder/decoder.go:153-173 | the gate is two escapes six bytes apart, each a backslash, the letter u and four hexadecimal digits |
| `Lifecycle.Start` | pkg/connectors/github_lifecycle.go:203-238 | nothing to run without units, an error without positive concurrency, otherwise a window clamped to the number of units |
| `Lifecycle.StepKeeps` | pkg/connectors/github_lifecycle.go:44-284 | every step of emitter, producers, scheduler and cancellation keeps the composed invariant |
| `Lifecycle.RunKeeps` | pkg/connectors/github_lifecycle.go:196-284 | the invariant holds in every state of every interleaving |
| `Lifecycle.NeverPanics` | pkg/connectors/github_lifecycle.go:93-131 | no interleaving sends into a closed channel or closes one twice |
| `Lifecycle.StepGrows` | pkg/connectors/github_lifecycle.go:63-79 | output and commits only grow, and after the first downstream error nothing more is delivered |
| `Lifecycle.RunGrows` | pkg/connectors/github_lifecycle.go:63-79 | the same over whole runs |
| `Lifecycle.OutputInOrder` | pkg/connectors/github_lifecycle.go:52-88 | downstream sees units in order and items of a unit in sending order, each at most once: exactly the items of finished units and the leading ones of the current unit |
| `Lifecycle.NilAckDelivered` | pkg/connectors/github_lifecycle.go:93-112 | a nil acknowledgement means the item was delivered |
| `Lifecycle.WindowBounded` | pkg/connectors/github_lifecycle.go:232-279 | commits form a gap-free prefix with the producers' own results, the next unit is in flight or pending, and window, pending map, result channel and recorded peak stay within the concurrency |
| `Lifecycle.QueueHasRoom` | pkg/connectors/github_lifecycle.go:220-230 | a running producer always finds room for its result |
| `Lifecycle.Progress` | pkg/connectors/github_gist.go:184-283 | until the scheduler finishes or fails, and without an outside cancellation, some step is enabled |
| `Lifecycle.RunsEnd` | pkg/connectors/github_gist.go:184-283 | a run is no longer than a bound fixed at its start plus a constant for each item sent |
| `Lifecycle.MaximalRunEnds` | pkg/connectors/github_lifecycle.go:232-284 | a run that went on as long as it could, cancelled from outside or not, ends with the scheduler finished or failed, within that bound |
| `Lifecycle.RunCalm` | pkg/connectors/github_lifecycle.go:63-284 | in a run without outside cancellation, downstream error and failing commit no state is failed, the emitter never stops, no producer gives up and every acknowledgement is nil |
| `Lifecycle.FailureHasCause` | pkg/connectors/github_lifecycle.go:63-284 | a failed phase or a stopped emitter implies that one of these three happened before |
| `Lifecycle.SmoothRunSucceeds` | pkg/connectors/github_lifecycle.go:232-284 | a run without the three that went on as long as it could has finished: every unit committed with its producer's result, everything sent delivered in order |
| `Lifecycle.CanSucceed` | pkg/connectors/github_lifecycle.go:232-284 | as long as none of the three has happened, some continuation without them and without another item finishes with every unit committed |
| `Lifecycle.AckGiven` | pkg/connectors/github_lifecycle.go:63-112 | a waiting producer is given the outcome of the downstream call |
| `Lifecycle.SentExactly` | pkg/connectors/github_lifecycle.go:93-112 | what a unit has sent is the number of its send steps in the run |
| `Lifecycle.CommittedReturned` | pkg/connectors/github_lifecycle.go:220-260 | the result committed for a unit is the one its producer returned |
| `Lifecycle.FinishedWithoutTrouble` | pkg/connectors/github_lifecycle.go:243-284 | a finished run met no downstream error and no failing commit |
| `Lifecycle.WindowFull` | pkg/connectors/github_lifecycle.go:273-279 | whenever the scheduler waits for results, the window is full or holds all remaining units |
| `Lifecycle.PeakExact` | pkg/connectors/github_lifecycle.go:249-252 | the recorded peak is the most results that were pending in any state of the run |
| `Lifecycle.CanComplete` | pkg/connectors/github_lifecycle.go:232-284 | from every reachable state that was not cancelled from outside, some continuation without another item finishes or fails |
| `Lifecycle.FoldedExact` | pkg/connectors/github_lifecycle.go:260-269 | completed plus failed is the number of results, and costs and skip counts are their sums |
| `Lifecycle.SuccessComplete` | pkg/connectors/github_lifecycle.go:243-284 | on success every unit is committed, the totals add up, and everything any unit sent was delivered in order |
| `VerificationCache.Ring.Get` | pkg/engine/verification_cache.go:56-64 | a served verdict is the one last recorded for its key since the last clear |
| `VerificationCache.Ring.Put` | pkg/engine/verification_cache.go:77-91 | the overwriting ring behaves as a first-in first-out queue of its capacity |
| `VerificationCache.Ring.SetAll` | pkg/engine/verification_cache.go:70-93 | stores verdicts in order and counts the evictions |
| `VerificationCache.Ring.Clear` | pkg/engine/verification_cache.go:95-104 | empties the ring and what it may serve |
| `VerificationCache.RingStep` | pkg/engine/verification_cache.go:84-89 | overwriting the oldest slot drops the queue's head and appends at its tail |
| `VerificationCache.NoMatch` | pkg/engine/verification_cache.go:269-283 | greedy first-match search never misses: without a match the passes differ or a verification failed |
| `VerificationCache.CacheableEntries` | pkg/engine/verification_cache.go:257-298 | entries come back exactly when the nonempty passes are equal as multisets up to verdict, no verification failed, every result has a key and equal keys have equal verdicts; one entry per key, each a verdict of the pass |
| `VerificationCache.CandidateKeys` | pkg/engine/verification_cache.go:213-223 | a key for each candidate exactly when every candidate has one and carries no verdict yet |
| `VerificationCache.ApplyCached` | pkg/engine/verification_cache.go:225-247 | sets the provider's verdict on all candidates or changes none, whatever other calls do between lookups |
| `VerificationCache.Fly` | pkg/engine/verification_cache.go:181-198 | the flight owner returns a verified pass; without interference it uses the cache exactly when all keys are cached, and afterwards all are if the pass may be cached and they fit into the ring |
| `VerificationCache.FromData` | pkg/engine/verification_cache.go:148-211 | without verification, or for a detector that has none, the candidates come back as they are; otherwise, on every path (bypass, hit, owner, waiter), the results are such as the direct verified call returns, with at most one such call, and the cache stays sound under interference; without interference no call is made when all verdicts are cached, and all are cached after a pass that may be; only faults make it fail |
| `VerificationCache.PushAllFits` | pkg/engine/verification_cache.go:70-93 | stored keys stay as long as nothing has to be pushed out |
| `VerificationCache.KeysAgree` | pkg/engine/verification_cache.go:106-123 | keys agree exactly for the same detector, input and secrets, and only a result without secret bytes has none |
| `VerificationCache.InputsAgree` | pkg/engine/verification_cache.go:160-163 | the data counts exactly for detectors whose verification depends on it |
| `ArchivePreflight.OverflowTestExact` | pkg/archive/archive.go:689-692 | the test before the multiplication detects exactly the 64-bit overflows |
| `ArchivePreflight.ParseBase256` | pkg/archive/archive.go:680-698 | accepts exactly the values in the signed 64-bit range and returns them |
| `ArchivePreflight.ParseTarSize` | pkg/archive/archive.go:676-708 | returns the size a field means, or an error exactly when it means none in range |
| `ArchivePreflight.OctalField` | pkg/archive/archive.go:699-707 | a size written in octal digits, padded with blanks and NULs on either side, is read as that size |
| `ArchivePreflight.Base256Field` | pkg/archive/archive.go:680-698 | a size written in base 256 with the marker bit is read as that size |
| `ArchivePreflight.MetadataExactly` | pkg/archive/archive.go:655-663 | metadata are extended headers of either scope and GNU long names and links |
| `ArchivePreflight.PreflightTar` | pkg/archive/archive.go:617-674 | where no read fails, exactly the archives with physical records up to the first zero block or the end, within header and metadata limits, are counted, with no 64-bit overflow on the way; over the limit only when a record too many or too much metadata follows |
| `ArchivePreflight.TarCountUnique` | pkg/archive/archive.go:617-674 | that count is determined by the archive's bytes |
| `ArchivePreflight.CountZipDirectory` | pkg/archive/archive.go:998-1035 | where no read fails, the count succeeds exactly when records within the header limit tile the directory range, and returns their number |
| `ArchivePreflight.DirectoryRecordReads` | pkg/archive/archive.go:1013-1032 | a record is as long as its fixed part and the three lengths its header gives, low byte first |
| `ArchivePreflight.ZipCountUnique` | pkg/archive/archive.go:998-1035 | that number is determined by the archive's bytes |
| `ArchivePreflight.Preflight` | pkg/archive/archive.go:900-959 | on success the count is the number of physical records of the archive, TAR or ZIP, within the limit, a ZIP must declare as many; where no read fails every archive within the limits is counted |
| `ArchivePreflight.CountUnique` | pkg/archive/archive.go:605-674 | an archive has one number of physical records |
| `ArchiveWalk.WalkState.Partial` | pkg/archive/archive.go:238-242 | retains at most 32 errors |
| `ArchiveWalk.WalkState.Stop` | pkg/archive/archive.go:244-250 | sets the terminal flag, with one retained error the first time |
| `ArchiveWalk.WalkState.RejectBudget` | pkg/archive/archive.go:252-260 | after 32 rejections the walk is terminal |
| `ArchiveWalk.WalkState.SpoolFromReader` | pkg/archive/archive.go:746-787 | a spool is opened before the body is copied and closed again on every path but success; it is handed over exactly when the body has the declared size, keeps the limit and is sound |
| `ArchiveWalk.WalkState.ExpandedSpool` | pkg/archive/archive.go:341-372 | a body is accepted exactly when its declared and true sizes fit both limits and agree and the stream is sound; it is then charged to the expansion budget, and a rejected one is reported and leaves nothing open |
| `ArchiveWalk.WalkState.EmitEntry` | pkg/archive/archive.go:291-298 | visits a leaf only within the file limit |
| `ArchiveWalk.WalkState.Walk` | pkg/archive/archive.go:262-289 | recursion ends by depth even for self-containing archives; budgets hold, every spool opened is closed once, nothing is visited once terminal, unless something is reported exactly the leaves of the value are visited, and nothing is reported where nothing fails, is unsound or exceeds a budget |
| `ArchiveWalk.WalkState.ChargeHeaders` | pkg/archive/archive.go:374-385 | charges exactly the physical records of the archive to the header budget of the whole walk, or nothing when the preflight fails or exceeds it |
| `ArchiveWalk.WalkState.OpenArchive` | pkg/archive/archive.go:374-396 | a preflight over a limit stops the walk, an unreadable archive or a ZIP that lists another number of members than its directory fails, and every archive within the limits is opened |
| `ArchiveWalk.WalkState.WalkMembers` | pkg/archive/archive.go:374-534 | the same for ZIP and TAR members, with headers within 10000 over the whole walk |
| `ArchiveWalk.WalkState.WalkCompressed` | pkg/archive/archive.go:536-603 | the same for gzip and bzip2 bodies |
| `ArchiveWalk.WalkRoot` | pkg/archive/archive.go:194-208 | over the whole walk visited bytes stay within expanded bytes, those within their limit, and files, headers and errors within theirs; without an error every leaf down to the depth limit was visited, in order, so no coverage is lost silently; and where nothing fails, everything nested is sound and within depth, and the budgets suffice, every leaf is visited without an error, and bytes and headers are charged exactly; a plain root is not visited |
| `ReaderScan.FindReaderBytes` | pkg/detectors/reader.go:237-282 | the first occurrence at or after the offset despite bounded reads, or none; it fails only where reads may |
| `ReaderScan.NoOverlap` | pkg/detectors/reader.go:84-84 | occurrences of a borderless needle do not overlap |
| `ReaderScan.SumsRightExactly` | pkg/detectors/reader.go:66-112 | the scanner's count, summed over the 32 KiB pieces of a line, is the count of the whole line for every line exactly for needles without a border |
| `ReaderScan.BorderedDoubles` | pkg/detectors/reader.go:74-95 | for every bordered needle a line that holds it once and is counted at least twice: filler, the needle up to a full buffer, then the rest that overlaps it |
| `ReaderScan.NextFragment` | pkg/detectors/reader.go:115-118 | a fragment ends behind a newline, at the end of the data or with a full buffer, and has no newline before that |
| `ReaderScan.ForEachReaderLine` | pkg/detectors/reader.go:46-143 | visits, once and in order, exactly the lines whose summed count (for a borderless needle the whole count) is at least the minimum and at most the maximum, unless that is zero; fails only on invalid requirements or failing reads |
| `ReaderScan.NoUpperBound` | pkg/detectors/reader.go:99-99 | with maximum zero every line with at least the minimum of needles is visited |
| `ReaderScan.GateExactly` | pkg/detectors/reader.go:66-143 | the visited lines are those whose whole count is within bounds, for all data and all bounds, exactly for needles without a border |
| `TokenProvider.StepKeeps` | pkg/connectors/github.go:939-977 | every step of every caller keeps the protocol's invariant |
| `TokenProvider.OneRequest` | pkg/connectors/github.go:939-977 | in every interleaving at most one request is outstanding, a refresh is under way exactly while one is and never beside a usable token, and cached returns lie outside the skew |
| `TokenProvider.OneTakesOver` | pkg/connectors/github.go:939-960 | with no refresh under way and no usable token, until a fetch ends the token stays and exactly one refresh starts if any caller locks, none otherwise, in every interleaving |
| `TokenProvider.FailureHandsOver` | pkg/connectors/github.go:949-977 | after a failed fetch, in every interleaving until the next fetch ends, the cached token is untouched, exactly one caller fetches once anyone has locked, and nobody before |
| `TokenProvider.NoLostWaiter` | pkg/connectors/github.go:947-957 | every waiter can be woken, and then takes the lock again: its refresh is closed or its owner can still finish it |
| `TokenProvider.TokenServes` | pkg/connectors/github.go:942-976 | a fetched token is returned to its owner and, however long the run, to every caller that locks before the skew of its expiry; none of these starts a refresh |
| `TokenProvider.TokensFetched` | pkg/connectors/github.go:961-976 | in every interleaving a token given to a caller is one that some fetch returned |
| `StateRetention.Sweep` | pkg/connectors/github_state_v3.go:77-106 | whatever the map order, each entry is swept once, and entries before are entries after plus pruned |
| `StateRetention.NamesAgree` | pkg/connectors/github_state_v3.go:109-114 | repositories share a stable name when they have the same id or, both without one, the same key |
| `StateRetention.ObservedLast` | pkg/connectors/github_state_v3.go:53-56 | of repositories with one key the last is the observed one |
| `StateRetention.MoveRenamed` | pkg/connectors/github_state_v3.go:62-75 | moves one entry with the repository's stable name to its new key, with its record, if the key has none and such an entry exists; nothing is lost |
| `StateRetention.PreparedHistory` | pkg/connectors/github_state_v3.go:38-108 | a run keeps counter and time of every entry equal to what the whole log tells: the same-scope runs that missed it since it was last observed |
| `StateRetention.CommittedHistory` | pkg/connectors/github_history.go:549-570 | so does the commit of a repository of the last run |
| `StateRetention.DroppedExactly` | pkg/connectors/github_state_v3.go:90-104 | over any log of runs and commits: an entry that no repository of the run names is dropped exactly when the scope is unchanged, at least the required number of same-scope runs missed it since it was last observed, and the recorded time of the first lies the retention age back |
| `StateRetention.GoneExplained` | pkg/connectors/github_state_v3.go:56-104 | an entry gone from its key after a run is found with its checkpoint under an observed key, or was dropped with exactly that history |
| `StateRetention.GoneExactly` | pkg/connectors/github_state_v3.go:56-104 | with unique stable names, an unobserved key is without its entry after a run exactly when a repository took it along or it was dropped with that history |
| `StateRetention.NothingDropped` | pkg/connectors/github_state_v3.go:90-92 | a change of scope drops nothing |
| `StateRetention.ObservedSurvives` | pkg/connectors/github_state_v3.go:56-89 | a whole run keeps the checkpoint of every entry whose key is observed, or whose stable name, carried by no other entry, is that of an observed repository with a key that is free in its turn, under an observed key and with no missed runs |
| `StateRetention.RenamedFound` | pkg/connectors/github_state_v3.go:62-89 | after a rename the checkpoint is found under the new key, with no missed runs, when no other entry carries the stable name and the new key is free in its turn: it had no entry, or an earlier repository of the run took that entry along |
| `StateRetention.NameFollowsExactly` | pkg/connectors/github_state_v3.go:62-75 | with unique stable names, the entry that carries a repository's name stands under the repository's key after the moves exactly when it stood there before or the key is free in its turn |
| `StateRetention.OrderDecides` | pkg/connectors/github_state_v3.go:66-73 | where two entries carry the name of a repository without an entry, either may move, so the map order decides whose checkpoint it gets |
| `StateRetention.Namesakes` | pkg/connectors/github_state_v3.go:77-89 | runs and commits do reach a state in which two entries carry one stable name |
| `StateRetention.ObservedKeyKept` | pkg/connectors/github_state_v3.go:62-89 | an observed key keeps its own checkpoint when no other observed repository carries its entry's stable name |
| `StateRetention.OwnEntryStaysExactly` | pkg/connectors/github_state_v3.go:62-75 | with unique stable names, an entry stays under its key exactly when no repository of the run takes it along: one with another key that carries its name and whose key is free in its turn, chains of renames and swapped names included |
| `StateRetention.NameTaken` | pkg/connectors/github_state_v3.go:62-75 | when a renamed repository's old name is taken by a new one, the entry goes with the renamed one and the old name, though observed, has none |
| `StateRetention.RetentionState.Prepare` | pkg/connectors/github_state_v3.go:38-108 | one run on both surfaces: conservation, nothing pruned on a scope change, renames first and then the sweep, and the log's meaning kept |
| `StateRetention.RetentionState.Commit` | pkg/connectors/github_history.go:549-570 | writes the entry of one repository of the last run, observed now, on its surface, and keeps the log's meaning |
| `StateRetention.Replay` | pkg/connectors/github_state_v3.go:38-108 | every log of runs and commits of observed repositories is replayed from the empty state, and leads to a state whose entries tell exactly the runs that missed them |
| `StateRetention.EarlyDrop` | pkg/connectors/github_state_v3.go:94-101 | a reachable state whose entry is dropped before the retention age has passed since it was first missed |
| `StateRetention.AgeRespectedExactly` | pkg/connectors/github_state_v3.go:94-101 | drops come no earlier than the full age after the first miss, whenever the run is, exactly when that miss was at a whole second |
| `StateRetention.AgeNearlyRespected` | pkg/connectors/github_state_v3.go:94-101 | they never come a second or more too early |

## Left out

- HTTP connectors, repository cloning, REST pagination and rate limits: calls into services outside this code.
- Compression, the ZIP and TAR parsers and temporary files: an archive is a table of declared and actual contents, and the
  library decoders of base64 and hexadecimal are their decoding rules (on failure they may have written anything into their room).
- Regular expressions, detector implementations and provider verification: arbitrary output, or a function of the cache key.
- Finding output, deduplication, severity, redaction, SARIF and statistics counters other than those named above.
- `preflightZip` and `readZip64End`: locating the end-of-directory record would only add field reads around `CountZipDirectory`.
- ArchiveWalk.WalkState.WalkMembers: ZIP and TAR share one member loop over what the parser would list; the texts of errors are not
  modelled.
- ArchivePreflight.Preflight: what the end record of a ZIP says about its directory is given, because finding it is left out above.
- Dispatch.DispatchAt: detectors that want the full chunk are not run on windows; their own pass appears only as the findings with
  which `StreamScan.ScanRawVariant` starts.
- AcMatcher.Matcher.constructor: pattern ids and state numbers are unbounded integers in the wide table; releasing the failure
  array after the build is not modelled.
- Dispatch.BuildPrefilter: keywords are lower-cased byte by byte as ASCII; Unicode case folding of keywords is not modelled.
- DecodeStream.TransformPercent: a read error that goes away again, which the second look ahead of the three transformations would
  overlook, is outside the model.
- StreamCache.StreamMatchCache.Match: the value returned together with an error is not specified.
- Lifecycle.StepKeeps: the emitter's branch for items taken after an error is not a step of its own, because the emitter stops at
  the first error; waiting for a unit's turn changes no state and is not a step either.
- Lifecycle.RunsEnd: a producer that never returns or sends without bound is outside its scope.
- VerificationCache.FromData: the grouping of flights by key is any choice of owner or waiter; cache statistics are not modelled.
- TokenProvider.OneRequest: signing and fetching a token are one step with an arbitrary outcome.
- StateRetention.RetentionState.Prepare: tombstones, which no later decision reads, are not modelled.
- Wall-clock durations, heartbeats and logging.
