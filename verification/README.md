# A verified model of the wildcard engine

`KmStringPatternMatch` registers patterns with `*` (any run), `?` (any one character) and `|` (escape), and finds
the registered patterns that match a text, with or without ASCII or Unicode case folding, and with wildcards that may
or may not cross the path separator `\`. This project models that engine together with the three containers it is built
on (`KFlatHashMap`, `KStringArena`, `KVector`) and proves that the fast code decides what one small reference matcher
decides, after any sequence of registrations, failed registrations and resets.

The reference is `Globs.Match`: a token list (`Lit`, `Any`, `Star`) against a text, by recursion over every split.
`Language` ties it to the characters of a raw pattern: `Language.Denotes` says what `*`, `?`, `|` and a letter mean, with
the characters written as numbers and without tokens, a parser or a folding function, and `AcceptsIsDenotes` proves that
the reference is exactly that language. Everything else is related to the reference, layer by layer:

- `Characters`, `Bits`, `Flags`, `NarrowLanes`, `WideLanes`, `Blocks`: case folding, and the 64-bit lane arithmetic for 8 lanes of 8 bits and 4 lanes of 16 bits.
  A word holds characters; every trick is proved lane by lane against the character-wise meaning. `NarrowLanes` and
  `WideLanes` are the two instantiations of the template, with the mask constants of each.
- `Globs`, `WildCards`: the reference matcher, the exchange argument, and the non-recursive state machine.
- `Literals`, `Hashing`: block-wise comparison and the incremental prefix hash.
- `Registration`, `Meaning`: the scans of `AddPattern`, and why the compiled parts mean what the raw pattern means.
- `Language`: the pattern language in characters, its case law, its escapes and its scopes.
- `Sizes`, `Groups`, `Tables`, `HashMap`: the open-addressing table, from control bytes to a mathematical map.
- `Vectors`, `Arenas`: the growable vector and the string arena with bookmarks.
- `Registry`, `Index`, `Rejections`, `Candidates`, `Searching`, `Exactness`, `Ordering`: the registered rules as a value,
  the answer a search must give, its order, and the invariant that ties the index to the rules.
- `Storage`, `Engine`: the class itself. The strings of a pattern lie in arena slabs, entries point to them, and a search
  reads them through those pointers.
- `Runs`, `MapRuns`: whole runs of an engine and of a hash map, composed from the contracts of single calls.

The state of the engine is tied to one ghost sequence, `rules`: the successful registrations since the last `Clear`.
`Valid()` is the invariant. It contains `Index.Indexed` (counters, sorted lengths, filter, buckets and slow list are those
of `rules`) and `Storage.Backed` (every pointer of every entry leads to a live block that holds the right string). Each
public method keeps it, so the statements below hold after any run of calls in which allocations fail at arbitrary points;
`Runs.RunAndSearch` and `Runs.RunAndFind` say so in a client's terms only.

What a call reports is exact. `AddPattern`, `Emplace`, `Reserve`, `PushBack`, `Insert` and `Allocate` each equal a
function of the state before the call (`Outcome`, `EmplaceStatus`, `ReserveStatus`, `PushStatus`, `Carves`), written in
numbers: a call fails only for the reason that holds, and asks the pool for nothing it has room for.

Case: two texts, or two patterns, are treated alike when they differ in case at most, and a literal matches no other
text. Differing in case is `Language.SameLetter`: equal, the two cases of one ASCII letter, or, for `WCHAR`s above 127,
the same capital. Letters on both sides of 127 can be the same as well, exactly when the capital of the one above 127 is
that of the other; `AcrossAscii` gives U+0131 and `i` under a table that capitalises U+0131 to `I`.

Two hypotheses stand for foreign code. `Sound(mode)`: `RtlUpcaseUnicodeChar` never yields `*`, `?`, `|` or `\` for a
character above 127. `IsText(mode, s)`: the characters of a `CHAR` string are below 256. Allocation is a parameter: each
call is told whether the pool grants the memory, and nothing is assumed about the answers. The hash function of the map
and the mixing step of the prefix hash are parameters too; the constructor of the engine fixes the latter to `Mix64`.

## Model

| member | source | states |
|---|---|---|
| Runs.RunAndSearch | StringPatternMatch/KmStringPatternMatch.h:742-1215 | end to end: after any run of registrations and resets, with any allocation failing, collect-all reports the payload of each registered pattern that denotes the text, as often as it is registered, and no other; it succeeds exactly when the vector has room for them; and every status of the run is explained |
| Runs.RunAndFind | StringPatternMatch/KmStringPatternMatch.h:742-1165 | end to end for the first match: after any run it finds a pattern exactly when some registered pattern denotes the text, and gives the payload of one that does |
| Runs.Run | StringPatternMatch/KmStringPatternMatch.h:742-1121 | after any run the registered patterns are those of the successful registrations since the last reset, in order, with their payloads; a registration is invalid exactly for a bad argument, over quota whenever 131072 patterns are registered and only after as many attempts since the last reset, and fails otherwise only for refused memory |
| Runs.AnswerPayloads | StringPatternMatch/KmStringPatternMatch.h:1183-1215 | the payloads of an answer are a permutation of the payloads of the matching registrations |
| Engine.KmStringPatternMatch.Search | StringPatternMatch/KmStringPatternMatch.h:1135-1165 | true exactly when some registered pattern matches the text; the context is then the head of the collect-all answer, that of the matching pattern which comes before all others (`Ordering.Before`); a null text with a length gives false |
| Engine.KmStringPatternMatch.SearchAll | StringPatternMatch/KmStringPatternMatch.h:1179-1215 | when the vector can grow, the contexts of all registered patterns that match, each exactly once, and no others; otherwise the prefix of that list that fits and the error; in order; all are stored contexts |
| Ordering.AnswerInOrder | StringPatternMatch/KmStringPatternMatch.h:1696-1815 | the answer lists patterns that begin with a wildcard last, of the others those with fewer leading letters first, and among equals the older first |
| Ordering.HeadIsFirst | StringPatternMatch/KmStringPatternMatch.h:1135-1165 | the head of the answer belongs to the matching pattern that comes before all other matching patterns |
| Ordering.KeyIsLetters | StringPatternMatch/KmStringPatternMatch.h:769-801 | the length a pattern is indexed under is its number of leading letters, an escape pair being one; it goes to the slow path exactly when it begins with `*` or `?` |
| Engine.KmStringPatternMatch.AddPattern | StringPatternMatch/KmStringPatternMatch.h:742-1099 | success adds exactly one rule, for the raw pattern, its scope and a newly stored context; whatever fails, the rules (hence every later answer) and the string arena are as before; the status is exactly `Outcome`: which of the guards, the quotas, the strings, the context block, the length, the hash and the bucket refuses, and that only what needs memory can |
| Engine.KmStringPatternMatch.NothingOverflows | StringPatternMatch/KmStringPatternMatch.h:742-1099 | no vector and no table of an engine is ever so large that a size overflows, and a pattern of admitted length is registered when the pool grants what it needs and the context store is not at its quota |
| Engine.KmStringPatternMatch.Clear | StringPatternMatch/KmStringPatternMatch.h:1105-1121 | the engine is valid, has no rules, its fields are those of a new engine, its arena owns no slab, and its vectors and its table keep their capacity |
| Engine.KmStringPatternMatch.constructor | StringPatternMatch/KmStringPatternMatch.h:721-727 | a new engine is valid and empty |
| Engine.KmStringPatternMatch.SearchInternal | StringPatternMatch/KmStringPatternMatch.h:1624-1816 | hands the collector exactly the answer, in order, until the collector stops: global minimum, length index, binary search, hash, filter and bucket lose and add nothing |
| Engine.KmStringPatternMatch.WalkLengths | StringPatternMatch/KmStringPatternMatch.h:1693-1813 | the walk of the sorted lengths offers every fast-path match of every prefix length, although it visits indexed lengths only and carries its hash from one to the next |
| Engine.KmStringPatternMatch.ProbeLength | StringPatternMatch/KmStringPatternMatch.h:1766-1807 | filter, hash map and bucket together offer exactly the matches with this prefix length |
| Engine.KmStringPatternMatch.ProcessSlowPath | StringPatternMatch/KmStringPatternMatch.h:1544-1609 | offers exactly the matches among patterns that begin with a wildcard |
| Engine.KmStringPatternMatch.Register | StringPatternMatch/KmStringPatternMatch.h:762-1099 | the transaction: bookmark, strings, context, index; either one rule more or rules and arena restored; the status is exact |
| Engine.KmStringPatternMatch.StorePattern | StringPatternMatch/KmStringPatternMatch.h:763-939 | carving a new pattern's strings leaves the engine valid: every registered pattern's strings stay where they are and as they are; it fails exactly when a slab is needed and refused |
| Engine.KmStringPatternMatch.Rollback | StringPatternMatch/KmStringPatternMatch.h:812 | reverting the bookmark restores the arena and reaches no registered string |
| Engine.KmStringPatternMatch.AddEntry | StringPatternMatch/KmStringPatternMatch.h:977-1098 | a complete entry joins the slow list when it begins with a wildcard and a bucket otherwise: one rule more, or the rules stay; the status is exact |
| Engine.KmStringPatternMatch.IndexPattern | StringPatternMatch/KmStringPatternMatch.h:941-1099 | context, then slow list or bucket: on success one rule more with the new context, on failure the same rules, the index still being theirs, and at most this context more; the status is exact |
| Engine.KmStringPatternMatch.CommitContext | StringPatternMatch/KmStringPatternMatch.h:941-950 | a stored context keeps the index, and its number is above that of every live entry; fails exactly at the quota, and for memory exactly where a new block of 512 is due |
| Engine.KmStringPatternMatch.AddSlowEntry | StringPatternMatch/KmStringPatternMatch.h:978-1044 | a pattern that begins with a wildcard joins the slow list and the rules, or the rules stay as they are; it fails exactly when the list is full and memory is refused |
| Engine.KmStringPatternMatch.FindFirstLiteral | StringPatternMatch/KmStringPatternMatch.h:980-1027 | the filter character is the first literal of the suffix when a star and a question mark precede it, and 0 otherwise |
| Engine.KmStringPatternMatch.AddFastEntry | StringPatternMatch/KmStringPatternMatch.h:1046-1098 | any other pattern is filed under its prefix length and hash, or the rules stay; a stale length or an empty bucket is all that a failure leaves; the status is exact |
| Engine.KmStringPatternMatch.AddToBucket | StringPatternMatch/KmStringPatternMatch.h:1069-1098 | the hash gets a bucket and the bucket the entry, or the rules stay; memory is asked for only by a new hash at the load limit and by a full bucket |
| Engine.KmStringPatternMatch.EnsureLength | StringPatternMatch/KmStringPatternMatch.h:1049-1068 | the length index stays strictly sorted and then holds the old lengths and this one, or is as before; it fails exactly when the length is new, the vector full and memory refused |
| Engine.KmStringPatternMatch.EnsureBucket | StringPatternMatch/KmStringPatternMatch.h:1069-1075 | the hash has a bucket afterwards, its old one or an empty one, and the search index means what it meant; the table stays within 2^18 slots, so nothing overflows |
| Engine.KmStringPatternMatch.FileEntry | StringPatternMatch/KmStringPatternMatch.h:1077-1098 | the committing writes add exactly this rule; the filter bit is in place with them |
| Exactness.AnswerIsExact | StringPatternMatch/KmStringPatternMatch.h:1183-1215 | the answer holds the context of each matching rule, has no duplicate and stays inside the context store |
| Registry.AnswerIsAccepted | StringPatternMatch/KmStringPatternMatch.h:1696-1815 | ordering by prefix length and then the slow path loses and repeats nothing: the answer is a permutation of the matches in registration order |
| Registry.BucketHits | StringPatternMatch/KmStringPatternMatch.h:1772-1807 | probing one bucket per length misses no match, whatever hashes collide |
| Registry.HitInBucket | StringPatternMatch/KmStringPatternMatch.h:1096 | a matching rule's stored prefix hashes like the folded text prefix |
| Index.LeftoversKeep | StringPatternMatch/KmStringPatternMatch.h:1059-1082 | an orphan context, a stale length or an empty bucket leaves the invariant, hence all answers |
| Index.AddSlow | StringPatternMatch/KmStringPatternMatch.h:1029-1044 | the slow-path update of counters and list is the index of one rule more |
| Index.AddFast | StringPatternMatch/KmStringPatternMatch.h:1077-1096 | the bucket, counter and filter updates are the index of one rule more |
| Index.CountFits | StringPatternMatch/KmStringPatternMatch.h:755-760 | live entries have distinct contexts, so there are no more patterns than contexts |
| Rejections.RejectedIsEmpty | StringPatternMatch/KmStringPatternMatch.h:1628-1679 | every early return of a search is right: the answer is empty |
| Rejections.AcceptedRule | StringPatternMatch/KmStringPatternMatch.h:1628-1708 | a match satisfies every length condition, and with literals only its length is that of the text |
| Rejections.NoHitsAt | StringPatternMatch/KmStringPatternMatch.h:1696-1708 | a length that is not indexed has no match |
| Rejections.FilterRejects | StringPatternMatch/KmStringPatternMatch.h:1766-1770 | a hash that is not in the filter has no match |
| HashFilter.AddExact | StringPatternMatch/KmStringPatternMatch.h:1096 | adding a hash to the 1024-bit filter marks exactly the hashes with the same ten low bits, and removes none |
| HashFilter.NothingHeld | StringPatternMatch/KmStringPatternMatch.h:1117-1120 | a cleared filter holds nothing |
| Searching.LowerBound | StringPatternMatch/KmStringPatternMatch.h:1651-1668 | the binary search finds the first length that is not below the text length |
| Searching.WalkBucket | StringPatternMatch/KmStringPatternMatch.h:1775-1806 | offers exactly the matching rules of the bucket with this prefix length, in order, until stopped |
| Searching.WalkSlow | StringPatternMatch/KmStringPatternMatch.h:1553-1606 | offers exactly the matching rules of the slow list, in order, until stopped |
| Searching.GapBefore | StringPatternMatch/KmStringPatternMatch.h:1696-1708 | between two visited lengths nothing was skipped |
| Candidates.MatchFast | StringPatternMatch/KmStringPatternMatch.h:1777-1803 | length, tail, prefix and suffix checks on an entry read through its pointers accept exactly what the raw pattern means |
| Candidates.MatchSlow | StringPatternMatch/KmStringPatternMatch.h:1555-1599 | so do the slow-path checks, including the first-literal filter |
| Candidates.EvaluatePrefixMatch | StringPatternMatch/KmStringPatternMatch.h:1231-1339 | equals character-by-character comparison under folding |
| Candidates.EvaluateTailMatch | StringPatternMatch/KmStringPatternMatch.h:1355-1468 | the same for the tail, at the end of the text |
| Candidates.EvaluatePatternSuffix | StringPatternMatch/KmStringPatternMatch.h:1484-1529 | calls the matcher with exactly the minimum length of the suffix and the text between prefix and tail |
| Candidates.LiteralMissing | StringPatternMatch/KmStringPatternMatch.h:1568-1599 | without the first literal somewhere before the tail there is no match |
| WildCards.WildCardMatch | StringPatternMatch/KmStringPatternMatch.h:1833-2246 | true exactly when the reference matcher accepts, in either scope and case mode, although only the latest star is retried; at most (P + T + 1)(P + 1) turns of the main loop, and at most T looks at the text plus ten for each turn, those of the fast-forward cursor included |
| WildCards.FastForward | StringPatternMatch/KmStringPatternMatch.h:1853-2042 | stops at the same place, with the same verdict, as the scalar scan for the first target before any separator; no block load leaves the text |
| WildCards.ScanPreservesMatch | StringPatternMatch/KmStringPatternMatch.h:2125-2128 | fast-forwarding loses no match, and giving up is right |
| WildCards.PlaceStar | StringPatternMatch/KmStringPatternMatch.h:2098-2132 | placing the rest behind a star keeps the question of a match as it was |
| WildCards.RestIsClear | StringPatternMatch/KmStringPatternMatch.h:2077-2093 | a trailing star matches exactly when no separator is left under it |
| WildCards.Stuck | StringPatternMatch/KmStringPatternMatch.h:2204-2237 | after a mismatch the only hope is the latest star one place further, and none under a separator |
| Globs.LeftmostSuffices | StringPatternMatch/KmStringPatternMatch.h:2204-2235 | leftmost placement is never worse: once the segment between two stars fits, committing to it loses no match, in either scope |
| Globs.NoSeparatorBetween | StringPatternMatch/KmStringPatternMatch.h:2135-2149 | infinite descent: no separator lies in the stretch that the second star would have to skip |
| Globs.SameSegment | StringPatternMatch/KmStringPatternMatch.h:2135-2149 | a separator under the later placement of a segment sits under one of the earlier placement |
| Meaning.CompiledMeaning | StringPatternMatch/KmStringPatternMatch.h:769-975 | a raw pattern matches exactly the texts that start with the stored prefix, end with the stored tail without overlap, and whose middle the trimmed suffix matches |
| Meaning.ScansCompile | StringPatternMatch/KmStringPatternMatch.h:769-939 | the separate escape scans tokenise alike: what they compute are the parts of the pattern, including doubled, dangling and unrecognised escapes; what the tokens mean in characters is `Language.AcceptsIsDenotes` |
| Language.AcceptsIsDenotes | StringPatternMatch/KmStringPatternMatch.h:459-475 | for every mode, pattern, scope and text the reference accepts exactly what the language denotes: `*` takes any run, `?` one character, neither a separator in segment scope, `|` takes a following `*`, `?` or `|`, and every other character, a lone `|` included, stands for itself up to case |
| Language.StarLaw | StringPatternMatch/KmStringPatternMatch.h:459-475 | a pattern that begins with `*` accepts a text exactly when the rest accepts some suffix of it, and in segment scope no separator is skipped |
| Language.QuestionLaw | StringPatternMatch/KmStringPatternMatch.h:459-475 | a pattern that begins with `?` takes one character, in segment scope not the separator |
| Language.EscapeLaw | StringPatternMatch/KmStringPatternMatch.h:779-793 | an escape takes the `*`, `?` or `|` behind it as a letter |
| Language.PlainLaw | StringPatternMatch/KmStringPatternMatch.h:795-801 | every other character, an escape before anything else included, is a letter |
| Language.PlainPattern | StringPatternMatch/KmStringPatternMatch.h:769-801 | a pattern without `*` and `?` and without an escape before an operator accepts exactly the texts that differ from it in case at most, in either scope |
| Language.QuotedPattern | StringPatternMatch/KmStringPatternMatch.h:779-793 | a string with `|` put before each `*`, `?` and `|` takes exactly itself up to case, whatever follows in the pattern |
| Language.QuotedAlone | StringPatternMatch/KmStringPatternMatch.h:459-475 | quoting is the inverse of matching: the quoted string accepts exactly that string up to case |
| Language.SameTexts | StringPatternMatch/KmStringPatternMatch.h:329-353 | texts that differ in case at most are accepted by the same patterns |
| Language.SamePatterns | StringPatternMatch/KmStringPatternMatch.h:329-353 | patterns that differ in case at most accept the same texts |
| Language.SameLetterIsFold | StringPatternMatch/KmStringPatternMatch.h:329-353 | two characters fold alike exactly when they are the same letter: equal, two cases of an ASCII letter, equal capitals above 127, or a character above 127 whose capital is that of the ASCII one |
| Language.AcrossAscii | StringPatternMatch/KmStringPatternMatch.h:329-353 | a pair of characters on both sides of 127 that are the same letter |
| Language.StarAlone | StringPatternMatch/KmStringPatternMatch.h:459-475 | `*` accepts every text, in segment scope exactly those without a separator |
| Language.QuestionAlone | StringPatternMatch/KmStringPatternMatch.h:459-475 | `?` accepts exactly the texts of one character, in segment scope not the separator |
| Meaning.AcceptedIsLong | StringPatternMatch/KmStringPatternMatch.h:963 | prefix length plus minimum length never exceeds the length of a matching text |
| Meaning.PartsFit | StringPatternMatch/KmStringPatternMatch.h:963 | nor the length of the pattern, so no 32-bit sum of these lengths wraps around |
| Meaning.LiteralOccurs | StringPatternMatch/KmStringPatternMatch.h:1568-1599 | every literal of a matching suffix occurs in the text |
| Registration.ScanPrefix | StringPatternMatch/KmStringPatternMatch.h:769-801 | the raw and unescaped lengths of the leading literals |
| Registration.CopyLiterals | StringPatternMatch/KmStringPatternMatch.h:817-837 | the unescaped, folded copy of those literals; also the copy of the tail |
| Registration.CopyWildPart | StringPatternMatch/KmStringPatternMatch.h:839-844 | the folded copy of the rest, operators in place |
| Registration.MinimumLength | StringPatternMatch/KmStringPatternMatch.h:847-867 | the minimum length of the tokens of the suffix |
| Registration.LastWildcardEnd | StringPatternMatch/KmStringPatternMatch.h:869-890 | where the last wildcard ends: what follows is literal, it is the last run of literals, and cutting there cuts between tokens |
| Registration.TailLength | StringPatternMatch/KmStringPatternMatch.h:892-910 | the unescaped length of the tail |
| Registration.FirstLiteral | StringPatternMatch/KmStringPatternMatch.h:980-1027 | the scan on characters agrees with the first literal of the tokens behind a star and a question mark |
| Registration.ParseFolded | StringPatternMatch/KmStringPatternMatch.h:839-844 | folding commutes with parsing, because it keeps the operators |
| Registration.ParseCut | StringPatternMatch/KmStringPatternMatch.h:965-970 | trimming the suffix behind a wildcard splits its tokens |
| Storage.CompileParts | StringPatternMatch/KmStringPatternMatch.h:803-970 | the strings in the arena and the pointers of the entry are those of the pattern; registered strings are untouched; it fails exactly when one of the two strings needs a slab and is refused it |
| Storage.AdmittedFits | StringPatternMatch/KmStringPatternMatch.h:749-760 | a pattern of admitted length gets its memory when the pool grants it: the arena's own guard is never in the way |
| Storage.StoreText | StringPatternMatch/KmStringPatternMatch.h:808-844 | a carved block ends up with the text, and every older block keeps its own; fails exactly when `Allocate` must |
| Storage.BackedIsLegible | StringPatternMatch/KmStringPatternMatch.h:488-506 | reading an entry's prefix, suffix and tail through its pointers gives the registered strings |
| Storage.BackedShrinks | StringPatternMatch/KmStringPatternMatch.h:170-204 | rolling back frees no slab that a registered string is in |
| Literals.CompareLiteral | StringPatternMatch/KmStringPatternMatch.h:1242-1338 | full blocks and one overlapping block equal character-by-character comparison, for every length and any mix of ASCII and other blocks; by `Language.AgreesIsSame` that is equality up to case |
| Language.AgreesIsSame | StringPatternMatch/KmStringPatternMatch.h:1259-1268 | a stored literal agrees with a stretch of the text exactly when the stretch differs from the original in case at most |
| Literals.SameFoldedBlock | StringPatternMatch/KmStringPatternMatch.h:1248-1277 | one block compared as a word or, when it is not ASCII, by characters |
| Hashing.HashAtLength | StringPatternMatch/KmStringPatternMatch.h:1710-1764 | the incremental hash at length L is the hash of the folded first L characters, for any mixing step |
| Hashing.CalculateHash | StringPatternMatch/KmStringPatternMatch.h:423-453 | the same hash computed whole, from any previous state and for any mixing step |
| Hashing.HashRolls | StringPatternMatch/KmStringPatternMatch.h:410-453 | the hash rolls: whole blocks first and the rest from that state give the hash of the whole |
| Hashing.SamePrefixSameHash | StringPatternMatch/KmStringPatternMatch.h:423-453 | equal prefixes have equal hashes whatever follows them |
| Hashing.FoldedBlock | StringPatternMatch/KmStringPatternMatch.h:1714-1736 | folding a loaded block as a word or by characters gives the block of the folded text |
| Hashing.FallbackIsProduct | StringPatternMatch/KmStringPatternMatch.h:248-278 | four partial products and a carry column give both words of the 128-bit product |
| Hashing.MixesWords | StringPatternMatch/KmStringPatternMatch.h:248-278 | the mixing step is the exclusive or of the two words of the product with 0x8bb84b93962eacc9 |
| NarrowLanes.ToUpperLane | StringPatternMatch/KmStringPatternMatch.h:390-399 | on ASCII blocks the 8-lane folding equals folding each character: nothing carries or borrows between lanes |
| WideLanes.ToUpperLane | StringPatternMatch/KmStringPatternMatch.h:400-407 | the same for four 16-bit lanes |
| Blocks.AsciiHolds | StringPatternMatch/KmStringPatternMatch.h:366-376 | the mask test holds exactly when every character of the block is ASCII |
| Blocks.ToUpperHolds | StringPatternMatch/KmStringPatternMatch.h:390-408 | a folded block holds the folded characters |
| Blocks.SameBlock | StringPatternMatch/KmStringPatternMatch.h:1255-1273 | words are equal exactly when they hold the same characters |
| Flags.JudgeExact | StringPatternMatch/KmStringPatternMatch.h:1905-1934 | false flags never decide: the lowest flag of either kind is that of the scalar scan, for lanes of one or two bytes |
| NarrowLanes.ScanBlockExact | StringPatternMatch/KmStringPatternMatch.h:1892-1936 | the verdict of the 8-lane scan is the first target or separator of the block |
| WideLanes.ScanBlockExact | StringPatternMatch/KmStringPatternMatch.h:1892-1936 | the same for four lanes |
| NarrowLanes.FlagsExact | StringPatternMatch/KmStringPatternMatch.h:1897-1904 | up to the first zero lane the zero-lane trick flags exactly, whatever a borrow does above it |
| WideLanes.FlagsExact | StringPatternMatch/KmStringPatternMatch.h:1897-1904 | the same for four lanes |
| Characters.FoldKeepsAlphabet | StringPatternMatch/KmStringPatternMatch.h:329-353 | folding neither makes nor removes an operator or a separator |
| MapRuns.Run | StringPatternMatch/KHashMap.h:546-780 | over any run of insertions, lookups, reservations and resets, with memory refused at any point, every call answers exactly as a mathematical map with a capacity does, failures included, and the table is that map at the end |
| MapRuns.EntriesStay | StringPatternMatch/KHashMap.h:607-715 | without a reset a key keeps its first value over any run |
| MapRuns.ReservationHolds | StringPatternMatch/KHashMap.h:546-583 | after a reservation no insertion up to its size needs memory, whatever happens in between |
| HashMap.KFlatHashMap.Emplace | StringPatternMatch/KHashMap.h:607-715 | adds an absent key, returns a present one unchanged even at the load limit; grows, from nothing to 16 slots or to twice as many, exactly when one entry more would fill over seventy per cent; the status is exact, and a failure keeps the map; the full-cycle exit is dead |
| HashMap.KFlatHashMap.Find | StringPatternMatch/KHashMap.h:1048-1104 | finds exactly the present keys, with their values |
| HashMap.KFlatHashMap.Probe | StringPatternMatch/KHashMap.h:629-714 | the probe loop ends at the key's slot, or at a free slot that proves the key absent, before it comes round |
| HashMap.KFlatHashMap.FindInGroup | StringPatternMatch/KHashMap.h:1070-1086 | comparing the marked lanes finds the key if it is in the group |
| HashMap.KFlatHashMap.Rehash | StringPatternMatch/KHashMap.h:1115-1214 | moves every entry to the new table or changes nothing, overflowing exactly when the bytes of the table would and failing for memory exactly when refused; all placement loops end |
| HashMap.KFlatHashMap.MoveGroup | StringPatternMatch/KHashMap.h:1160-1201 | after a group its entries, and no others, have joined the new table |
| HashMap.KFlatHashMap.Reserve | StringPatternMatch/KHashMap.h:546-583 | success leaves room for the request below seventy per cent, with the same contents; it rehashes exactly when there was none, to the least power of two at or above the scaled request; the status is exact: an overflow of the request or of the table's bytes, a refusal, or success |
| HashMap.MaxLoadIsSeventyPercent | StringPatternMatch/KHashMap.h:1210 | the load limit is seventy per cent of the slots, rounded up |
| HashMap.KFlatHashMap.LoadIsBounded | StringPatternMatch/KHashMap.h:661-674 | no table is ever filled over seventy per cent, and it grows exactly where one entry more would be |
| HashMap.FitsIsBytes | StringPatternMatch/KHashMap.h:1118-1136 | the overflow checks refuse exactly the tables of 2^64 bytes or more |
| HashMap.KFlatHashMap.Clear | StringPatternMatch/KHashMap.h:771-780 | the map is empty and keeps its table |
| HashMap.KFlatHashMap.Store | StringPatternMatch/KHashMap.h:733-751 | writing through a returned value pointer changes that key's value only |
| HashMap.KFlatHashMap.AdvanceToOccupied | StringPatternMatch/KHashMap.h:941-947 | stops at the next used slot, skipping free ones only |
| HashMap.KFlatHashMap.Traverse | StringPatternMatch/KHashMap.h:892-978 | iterating from begin to end visits every entry exactly once |
| HashMap.ReserveEnough | StringPatternMatch/KHashMap.h:555-580 | the power of two chosen carries the request and exceeds the old capacity |
| HashMap.MaxLoadLeavesRoom | StringPatternMatch/KHashMap.h:1210 | the load limit leaves at least one slot free |
| HashMap.FirstRoom | StringPatternMatch/KHashMap.h:1175-1197 | the placement loop ends, at a free slot of the first group with room on the key's path |
| HashMap.NextProbe | StringPatternMatch/KHashMap.h:709 | adding 8 under the group mask steps to the next group, wrapping around |
| Tables.Insert | StringPatternMatch/KHashMap.h:691-702 | filling a free slot that the key's path leads to keeps the probe-chain invariant for all keys |
| Tables.TopSeven | StringPatternMatch/KHashMap.h:627 | a control byte is the seven highest bits of the hash |
| Tables.Absent | StringPatternMatch/KHashMap.h:1088-1094 | a group with room ends the search: the key is absent |
| Tables.NotAllFull | StringPatternMatch/KHashMap.h:709-713 | pigeonhole: a probe never passes every group |
| Tables.Update | StringPatternMatch/KHashMap.h:643-649 | overwriting a value keeps the table |
| Groups.SwarMatchLane | StringPatternMatch/KHashMap.h:402-407 | the byte match is exact in every lane, without false positives |
| Groups.LowestMark | StringPatternMatch/KHashMap.h:636-652 | the bit scan gives the first marked lane and clearing the lowest bit removes that mark only |
| Groups.EmptyMarks | StringPatternMatch/KHashMap.h:655 | the top bits mark exactly the free, and inverted the used, slots |
| Sizes.GroupMask | StringPatternMatch/KHashMap.h:1152 | masking an index picks a group: the remainder by the number of groups |
| Arenas.KStringArena.Allocate | StringPatternMatch/KmStringPatternMatch.h:104-157 | carves behind the used part of the last slab, or of a new slab of at least a page exactly when that has no room; asks the pool for nothing else; blocks stay aligned, disjoint and inside their slabs, older ones keep their text; on failure nothing changes |
| Arenas.SlabIsPage | StringPatternMatch/KmStringPatternMatch.h:119-132 | a new slab takes a page with its header, or what the block needs if that is more |
| Arenas.SlabSizeFits | StringPatternMatch/KmStringPatternMatch.h:110-122 | the guard on the length keeps the size of a slab below 2^64 bytes, but for one length of wide characters, 2^63 - 15 |
| Arenas.KStringArena.GetBookmark | StringPatternMatch/KmStringPatternMatch.h:162-165 | the bookmark of the current state |
| Arenas.KStringArena.RevertBookmark | StringPatternMatch/KmStringPatternMatch.h:170-204 | after any number of allocations the chain, the usage and the blocks are those of the bookmark, and exactly the newer slabs are freed |
| Arenas.KStringArena.Clear | StringPatternMatch/KmStringPatternMatch.h:209-222 | every slab is freed, once, in order |
| Arenas.KStringArena.Fill | StringPatternMatch/KmStringPatternMatch.h:817-844 | writing a block changes no other live block |
| Arenas.CarvedKeepsLayout | StringPatternMatch/KmStringPatternMatch.h:115-156 | carving keeps all live blocks aligned, disjoint and inside the used part of their slab |
| Arenas.RoundUpIsLeast | StringPatternMatch/KmStringPatternMatch.h:115 | the footprint is the least whole number of words that holds the block |
| Arenas.ExtendsTransitive | StringPatternMatch/KmStringPatternMatch.h:162-204 | a bookmark stays good over any number of later allocations |
| Vectors.KVector.PushBack | StringPatternMatch/KVector.h:346-365 | appends, or changes nothing, even when the value is an element of this vector; grows by the policy exactly when full; the status is exact: with room it succeeds, and when full it overflows exactly when the next capacity or its bytes reach 2^64, and fails for memory exactly when refused; a vector that is only appended to copies fewer than four elements per element |
| Vectors.KVector.GrowAndEmplace | StringPatternMatch/KVector.h:647-701 | the new element is read before the old ones move, so it may be one of them; on failure nothing changes; the status is exact |
| Vectors.KVector.Insert | StringPatternMatch/KVector.h:407-468 | inserts at the position and shifts the rest, or changes nothing; refuses exactly the positions outside the vector, and otherwise reports what an append would; the value may be an element of this vector |
| Vectors.KVector.Reserve | StringPatternMatch/KVector.h:259-311 | exactly the capacity asked for if that is more, and the same contents, or no change; overflows exactly when the size in bytes would, and fails for memory exactly when refused |
| Vectors.NextCapacity | StringPatternMatch/KVector.h:621-637 | eight first, then doubling up to 1024, then half as much again; always strict and by at least a third |
| Vectors.FewFit | StringPatternMatch/KVector.h:647-665 | a vector of at most 2^18 elements never overflows: an append fails exactly when it is full and memory is refused |

Where comments and code differ, the model follows the code: the comment on `AddPattern` names only
`STATUS_INSUFFICIENT_RESOURCES`, while the code also returns `STATUS_INVALID_PARAMETER` and `STATUS_QUOTA_EXCEEDED`, and its
`STATUS_INTEGER_OVERFLOW` is proved to be out of reach; and `Emplace` returns `STATUS_INSUFFICIENT_RESOURCES` after a full cycle, an exit that is proved
never to be taken.

## Left out

- WildCards.WildCardMatch: counts looks at the text; the runs of stars it skips in the pattern are not counted.
- Registration.CopyLiterals: builds the copy as a value that `Arenas.KStringArena.Fill` then writes, instead of writing it in place while scanning.
- `m_LengthVec`, `m_SlowPathList` and the buckets are `Vec` values, elements with a capacity, which `KVector` is proved to refine (`View`); of `KDeque` the quota and the block boundaries are kept, not the addressing of its blocks.
- Arenas.KStringArena.Allocate: for 2^63 - 15 wide characters, the one length at which the size of the slab would wrap around (`SlabSizeFits`), the model computes the unwrapped size; `AddPattern` admits no pattern near that length.
- The null check on the out-pointer of `Search`: an out-parameter of the model always exists.
- Contexts are reported as indices into the context store instead of pointers.
- `SIZE_T` and `UINT32` are unbounded numbers; the overflow checks that the code makes with `RtlSizeTMult` and `RtlSizeTAdd` are written out, with the kernel's behaviour and not that of the wrapping user-mode stubs.
- `KDefaultHash`, `KPrecomputedHash` and `KIdentityHash`: the hash is any function, since no result depends on its quality.
- `RtlUpcaseUnicodeChar` itself, IRQL rules, prefetching, `__restrict` and cache alignment of the slot array.
- Destructors, moves, `Clone`, `DestroyElements` and placement new: C++ object lifetime.
- The address of a slab: blocks are aligned relative to the start of the slab's buffer.
- Drivers, the test and benchmark programs, logging and thread affinity.
