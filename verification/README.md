# PolterType: verified cores

PolterType watches what is typed, notices text typed through the wrong keyboard layout or misspelt,
and offers to put it right. This project models the parts of it whose correctness no single branch
shows - a dynamic program, several state machines, printers and readers, encoders, a worklist, a line
lexer - and proves what each of them promises. `dafny verify dfyconfig.toml` checks everything.

Imperative code keeps its form: classes with the source's fields, methods with the source's loops,
each proved against a specification function or a declarative predicate. Protocols shared between
threads, or between a process and a disk that outlives it, are state machines over their single
steps; what is proved of them holds for every run and every interleaving.

| module | what it models |
|---|---|
| `Geometry`, `EditDistance`, `KeySlips`, `Triangle`, `Suggester`, `SuggestionRules`, `CandidateCap`, `Dictionary` | spelling suggestions: keyboard-weighted edit distance, ranking, the prefix walk over dictionary bytes |
| `Text`, `TokenShape`, `Plausibility`, `WordShape`, `Verdicts` | token shapes, and the decision which layout a token was meant for |
| `ManifestPayload`, `TextOrder`, `Versions`, `Precedence`, `Staging`, `Download` | updates: the signed rendering, version order, checks and the staged record, crash-safe downloads |
| `Hunspell`, `AffFile`, `Conditions`, `AffBlocks` | the dictionary build: affix files, and the expansion of stems into forms |
| `ClaimKeys`, `ClaimFilter`, `ClaimRace`, `HoldGate` | the keyboard hook: which keystrokes are kept from the application |
| `DecisionCache`, `Wire`, `Choice` | the remote model: remembered decisions, JSON strings, reading its reply |
| `Bytes`, `Ico`, `Dib`, `Blit` | icons as files, and glyph masks blended into a picture |
| `Scanner` | the style checker's line scanner |
| `Options`, `Ordering`, `Strings`, `Decimals` | shared vocabulary |

Where the code departs from what its own comments say, the model follows the code:

- The expander's comment speaks of a breadth-first search, but the frontier is a stack, and a form is
  queued only with the continuation of the rule that produced it first. Not every derivable form is
  therefore found (`Hunspell.FirstProducerWins`); what is found is characterised exactly.
- "A key is claimed whole or not at all" is not so of every keystroke. A key already down when the claim
  is armed is kept from its next autorepeat on, and a claimed key held for more than two seconds without
  repeating gives its release to the application (`ClaimFilter.LongPressIsSplit`). It holds exactly when
  no claim was waiting for any of the presses, or one was for the first and from each event of the key
  to the next no two seconds passed without a kept-back press, unless a claim was waiting there again
  (`ClaimFilter.WholeOrNotAtAllIff`).
- `KeyClaims::arm` stores the deadline before the keys, so the previous claim's keys can be seen
  under the new deadline; a read that is interrupted can also see a short claim's keys under the
  longer deadline it loaded before. Which engine schedules allow either, and at which clocks, is exact
  (`ClaimRace.ExpiredKeysCanBeReadIff`).
- A hold stored between the hook's last load and its clearing store is lost
  (`HoldGate.FreshHoldLost`); only "never swallows too long" holds in every interleaving. Which holds
  can be lost, and to which keystrokes, is exact (`HoldGate.HoldCanBeLostAtIff`).
- Ranking more than 500 candidates is said never to change what is shown. It can: the word list yields
  its words in text order, so the cap may cut off the best of them (`CandidateCap.CapCutsTheBest`).
- A cache of capacity one holds two entries, as half of one is none
  (`DecisionCache.CapacityOneHoldsTwo`).
- The reply reader takes `\b`, `\f` and surrogate pairs for something other than RFC 8259 does
  (`Wire.ReadsAsStandardIffAgreed`).
- A check whose feed is not ahead of the running build discards any staged update, not only one
  already installed or superseded (`Staging.StagedUpdateIsLostIff`), and a staged version that does
  not parse is offered as it is (`Staging.OfferedIsNewer`).
- In an affix file a rule that strips the letter `Y` or `N` reads as a block header
  (`AffBlocks.RuleLineReadsBackIff`), and a rule's own flag is not compared with its block's.

## Model

| member | source | states |
|---|---|---|
| Geometry.FromScancodeChars | crates/poltertype-detect/src/geometry.rs:36-53 | every character sits where the first pair producing it says, at that key's grid position, and is nowhere if no pair does |
| Geometry.ProximityIsSymmetric | crates/poltertype-detect/src/geometry.rs:57-62 | squared key distance is symmetric and never negative |
| EditDistance.EveryKeyboardIsFair | crates/poltertype-detect/src/distance.rs:11-19 | for any geometry substitutions are symmetric, free exactly on equal characters, and otherwise cost 0.3 to 1 |
| EditDistance.NoScriptUndercuts | crates/poltertype-detect/src/distance.rs:36-58 | no edit script whatever - match, graded substitution, insertion, deletion, adjacent swap - reaches a matrix cell for less than the cell |
| EditDistance.CheapestScript | crates/poltertype-detect/src/distance.rs:36-58 | every cell's cost is paid by an actual script, which is constructed |
| EditDistance.DistanceIsCheapestScriptCost | crates/poltertype-detect/src/distance.rs:25-61 | the full matrix computes the minimum cost over all edit scripts |
| EditDistance.WeightedOsa | crates/poltertype-detect/src/distance.rs:25-61 | the three swapped rows return that minimum, for every pair of sequences and every keyboard |
| EditDistance.DistanceProperties | crates/poltertype-detect/src/distance.rs:11-61 | the distance is symmetric, zero exactly on equal sequences, and between the length difference and the longer length |
| KeySlips.SlipIsGradedIffNear | crates/poltertype-detect/src/distance.rs:7-19 | a wrong character costs less than an insertion exactly when both keys are on the board at most one and a half keys apart |
| KeySlips.NearerSlipIsCheaper | crates/poltertype-detect/src/distance.rs:7-19 | of two such slips the one between the nearer keys is strictly cheaper: from 0.3 on, a tenth of the difference of the squared distances |
| KeySlips.OneSlipCostsItself | crates/poltertype-detect/src/distance.rs:25-61 | two words that differ in one place are exactly as far apart as that one slip, on every keyboard |
| KeySlips.NearerSlipRanksFirst | crates/poltertype-detect/src/distance.rs:7-10 | of two words that differ from the token in the same single place the one whose key is nearer is the nearer word, and a key near by beats one that is not; both ways |
| KeySlips.HelloBeforeHallo | crates/poltertype-detect/src/distance.rs:7-10 | where w, e and a are on their keys of an English keyboard, `hwllo` is nearer to `hello` than to `hallo` |
| KeySlips.RowsAreStaggered | crates/poltertype-detect/src/geometry.rs:11-28 | in each of ten columns a row is half, a quarter and half a key to the right of the one above it |
| KeySlips.RowsEnd | crates/poltertype-detect/src/geometry.rs:11-28 | which scancodes are on the board, neighbours one key apart, the two keys out of line next to the ends of their rows |
| Triangle.CellTriangle | crates/poltertype-detect/src/distance.rs:25-61 | where every substitution costs the least there is, going by way of a third word is never cheaper, cell by cell |
| Triangle.DearPairBreaksTriangle | crates/poltertype-detect/src/distance.rs:49-55 | one pair of characters dearer than that, and some detour over its swap is cheaper than the direct way |
| Triangle.TriangleHoldsIffOneSpot | crates/poltertype-detect/src/distance.rs:11-61 | the distance is no metric: for every keyboard the triangle inequality holds exactly when all characters there are share one spot |
| Ordering.AscendingIsUnique | crates/poltertype-update/src/signature.rs:59-62 | a collection has one listing in a strict total order, so sorting leaves nothing to iteration order |
| Ordering.RankIsIndex | crates/poltertype-detect/src/suggester.rs:161-175 | in the sorted listing, element i has exactly i members ranked before it |
| Ordering.TopIsRanked | crates/poltertype-detect/src/suggester.rs:161-174 | sorting and truncating keeps exactly the members with fewer than `max` others ranked before them |
| Suggester.ReadStream | crates/poltertype-detect/src/suggester.rs:73-88 | the capped, skipping read of a fuzzy-search stream yields what folding over the whole stream yields |
| Suggester.RawCandidates | crates/poltertype-detect/src/suggester.rs:56-108 | the candidates are a fixed set without repeated texts, in whatever order the overlay is walked |
| Suggester.ScoreAll | crates/poltertype-detect/src/suggester.rs:138-171 | exactly the candidates scoring at most 2.6, sorted by score, length gap and text |
| Suggester.Suggest | crates/poltertype-detect/src/suggester.rs:128-190 | the first `max` of all eligible candidates, recased like the token; no other input, the overlay's order included, affects the result |
| Suggester.BestMeansBest | crates/poltertype-detect/src/suggester.rs:161-174 | a suggestion is among the best exactly when it is eligible and fewer than `max` eligible ones rank before it |
| Suggester.RareWordsRankLower | crates/poltertype-detect/src/suggester.rs:149-151 | a word on the weak list scores exactly 0.6 worse than it would off it |
| Suggester.BeginningsAndEndsCount | crates/poltertype-detect/src/suggester.rs:143-158 | between words as far from the token and as common: 0.3 for another first letter, 0.15 for another last one, and 0.08 off for each of the first four characters kept |
| SuggestionRules.BeforeIff | crates/poltertype-detect/src/suggester.rs:162-173 | the lower score first, then the closer length, then the text that precedes character by character |
| SuggestionRules.EligibleIff | crates/poltertype-detect/src/suggester.rs:159 | nothing over 2.6 is suggested, and everything else is |
| SuggestionRules.OverlayAlone | crates/poltertype-detect/src/suggester.rs:91-107 | without a word list the candidates are exactly the overlay's words of at least three letters whose length is within two of the token's, the token itself excepted |
| SuggestionRules.FarWordsAreReadIff | crates/poltertype-detect/src/suggester.rs:64-88 | words two edits away are added from five letters on and only if fewer than twelve closer ones were found |
| SuggestionRules.TakesUp | crates/poltertype-detect/src/suggester.rs:73-88 | a word of the list is taken up unless it is the token, was found before, or comes past the cap |
| SuggestionRules.StartsCapitalIff | crates/poltertype-detect/src/suggester.rs:179-183 | suggestions are titled exactly when the token's first letter, whatever precedes it, is a capital |
| CandidateCap.CapIsHarmlessIff | crates/poltertype-detect/src/consts.rs:12-15 | the cap of 500 leaves the word list's candidates as any wider cap would exactly when there are no more than 500 |
| CandidateCap.CapIsInvisibleIff | crates/poltertype-detect/src/consts.rs:12-15 | the visible suggestions are those of any other cap exactly when each well enough scoring candidate that only one cap offers has, among those that cap offers, at least as many ranked before it as are shown |
| CandidateCap.FewCandidatesShowAlike | crates/poltertype-detect/src/consts.rs:12-15 | where the word list has no more than 500 candidates the visible suggestions are those of any wider cap |
| CandidateCap.CapCutsTheBest | crates/poltertype-detect/src/consts.rs:12-15 | a word list in its own order, all within one edit of the token, whose best suggestion the cap cuts off |
| Suggester.TitleCase | crates/poltertype-detect/src/suggester.rs:194-206 | the loop with its `done` flag raises exactly the first alphabetic character |
| Dictionary.EncodeIsPrefixFree | crates/poltertype-detect/src/dictionary.rs:65-80 | UTF-8 is prefix-free (section 3 of RFC 3629): equal byte strings begin with the same character and go on alike |
| Dictionary.PrefixesAgree | crates/poltertype-detect/src/dictionary.rs:65-80 | byte prefixes are character prefixes, both ways |
| Dictionary.PrefixLetters | crates/poltertype-detect/src/dictionary.rs:65-80 | the byte walk returns k such that some entry begins with the first j characters exactly for the j up to k |
| ManifestPayload.PayloadWriter.PushField | crates/poltertype-update/src/signature.rs:71-80 | appends exactly the field's line, or stops on the first value with a line break |
| ManifestPayload.PayloadWriter.PushHead | crates/poltertype-update/src/signature.rs:53-57 | writes the schema, version and notes fields in that order, or names the first that cannot be |
| ManifestPayload.PayloadWriter.PushArtifact | crates/poltertype-update/src/signature.rs:62-67 | writes an artifact's key, address, digest and size, or names the first that cannot be |
| ManifestPayload.SortKeys | crates/poltertype-update/src/signature.rs:59-61 | the artifact keys in ascending order, each once, whatever order they came in |
| ManifestPayload.SigningPayload | crates/poltertype-update/src/signature.rs:52-69 | for every iteration order of the artifact map the payload is the one rendering of the manifest's fields, or names the first field that cannot be rendered |
| ManifestPayload.ArtifactsInByteOrder | crates/poltertype-update/src/signature.rs:59-67 | of two neighbouring artifacts in the payload the first one's key precedes the second's, character by character and byte by byte |
| ManifestPayload.RendersOnce | crates/poltertype-update/src/signature.rs:52-80 | a manifest has one rendering only |
| ManifestPayload.PayloadReadsBack | crates/poltertype-update/src/signature.rs:52-80 | a parser recovers schema, version, notes and the whole artifact map from any accepted payload |
| ManifestPayload.PayloadIsUnambiguous | crates/poltertype-update/src/signature.rs:52-80 | two manifests with one payload differ in their signatures at most |
| ManifestPayload.ReadPayloadIsCanonical | crates/poltertype-update/src/signature.rs:52-80 | what the parser accepts is exactly what the printer prints |
| ManifestPayload.LineBreaksWouldBeAmbiguous | crates/poltertype-update/src/signature.rs:71-74 | without the refusal of line breaks two different manifests would share a payload |
| TextOrder.TextLessIff | crates/poltertype-update/src/signature.rs:59-61 | a text precedes another exactly when it is a proper beginning of it, or has the smaller character where the two part |
| TextOrder.EncodeIsMonotone | crates/poltertype-update/src/signature.rs:59-61 | the smaller of two characters has the smaller byte where their UTF-8 encodings (section 3 of RFC 3629) part |
| TextOrder.BytesCompareAlike | crates/poltertype-update/src/signature.rs:59-61 | comparing two texts and comparing their UTF-8 bytes is the same |
| Versions.PrecedenceIsTotal | crates/poltertype-update/src/version.rs:13-17 | precedence of section 11 of Semantic Versioning 2.0.0, pre-releases included, is a strict total order |
| Precedence.NumbersDecide | crates/poltertype-update/src/version.rs:7-17 | major, minor and patch decide in that order, as numbers, and build metadata where nothing else differs |
| Precedence.IdentifiersDecide | crates/poltertype-update/src/version.rs:7-17 | under the same numbers a pre-release is below its release, and the lower pre-release is the one whose identifiers end first or are lower where the two part: numbers by value, below text, text by its characters |
| Precedence.ReleasesInOrder | crates/poltertype-update/src/version.rs:7-17 | the example of section 11 of Semantic Versioning 2.0.0 for releases |
| Precedence.CandidatesInOrder | crates/poltertype-update/src/version.rs:7-17 | the section's example for pre-releases, from alpha to the release |
| Precedence.PrefixesAreIgnored | crates/poltertype-update/src/version.rs:19-24 | space around a version and any number of `v`s before it are ignored |
| Versions.NewerThroughKept | crates/poltertype-update/src/check.rs:60-80 | a staged version the feed is not ahead of is newer than the running build whenever the feed is |
| Versions.FinalSupersedesCandidate | crates/poltertype-update/src/version.rs:7-12 | a release is newer than its candidates, and no candidate than its release |
| Staging.Directory.ReadPending | crates/poltertype-update/src/staging.rs:46-73 | yields the record whose artifact exists; a malformed or dangling record is cleared, an unreadable one left |
| Staging.Directory.ClearPending | crates/poltertype-update/src/staging.rs:93-104 | record and files are gone, but for what the deletion spared |
| Staging.Directory.WritePending | crates/poltertype-update/src/staging.rs:75-84 | the record is written, or left as it was, or left truncated |
| Staging.Directory.AttemptsLeft | crates/poltertype-update/src/staging.rs:126-137 | an artifact has tries left below three attempts, and is discarded otherwise |
| Staging.Directory.NoteInstallAttempt | crates/poltertype-update/src/staging.rs:146-157 | the record counts one attempt more, unless it could not be written |
| Staging.Directory.CheckAndStage | crates/poltertype-update/src/check.rs:27-103 | the disk and the report after a check, for every feed, deletion, download and write outcome |
| Staging.OfferedIsNewer | crates/poltertype-update/src/check.rs:27-103 | an update offered is staged and usable, and newer than the running build exactly when its version parses |
| Staging.UnparseableIsOffered | crates/poltertype-update/src/check.rs:65-80 | a staged version that does not parse is kept and offered by every check whose feed is ahead |
| Staging.NoDanglingRecord | crates/poltertype-update/src/staging.rs:38-73 | where deleting works, a check leaves no record without its artifact |
| Staging.NewIsStaged | crates/poltertype-update/src/check.rs:53-102 | with nothing usable staged, or something the feed is ahead of, a download that is recorded is offered and usable as the feed describes it, untried; otherwise the check fails |
| Staging.StagedUpdateIsLostIff | crates/poltertype-update/src/check.rs:31-48 | exactly when a check loses a usable staged update: the feed is not ahead of the running build, or superseded it and could not be staged |
| Staging.StepNeverGoesBack | crates/poltertype-update/src/check.rs:53-80 | one check, install attempt or giving up keeps the staged version, raises it, or leaves none |
| Staging.StagedVersionNeverGoesBack | crates/poltertype-update/src/check.rs:27-103 | over every run, while something stays staged its version never decreases |
| Staging.NeverTriedTooOften | crates/poltertype-update/src/staging.rs:126-157 | over every run in which each installation attempt follows a look at the tries left, nothing on record was ever tried more than three times |
| Download.HexIsInjective | crates/poltertype-update/src/download.rs:117-125 | no two digests are written alike, so comparing texts compares digests |
| Download.DigestMatchesIffSpelled | crates/poltertype-update/src/download.rs:76-83 | bytes match a manifest's digest exactly when it spells theirs in hexadecimal, in small letters or capitals, with space around it |
| Download.StepKeepsSound | crates/poltertype-update/src/download.rs:27-88 | every step of a download keeps the account of hashed, sent and written bytes |
| Download.DownloadIsSafe | crates/poltertype-update/src/download.rs:27-88 | stopped after any step, a download has changed only its `.part` file, or has put under the final name exactly the bytes that arrived, within the ceiling and with the manifest's digest |
| Download.OnlyVerifiedFilesAppear | crates/poltertype-update/src/download.rs:27-88 | over any number of abandoned downloads a path that is no attempt's `.part` only ever gains files verified for an attempted artifact of that name |
| Download.AbandonedPart | crates/poltertype-update/src/download.rs:34-52 | a download abandoned as soon as it begins leaves at its `.part` path a file no attempted artifact vouches for |
| Download.SafeIffNobodysPart | crates/poltertype-update/src/download.rs:27-88 | for every set of artifacts, a path only ever gains verified files exactly when it is the `.part` path of none that is small enough to be begun |
| Download.Folder.FetchVerified | crates/poltertype-update/src/download.rs:27-88 | yields the file exactly when creating, connecting, reading, writing, flushing and renaming all succeed, the size and the total are within the ceiling and the digest matches; changes nothing but the `.part` file otherwise; every run is a run of the steps |
| Hunspell.SuffixRule | xtask/src/hunspell/rules.rs:82-103 | what a suffix rule makes of a word, in terms of how the word splits and what its end must match |
| Hunspell.PrefixRule | xtask/src/hunspell/rules.rs:105-124 | the same for prefix rules at the word's beginning |
| Hunspell.ApplySuffix | xtask/src/hunspell/rules.rs:82-103 | the atom-by-atom loop decides the suffix rule |
| Hunspell.ApplyPrefix | xtask/src/hunspell/rules.rs:105-124 | the atom-by-atom loop decides the prefix rule |
| Hunspell.TryRule | xtask/src/hunspell/aff.rs:143-150 | a form seen before is neither added nor queued; a new one is queued only with flags to apply and below the depth cap |
| Hunspell.ExpandWord | xtask/src/hunspell/aff.rs:140-161 | every rule a word's flags license is tried, suffixes before prefixes, flag by flag |
| Hunspell.TurnMakesProgress | xtask/src/hunspell/aff.rs:139-162 | the termination measure: each turn removes an item of some depth and adds only deeper ones, up to the cap |
| Hunspell.Expand | xtask/src/hunspell/aff.rs:126-165 | the nested worklist loops compute the expansion, terminating even with cyclic continuation flags |
| Hunspell.ExpansionIsSound | xtask/src/hunspell/aff.rs:126-165 | every form is the stem or is derived by a chain of at most five rules, each licensed by the entry's flags or the previous rule's continuation |
| Hunspell.ExpansionIsAccounted | xtask/src/hunspell/aff.rs:139-162 | a form is found exactly when it is the stem or one rule away from a queued word |
| Hunspell.ExpandedOnce | xtask/src/hunspell/aff.rs:139-162 | no word is expanded twice, and every expanded word is a form found |
| Hunspell.ExpansionIsComplete | xtask/src/hunspell/aff.rs:139-162 | where all derivations of a form within the cap have the same one-step continuations, whichever flags and depths they come with, every derivable form is found |
| Hunspell.FirstProducerWins | xtask/src/hunspell/aff.rs:141-147 | full closure is false: a concrete table whose derivable form is missed |
| AffFile.ParseCondition | xtask/src/hunspell/rules.rs:49-80 | the consuming loop reads the condition's atoms; a lone dot is unconditional |
| AffFile.ConditionReadsBackIffWritable | xtask/src/hunspell/rules.rs:49-80 | written out and read again, a condition is itself exactly when the notation can spell its atoms and it is not one lone `.`, which reads as no condition |
| AffFile.ReadingLosesNothing | xtask/src/hunspell/rules.rs:56-75 | the atoms read spell the text, with a class left open closed |
| Conditions.SuffixConditionAsks | xtask/src/hunspell/rules.rs:49-103 | for every condition text, cut into its positions, a suffix rule applies exactly where each of the word's last characters is one its position allows and there is enough to strip: a letter itself, a dot anything, brackets what they list, or with a caret all but that; a lone dot asks nothing |
| Conditions.PrefixConditionAsks | xtask/src/hunspell/rules.rs:49-124 | the same of prefix rules and the word's first characters |
| Conditions.BracketsAsk | xtask/src/hunspell/rules.rs:49-133 | `[chars]` asks for a last character among chars, `[^chars]` for one that is not |
| Conditions.EveryTextIsPieces | xtask/src/hunspell/rules.rs:54-79 | every text is such a condition, its last choice perhaps without a closing bracket |
| AffFile.FlagsReadBack | xtask/src/hunspell/rules.rs:25-45 | in all four flag modes, flags written one after the other are read back |
| AffFile.NoEmptyFlag | xtask/src/hunspell/rules.rs:35-43 | no mode reads an empty flag |
| AffBlocks.RuleLineReadsBackIff | xtask/src/hunspell/aff.rs:27-84 | for every flag that is a word, a written rule line is read back exactly when strip, added text and condition are words - not empty, no whitespace, no `#` - and the strip is neither `Y` nor `N`; such a rule opens a block instead |
| AffBlocks.RuleReadsBackIff | xtask/src/hunspell/aff.rs:75-100 | written and compiled again, a rule is itself exactly when neither the text it strips nor the text it adds is `0`, the latter has no slash, and its condition can be written |
| AffBlocks.HeaderLineReads | xtask/src/hunspell/aff.rs:51-73 | flag, `Y` or `N` and a count open a block; two words are no line |
| AffBlocks.ModeLineReads | xtask/src/hunspell/aff.rs:32-42 | `long`, `UTF-8` and `num` select their modes and no other name is one |
| AffBlocks.ParseAff | xtask/src/hunspell/aff.rs:17-121 | fails exactly when some line is malformed or a rule is outside any block of its kind; otherwise each flag has the rules of the last block bearing it, each read in its own line's flag mode |
| ClaimKeys.CanonicalIsIndex | crates/poltertype-input/src/enums.rs:168-184 | 21 keys have 21 different bits, and keys share a bit exactly when they are one key |
| ClaimKeys.NumbersStandForTheNearest | crates/poltertype-input/src/enums.rs:135-175 | numbers from 1 to 9 stand for themselves, others for the nearer end |
| ClaimKeys.ContainsIsMembership | crates/poltertype-input/src/types.rs:38-40 | the word's test is membership in the set it stands for |
| ClaimKeys.WithAddsOneKey | crates/poltertype-input/src/types.rs:34-36 | adds exactly one key and leaves the modifiers alone |
| ClaimKeys.WithoutDropsOneKey | crates/poltertype-input/src/claim_filter.rs:94 | clearing a bit drops exactly one key |
| ClaimKeys.DigitModifiersReadBack | crates/poltertype-input/src/types.rs:45-62 | packed modifiers read back, caps lock apart, and leave the keys alone |
| ClaimKeys.EmptyMeansNoKeys | crates/poltertype-input/src/types.rs:64-70 | a well-formed word is empty exactly when it has no keys |
| ClaimFilter.KeyClaims.SetSupported | crates/poltertype-input/src/claims.rs:44-49 | losing support drops the armed keys |
| ClaimFilter.KeyClaims.Arm | crates/poltertype-input/src/claims.rs:56-60 | new keys and a new deadline, on their own |
| ClaimFilter.KeyClaims.Disarm | crates/poltertype-input/src/claims.rs:62-64 | no keys, the deadline as it was |
| ClaimFilter.KeyClaims.Armed | crates/poltertype-input/src/claims.rs:67-72 | the armed keys before the deadline, nothing from it on |
| ClaimFilter.ClaimFilter.DecideAt | crates/poltertype-input/src/claim_filter.rs:72-116 | the filter's new state and its answer, for every event |
| ClaimFilter.KeptPresses | crates/poltertype-input/src/claim_filter.rs:98-116 | a press of a key not held is kept back exactly when the claim has the key and the modifiers are right: for a digit those the claim was armed with, for any other key none |
| ClaimFilter.KeptThroughRelease | crates/poltertype-input/src/claim_filter.rs:72-116 | once a press is kept back, so is every later keystroke of that key through its release, unless more than two seconds pass without a kept-back press |
| ClaimFilter.KeptReleaseEndsKeptPress | crates/poltertype-input/src/claim_filter.rs:72-116 | a release is kept back only if the key's keystroke before it was a press kept back |
| ClaimFilter.KeptIffVouchedFor | crates/poltertype-input/src/claim_filter.rs:72-116 | of every keystroke exactly that part is kept which follows a press a claim was waiting for with no two seconds without a kept-back press in between |
| ClaimFilter.WholeOrNotAtAllIff | crates/poltertype-input/src/claim_filter.rs:6-9 | every keystroke is kept whole or passes whole exactly when no claim was waiting for any of its presses, or one was for the first and every later event of the key finds one waiting or follows an earlier event of the key with no such silence in between |
| ClaimFilter.LongPressIsSplit | crates/poltertype-input/src/claim_filter.rs:18-23 | for every key: claimed at its press, held for more than two seconds and not repeating, it is kept back while the application sees its release alone |
| ClaimFilter.KeptFromFirstAccepted | crates/poltertype-input/src/claim_filter.rs:72-116 | where no such silence follows the first press a claim was waiting for, exactly what follows that press is kept |
| ClaimFilter.PressAndReleaseAreOne | crates/poltertype-input/src/claim_filter.rs:72-116 | a press and its release within two seconds are a keystroke that meets the proviso, after any history that leaves the key itself not held at that press |
| ClaimFilter.SilenceFrees | crates/poltertype-input/src/claim_filter.rs:18-23 | a key whose release was lost is still held at its next event exactly when a press was kept back within the last two seconds |
| ClaimFilter.BalancedIffAcceptedAtOnceOrNever | crates/poltertype-input/src/claim_filter.rs:6-9 | under the same proviso a keystroke is kept whole or passes whole exactly when a claim was waiting for its first press or for none |
| ClaimRace.NoClaimOutlivesItsDeadlines | crates/poltertype-input/src/claims.rs:56-72 | in every interleaving a read whose clock is past every deadline yields nothing |
| ClaimRace.DisarmedIsNotRead | crates/poltertype-input/src/claims.rs:62-72 | once the engine has disarmed, and until it next stores keys, every read yields nothing, in every interleaving |
| ClaimRace.MayDisarm | crates/poltertype-input/src/claims.rs:62-64 | the engine may disarm at any time, whatever it or a hook is doing, and no keys are armed then |
| ClaimRace.ExpiredKeysAreLentADeadline | crates/poltertype-input/src/claims.rs:56-72 | in every interleaving a read yields nothing or the last completed claim's keys; where that claim is over, the deadline loaded was that of a claim still being armed or of an earlier one since replaced |
| ClaimRace.ExpiredKeysCanBeReadIff | crates/poltertype-input/src/claims.rs:56-72 | for every run of the engine's own steps and every clock: some interleaving of exactly these with a hook leaves it about to read an expired claim's keys exactly when keys are armed and the clock lies from the last completed claim's end on and before the greatest deadline stored |
| ClaimRace.ClaimCanBeOutlivedIff | crates/poltertype-input/src/claims.rs:56-72 | so whether keys can outlive their claim for some hook is decided by the engine's schedule: exactly when keys are armed and some claim begun ends later than the last one completed |
| ClaimRace.ExpiredKeysOnlyWhileArming | crates/poltertype-input/src/claims.rs:56-72 | in every interleaving in which no claim ends before the one it follows, expired keys are read only while the claim whose deadline was loaded has yet to store its own |
| ClaimRace.OldKeysUnderNewDeadline | crates/poltertype-input/src/claims.rs:56-60 | a read nothing interrupts yields an expired claim's keys exactly while a later claim is half armed |
| ClaimRace.ExpiredKeysAreRead | crates/poltertype-input/src/claims.rs:56-72 | both ways of lending a deadline occur, for every key set |
| HoldGate.HoldState.HoldUntil | crates/poltertype-input/src/hold.rs:63-66 | the flag is up and the deadline set |
| HoldGate.HoldState.Release | crates/poltertype-input/src/hold.rs:68-70 | the flag is down, the deadline as it was |
| HoldGate.HoldState.Swallow | crates/poltertype-input/src/hold.rs:93-107 | the decision, alone: our own events pass, an expired hold is cleared |
| HoldGate.NeverSwallowsLate | crates/poltertype-input/src/hold.rs:59-107 | in every interleaving a swallowed keystroke is stamped less than 1200 ms after the latest begun hold |
| HoldGate.OursAreNeverDecided | crates/poltertype-input/src/hold.rs:93-96 | in every interleaving the keystroke under decision is the last one asked about that was not our own |
| HoldGate.UndisturbedDecision | crates/poltertype-input/src/hold.rs:93-107 | left to itself the stepwise decision is the sequential one, and after expiry leaves the hold cleared |
| HoldGate.ReleasedLetsPass | crates/poltertype-input/src/hold.rs:68-70 | once the engine has let go no keystroke is held back |
| HoldGate.HoldSurvivesUnlessClearing | crates/poltertype-input/src/hold.rs:93-107 | a hold in place catches the next keystroke in time exactly unless the decision under way clears it |
| HoldGate.HoldCanBeLostAtIff | crates/poltertype-input/src/hold.rs:59-107 | for every run of the engine's own steps and every keystroke time: some interleaving of exactly these with a hook leaves it about to clear the hold in place, deciding on a keystroke from before that hold's deadline, exactly when at some time a hold was in place whose deadline was no later than the keystroke |
| HoldGate.HoldCanBeLostIff | crates/poltertype-input/src/hold.rs:59-107 | so a hold can be lost to some hook exactly when another with an earlier deadline was in place before it |
| HoldGate.FreshHoldLost | crates/poltertype-input/src/hold.rs:93-107 | an interleaving that loses a fresh hold |
| DecisionCache.LookupIsLastDecision | crates/poltertype-ai/src/cache.rs:54-78 | after every run a lookup gives the key's last decision while the key is among the latest so many fresh insertions, and nothing otherwise: all of them, or at least one more than the larger half of the capacity |
| DecisionCache.SizeIsRetained | crates/poltertype-ai/src/cache.rs:58-78 | how many keys are stored, exactly, from the number of fresh insertions alone: all up to the capacity, then from one more than its larger half up to the whole of it, again and again; two for capacity one |
| DecisionCache.DecisionCache.Insert | crates/poltertype-ai/src/cache.rs:58-78 | the entries and the order after an insertion: nothing at capacity zero, an overwrite in place, or the older half dropped and the key appended |
| DecisionCache.CacheAgreesWithHistory | crates/poltertype-ai/src/cache.rs:54-78 | after every run each cached answer is its key's last decision, the order is duplicate-free and the keys exactly, and the keys are a suffix of the fresh insertions |
| DecisionCache.SizeIsBounded | crates/poltertype-ai/src/cache.rs:58-78 | never more entries than the capacity, two for capacity one |
| DecisionCache.CapacityOneHoldsTwo | crates/poltertype-ai/src/cache.rs:66-76 | the capacity is exceeded in some run exactly when it is one |
| DecisionCache.InsertedIsRemembered | crates/poltertype-ai/src/cache.rs:54-78 | what was just inserted is found |
| Wire.LiteralIsRead | crates/poltertype-ai/src/wire.rs:117-139 | what the reader makes of every string of section 7 of RFC 8259, lone surrogate escapes included |
| Wire.EscapeNamesCharacter | crates/poltertype-ai/src/wire.rs:126-134 | four digits are a character's own escape exactly when there is a character of that number, and half of a surrogate pair when not |
| Wire.PairNamesTheRest | crates/poltertype-ai/src/wire.rs:126-134 | every other character is named by some pair, which is what this reader does not know |
| Wire.HexDigitCounts | crates/poltertype-ai/src/wire.rs:126-134 | a hexadecimal digit counts by its place among the sixteen, in small letters or capitals |
| Wire.UnterminatedIsNothing | crates/poltertype-ai/src/wire.rs:117-139 | a string that is never closed is read as nothing |
| Wire.BadDigitsAreNothing | crates/poltertype-ai/src/wire.rs:126-134 | an escape without digits makes the string read as nothing, but for a plus sign before them, which is let through |
| Wire.ReadsAsStandardIffAgreed | crates/poltertype-ai/src/wire.rs:117-139 | the reader gives a JSON string its meaning under section 7 of RFC 8259, where all its escapes have one, exactly when it has no `\b`, `\f` or surrogate pair |
| Wire.StringReadsBack | crates/poltertype-ai/src/wire.rs:35-51 | every string, written and placed after a quote-free prefix and before any suffix, is read back |
| Wire.JsonStr | crates/poltertype-ai/src/wire.rs:35-51 | the loop writes the escapes of section 7 of RFC 8259 between quotes |
| Wire.ReadJsonString | crates/poltertype-ai/src/wire.rs:117-139 | the consuming loop reads the string after the first quote, or nothing where it breaks off |
| Wire.FindKey | crates/poltertype-ai/src/wire.rs:109 | the first occurrence of the key, or none when there is none |
| Wire.ExtractText | crates/poltertype-ai/src/wire.rs:103-113 | reads the string after the first colon after the first occurrence of the key, or nothing |
| Wire.AnswerIsExtracted | crates/poltertype-ai/src/wire.rs:103-139 | an answer written after its key, a colon and quote-free space is extracted unchanged |
| Choice.Prompt | crates/poltertype-ai/src/wire.rs:22-28 | the candidates numbered from one, a line each |
| Choice.ChosenIffNamed | crates/poltertype-ai/src/wire.rs:146-167 | a reply chooses candidate k exactly when its first run of digits, not negated, is a numeral for k + 1 within the count |
| Decimals.NamesNumberIff | crates/poltertype-ai/src/wire.rs:146-167 | a text names a number exactly when it is made of the ten numerals, at least one |
| Choice.EchoIsChosen | crates/poltertype-ai/src/wire.rs:22-28 | a reply that repeats a line of the prompt, whatever follows it, chooses that line's candidate |
| Choice.WholePromptChoosesFirst | crates/poltertype-ai/src/wire.rs:146-167 | a reply that repeats the whole prompt chooses the first candidate |
| Ico.Container | crates/poltertype-icon/src/ico.rs:44-69 | the running offsets lay out header, directory and images |
| Ico.IconReadsBack | crates/poltertype-icon/src/ico.rs:44-69 | a reader following the directory recovers the list of sizes and bytes, within the field widths; it refuses entries that are not square, or not of one plane of 32 bits a pixel |
| Ico.HeaderReadsBack | crates/poltertype-icon/src/ico.rs:47-49 | the file says it is an icon, and how many images it has |
| Dib.Dib | crates/poltertype-icon/src/ico.rs:78-114 | the nested row loops and OR-ed mask bits produce the bitmap |
| Dib.WriteMaskRow | crates/poltertype-icon/src/ico.rs:103-112 | OR-ing one bit per transparent pixel yields the bytes of the mask row |
| Dib.PackRowSets | crates/poltertype-icon/src/ico.rs:106-108 | setting a flag changes its own bit of its own byte only |
| Dib.BitmapReadsBack | crates/poltertype-icon/src/ico.rs:78-114 | a reader recovers every pixel of the buffer, and mask bit (x, y) is set exactly where alpha is 0, for every size |
| Dib.HeaderReadsBack | crates/poltertype-icon/src/ico.rs:80-90 | the bitmap header declares size, doubled height and depth |
| Dib.HeaderIsPlain | crates/poltertype-icon/src/ico.rs:80-90 | one plane, and zero in every field after the depth: uncompressed, no palette |
| Dib.StrideIsLeast | crates/poltertype-icon/src/ico.rs:80 | mask rows are the fewest whole 32-bit words with a bit for every pixel |
| Dib.BitmapLength | crates/poltertype-icon/src/ico.rs:78-114 | the length is header, colour rows and padded mask rows |
| Blit.MulU8 | crates/poltertype-popup/src/render.rs:82-84 | the product of two fractions of 255 to the nearest, never overflowing 16 bits |
| Blit.NothingSaturates | crates/poltertype-popup/src/render.rs:66-75 | over a premultiplied pixel no saturating addition saturates |
| Blit.InkIsWithinOneLevel | crates/poltertype-popup/src/render.rs:66-75 | every channel is within one level of the exact over operator |
| Blit.InkExtremes | crates/poltertype-popup/src/render.rs:62-75 | ink of zero effective alpha leaves any pixel alone, full ink replaces it |
| Blit.CoversOnlyItsOwn | crates/poltertype-popup/src/render.rs:50-61 | a mask inks only pixels inside its rectangle for which it still has a byte, by that byte |
| Blit.BlitRow | crates/poltertype-popup/src/render.rs:56-78 | one mask row inks exactly its pixels of that row of the picture |
| Blit.BlitMask | crates/poltertype-popup/src/render.rs:41-80 | every pixel takes exactly the ink its own coverage gives; those outside the clipped mask are unchanged |
| Blit.BlitAll | crates/poltertype-popup/src/renderer.rs:315-337 | a run of glyphs transforms every pixel by its own coverages in order |
| Blit.DrawingKeepsPixels | crates/poltertype-popup/src/render.rs:39-80 | over any run of masks pixels stay premultiplied and never turn more transparent, and an uncovered one is what it was |
| Scanner.Pending.Advance | xtask/src/style/text.rs:25-101 | one line takes the scanner to the mode a lexer reading that line is in, with at most one thing open; the loops terminate |
| Scanner.Pending.InText | xtask/src/style/text.rs:29-60 | one pass inside a string or comment is one step of the lexer |
| Scanner.Pending.InCode | xtask/src/style/text.rs:62-98 | one pass in code is one step of the lexer, to the line's end at most |
| Scanner.StepIsLocal | xtask/src/style/text.rs:25-101 | nothing beyond a line decides how the whole-text lexer steps inside it |
| Scanner.ScannerIsLexer | xtask/src/style/text.rs:25-101 | after any lines, whatever follows, the scanner is in exactly the mode in which a lexer of the whole text stands at the next line's start |
| Scanner.CarriedIntoLines | xtask/src/style/scan.rs:16-24 | a line is skipped as text exactly when a lexer of the whole text begins it inside a string or comment |
| Scanner.RawStringEndsAtFirstClose | xtask/src/style/text.rs:29-37 | a raw string runs to the first quote followed by as many hashes as opened it |
| Scanner.StringEndsAtFirstFreeQuote | xtask/src/style/text.rs:50-60 | a string runs to its first quote preceded by an even number of backslashes |
| Scanner.CommentsNest | xtask/src/style/text.rs:38-49 | an inner comment is read as if nothing surrounded it, and the outer one goes on where it ends |
| Scanner.NamesAreOf | xtask/src/style/text.rs:110-112 | the characters before which an `r` opens no raw string: letters, digits and the underscore |
| Text.LettersOnlyLower | crates/poltertype-detect/src/text.rs:13-23 | the loop lowercases the letters in order and drops the rest |
| Text.SurfaceLower | crates/poltertype-detect/src/text.rs:45-62 | apostrophes fold before letters are looked at, hyphens stay, letters are lowercased |
| Text.SplitJoins | crates/poltertype-detect/src/text.rs:91-100 | segments joined again spell the token, and no separator is in any of them |
| TokenShape.StraysCount | crates/poltertype-detect/src/text.rs:25-36 | strays are counted one by one; there are none exactly when every character is a letter, a hyphen or an apostrophe of one of three shapes |
| TokenShape.AcronymIff | crates/poltertype-detect/src/text.rs:69-84 | one to five letters, all capitals, and nothing else but space |
| TokenShape.CompoundIff | crates/poltertype-detect/src/text.rs:91-100 | a compound's segments: two or more, none empty, separated by a hyphen or a dot each, with neither inside |
| TokenShape.PairedIff | crates/poltertype-detect/src/text.rs:111-118 | renderings are paired exactly when both are compounds of as many segments |
| TokenShape.SegmentVouchesIff | crates/poltertype-detect/src/text.rs:120-124 | a segment speaks from three letters on, if it has no stray |
| Plausibility.ConsonantRun | crates/poltertype-detect/src/plausibility.rs:145-163 | the one-pass loop finds the true longest stretch without a vowel |
| Plausibility.WorstIsWorst | crates/poltertype-detect/src/plausibility.rs:42-52 | a dotted token's fit is below no segment's score and is some segment's |
| Plausibility.FitText | crates/poltertype-detect/src/plausibility.rs:42-52 | the fit: a dotted compound's worst segment, any other text's score, nothing without a profile |
| Verdicts.DottedIff | crates/poltertype-detect/src/plausibility.rs:193-204 | a dotted token is two or more pieces joined by dots, none empty, each of letters and word marks only |
| Plausibility.ScoreText | crates/poltertype-detect/src/plausibility.rs:118-178 | the score from script share, vowel share, longest consonant run and strays, between 0 and 1 |
| WordShape.FullMarksIff | crates/poltertype-detect/src/plausibility.rs:118-178 | a text in the layout's script, without strays and without three consonants in a row, scores 1 exactly when from 25 to 67 in a hundred of its letters are vowels |
| WordShape.FloorIff | crates/poltertype-detect/src/plausibility.rs:137-144 | such a text never scores below a half, and a half exactly when at most 6 or at least 86 in a hundred are vowels |
| WordShape.FurtherScoresLess | crates/poltertype-detect/src/plausibility.rs:137-144 | outside the band the one whose vowel share is further from 0.46 scores strictly less, down to that floor |
| WordShape.AlienLetterTakesOff | crates/poltertype-detect/src/plausibility.rs:127-131 | one letter more in another script takes off half of one letter's part of the text, or all that is left |
| WordShape.ConsonantsTakeOff | crates/poltertype-detect/src/plausibility.rs:146-169 | a third, a fourth and a fifth consonant in a row take off a quarter each, further ones nothing |
| WordShape.StrayTakesOff | crates/poltertype-detect/src/plausibility.rs:171-177 | every stray takes off 0.4 |
| WordShape.MistypedWordIsLeftBehind | crates/poltertype-detect/src/plausibility.rs:133-144 | five letters with one vowel and three consonants in a row score 0.425, a switch's advantage below any reading with full marks |
| Plausibility.BestRival | crates/poltertype-detect/src/plausibility.rs:76-88 | whether a segment has a rival reading, and the best rival's fit |
| Plausibility.BestAlternate | crates/poltertype-detect/src/plausibility.rs:260-271 | the first of the best-fitting other layouts |
| Plausibility.WellFormedEnough | crates/poltertype-detect/src/plausibility.rs:165-178 | a text that keeps itself at 0.7 has letters, no stray character and no four consonants in a row |
| Plausibility.CompoundKeeps | crates/poltertype-detect/src/plausibility.rs:69-99 | the veto holds exactly when some vouching segment leads every differing rival reading by 0.25, and there is one |
| Plausibility.Judge | crates/poltertype-detect/src/plausibility.rs:211-292 | each verdict by its meaning: Switch exactly when a candidate is long enough, nothing lets the text stand, the first best other layout leads by 0.25, and no segment vetoes |
| Plausibility.VerdictIsUnique | crates/poltertype-detect/src/plausibility.rs:211-292 | those meanings leave exactly one verdict |
| Verdicts.ShortTokensGetNone | crates/poltertype-detect/src/plausibility.rs:212-219 | without a rendering of three letters there is no opinion |
| Verdicts.ReadsWellIsKept | crates/poltertype-detect/src/plausibility.rs:221-262 | with one, a text that scores 0.7 as typed, an acronym, or a word of an abjad is kept |
| Verdicts.SwitchLeadsByAQuarter | crates/poltertype-detect/src/plausibility.rs:264-292 | a switch goes to a reading that leads by a quarter, away from one below 0.7 |
| Verdicts.LeadOfAQuarterDecides | crates/poltertype-detect/src/plausibility.rs:264-292 | where some other reading leads by a quarter and nothing lets the text stand, it is switched, or kept exactly when its segments veto |
| Verdicts.AbjadIff | crates/poltertype-detect/src/plausibility.rs:106-115 | the abjad exemption: a layout of an abjad, at least one letter, every letter of that script and every other character a word mark |
| Verdicts.AlphabetsAreTold | crates/poltertype-detect/src/enums.rs:41-57 | letters of each layout's alphabet belong to its script, digits and punctuation to none |
| Verdicts.BlocksBeginAndEnd | crates/poltertype-detect/src/enums.rs:41-57 | the first and last characters of each script's blocks, and that their neighbours outside belong to none |
| Plausibility.SwitchIsStable | crates/poltertype-detect/src/plausibility.rs:211-292 | after a switch the same keys never give another one, back or onward |

## Left out

- Everything around the cores: the event loop, tray, menus, notifications, settings, logging, autostart, operating-system backends, clipboard, keyring and HTTP clients.
- Rounding of `f32`: costs, scores and fits are exact real numbers, so a comparison within a rounding error of its threshold may differ.
- Foreign crates are parameters of which nothing more is assumed than stated: SHA-256 (hashing chunk by chunk is hashing their concatenation), Ed25519, PNG and base64, the FST and its Levenshtein search (a list of keys), the Unicode tables (arbitrary functions), the `semver` grammar.
- Versions.IsNewer: parsing is an arbitrary function, and builds are ordered by an arbitrary strict total order where precedence leaves them equal.
- Text.SurfaceLower: no idempotence is claimed, as full Unicode lowercasing need not have it.
- Suggester.ScoreAll: inserts each candidate into a sorted list, where the source collects and sorts at the end; the listing is unique, so the two agree. Text is compared by code point, which is how UTF-8 bytes compare.
- Suggester: `is_known`, the overlay's inflection matching and hot-swapping of word lists, which are membership tests.
- Dictionary.PrefixLetters: the automaton is a set of remaining byte strings; how the FST stores it is not modelled. `contains`, `is_weak` and the other lookups are set membership.
- Hunspell.ExpansionIsComplete: goes one way; derivations can disagree and still lose nothing, where what one of them would have queued is found by other routes. What is found is characterised exactly by ExpansionIsAccounted instead.
- Hunspell: the cross-product flag, which the source parses and never uses.
- AffBlocks.ParseAff: takes the file already cut into lines, and reports no error text.
- ClaimRace and HoldGate: sequentially consistent loads and stores, one engine thread and one hook; weaker memory orders are not modelled. Clocks are unbounded numbers.
- ClaimFilter.KeptThroughRelease: bound to the two-second rule as the source has it; a key whose kept-back press is older is let go.
- DecisionCache: the hash that makes a key of the candidates; two candidate lists with one key share a decision.
- Wire: request bodies and headers, which paste written strings into fixed templates.
- Ico.IconReadsBack: sizes from 1 to 256, and lengths and offsets within 32 bits; beyond, the fields wrap.
- Dib.Dib: sizes are unbounded; from 0x8000_0000 on the height field no longer holds twice the size.
- Blit.BlitMask: a pixel is one array element where the source has four bytes; index arithmetic does not wrap.
- Scanner: carriage returns, which the source's line splitting strips, and the item parser fed by it.
- Staging: what the artifact file contains, and steps of two processes at once; reading, clearing and writing are single steps whose failures leave anything the operating system may leave.
- Download: a power loss that persists the rename before the data; a crash here loses only what the writer still buffered. Sanitising of file names is not modelled, so a name is any string.
- Plausibility: the reasons attached to verdicts, and the other detectors.
