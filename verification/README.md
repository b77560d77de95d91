# Verified model of the Sentoris proxy

A Dafny 4.11 model of the parts of an LLM proxy that are algorithms or protocols rather than plumbing, with proofs of
what they promise. `dafny verify dfyconfig.toml` checks the whole project.

| module | what it models |
|---|---|
| StringOrder, Trimming, Decimals, Values, Positions | strings and their byte order, trimming, decimal texts, the Go values inside an `any`, positions in a JSON tree |
| Canonical, CanonicalParser | the canonical JSON printer and a parser that undoes it |
| Rfc8785, RfcText | where the printer departs from RFC 8785, for strings, numbers and keys and for whole values |
| Strip, Signer, SignatureCover | the part of a trace that is signed, signing and verifying it, and what a signature covers field by field |
| Merkle, BatchProofs, MerkleTree | Merkle hashing over sequences, the proofs made and checked with it, and the linked tree proved against both |
| EditDistance, Differ | edit distance over edit scripts, and the table, similarity and risk computed by the differ |
| BudgetStore, StreamBudget, ChatRequests | the memory and SQLite budget ledgers, stream interceptors and chat requests interleaved on a store |
| Masking | path-directed masking of decoded JSON |
| SseReader | the incremental event-stream parser |
| RateLimiter, Registry, KeyPool, CircuitBreaker | four small state machines and their guarantees over whole runs |

Classes and methods follow the code that updates fields, maps, slices and tables in place; each is proved against a
function, and the lemmas are about that function. Straight-line code that only builds a map (the section builders of the
signer) is a function. Amounts of money are exact reals, times are integers, strings are sequences of Unicode scalars.
A hash, the model router's prices, the format checks of the registry, the reading of an array index and the order in
which a map yields its keys are parameters or arbitrary choices. No hash is assumed to be injective: where a result would
need it, the lemma names the two texts on which the hash would have to collide. That hashes have a fixed width is
assumed only by lemmas that say so. A node of the Merkle tree gets its hash and children when it is made and only its
parent pointer changes, so the former are constants of the class.

## What the proofs found

The code is modelled as it is. Where it departs from its documentation or from what one would expect, a lemma says
exactly when.

- The canonicalization method is called `rfc8785`, but a form feed is printed as `\u000c`, minus zero as `-0`, NaN and
  the infinities as `null`, and keys are sorted by UTF-8 bytes instead of UTF-16 units (`RfcText.TextConformsIff`).
- A truncated response is signed with its control characters written out, so that it can be exchanged for one in which
  they already are (`SignatureCover.SanitizedAlikeIff`, `SignatureCover.EscapeSignedAlike`).
- A trace whose constraints carry a list of texts cannot be signed, because `[]string` is not a type the canonicalizer
  knows; nor can any trace of the chat handler, whose prompt is a slice of message structs
  (`Signer.SigningSucceedsIffSignable`, `Signer.ChatTracesAreNeverSigned`).
- The distance against an empty text is a byte count, so the returned number is not a metric in general
  (`Differ.DistanceIsEditDistanceIff`, `Differ.DistanceTriangleIff`).
- Repeating the greatest signature can keep the Merkle root, and since leaves and pairs are hashed alike, a signature that
  is the text of a pair can stand for the pair. Roots bind without such conditions only at equal size; when they coincide
  otherwise is `Merkle.SameRootIffSameFullLeaves` and `Merkle.WhenRootsCoincide`, and that they do
  `Merkle.RepeatedGreatestSameRoot` and `Merkle.PairTextAsSignature`.
- A batch proof is checked by taking one of its elements for each pair of each level, while it lists the path of one
  signature after the other. A tree therefore accepts the proof it makes for its own signatures only for one of one and
  for two of two, unless a signature is as long as two hashes or hashes collide (`BatchProofs.AcceptsOwnProofIff`); and
  while there are elements left only the first leaf hash is looked at (`BatchProofs.OnlyFirstLeafMatters`,
  `BatchProofs.PairAccepted`).
- A hard stop gives a stream's reservation back but leaves it on record in the interceptor; any later commit, rollback
  or paid chunk of that interceptor falsifies the store's books (`StreamBudget.StepBalancesIff`,
  `StreamBudget.HardStopThenCommitUnbalances`). The strategy is compared with `"degrade"`, while the domain constant is
  `"degrade_model"`, which therefore stops hard.
- The chat handler treats a reservation whose call returned an error as made, and commits the actual cost so that the
  rest of a reservation stays reserved (`ChatRequests.ClosedOnceIffGranted`, `ChatRequests.NothingLeftReservedIff`). On
  the memory store each request also replaces the budget shared by all, so that totals stay within it only under
  conditions (`ChatRequests.StepIsSoundIff`, `ChatRequests.FairRunsStayWithinBudget`).
- The event-stream parser takes the empty text after a trailing newline for a blank line, so a frame cut there comes out
  early (`SseReader.CallCutShort`, `SseReader.EarlyEvent`). A call returns one event at most, and the client makes one
  call for each read and none after the last, so a stream of more frames than reads loses events
  (`SseReader.FramesNeedChunks`). Exactly when a stream comes out right is `SseReader.EveryEventComesOutIff`.
- Registering a namespace a second time can close a cycle that no removal can undo, though registering once more can
  (`Registry.ReplacingKeepsAcyclicIff`, `Registry.SelfDependencyIsStuck`, `Registry.EveryRunCanBeUndone`).
- The key pool takes an empty key for none selected, so that an empty key behind another starves
  and the first key is returned in its place (`KeyPool.SharesEvenlyIff`, `KeyPool.EmptyKeyStarves`).

## Model

| member | source | states |
|---|---|---|
| Canonical.CanonicalizeString | pkg/jcs/canonical.go:80-114 | the escaping loop writes exactly the quoted text of which `CanonicalParser.StringReadBack` shows that it can be read back |
| Canonical.CanonicalizeValue | pkg/jcs/canonical.go:18-48 | dispatch on the dynamic type; the printed text, or the error naming the unsupported type |
| Canonical.CanonicalizeArray | pkg/jcs/canonical.go:116-133 | the array loop, comma-separated, stopping at the first error |
| Canonical.CanonicalizeArrayOfMaps | pkg/jcs/canonical.go:135-152 | the same for `[]map[string]any` |
| Canonical.CanonicalizeObject | pkg/jcs/canonical.go:154-185 | the printed object is a function of the map alone although the keys are collected in an arbitrary order |
| Canonical.IterationOrderIsIrrelevant | pkg/jcs/canonical.go:158-162 | sorting any enumeration of a key set gives the same sequence |
| StringOrder.SortedIsUnique | pkg/jcs/canonical.go:162 | an ascending sequence is determined by its multiset |
| StringOrder.EncodingReadsBack | pkg/jcs/canonical.go:106 | the bytes of a character are those of RFC 3629, section 3, and give it back |
| StringOrder.Utf8OrderAgrees | pkg/jcs/canonical.go:162 | the byte order in which Go sorts is the order of code points |
| StringOrder.Utf8Injective | pkg/jcs/canonical.go:112 | texts have equal UTF-8 bytes iff they are equal |
| CanonicalParser.StringReadBack | pkg/jcs/canonical.go:80-114 | a parser of string literals gives back any string from its printed form, with the rest of the text untouched |
| Decimals.OnlyDecimalText | pkg/jcs/canonical.go:69 | what is printed for a natural number is the one text of digits without a leading zero that has its value |
| CanonicalParser.NumberReadBack | pkg/jcs/canonical.go:50-70 | every integer within 2^53 and minus zero are read back from their printed form by a parser that takes no leading zeros |
| CanonicalParser.ReadBack | pkg/jcs/canonical.go:18-185 | unique readability: for every nested value that prints, the parser returns its normal form and stops exactly where the printed text ends |
| CanonicalParser.PlainRoundTrip | pkg/jcs/canonical.go:18-185 | for JSON data the parser returns the printed value itself, nothing is left over, and equal canonical bytes mean equal values |
| CanonicalParser.SameBytesIffSameValue | pkg/jcs/canonical.go:18-185 | two printable values have the same canonical bytes iff they are equal up to NaN or infinity being null and `[]map` being an array |
| CanonicalParser.PrintsIffSupported | pkg/jcs/canonical.go:45-46 | canonicalization fails iff a value of an unsupported type occurs at some depth, and the error names such a type |
| CanonicalParser.NormPrintsAlike | pkg/jcs/canonical.go:18-185 | a value and its normal form have the same canonical text |
| Rfc8785.StringConformsIff | pkg/jcs/canonical.go:87-108 | strings are escaped as RFC 8785 section 3.2.2.2 requires iff they hold no form feed |
| Rfc8785.NumberConformsIff | pkg/jcs/canonical.go:50-70 | integers, and no other numbers of the model, are printed as section 3.2.2.3 requires: as the digits of their value without a leading zero |
| Rfc8785.KeyOrderConformsIff | pkg/jcs/canonical.go:162 | two keys are ordered as in section 3.2.3 (UTF-16) iff they do not first differ between U+E000..U+FFFF and a scalar beyond U+FFFF |
| RfcText.TextConformsIff | pkg/jcs/canonical.go:18-185 | the printed text of a value is the one RFC 8785 prescribes iff no string or key in it holds a form feed, all its numbers are integers, and no object in it holds two keys on which the orders disagree |
| Strip.StripNonSignatureFields | pkg/jcs/canonical.go:207-242 | the map loop, in any iteration order, computes the stripped view |
| Strip.StripExtensionEntries | pkg/jcs/canonical.go:219-227 | the extension table without private and nil extensions |
| Strip.StripOneExtension | pkg/jcs/canonical.go:244-255 | one extension without its private fields, one level deep |
| Strip.StripArrayNonSignatureFields | pkg/jcs/canonical.go:257-267 | the array loop: objects directly inside are stripped, everything else kept |
| Strip.StrippingIsIdempotent | pkg/jcs/canonical.go:207-267 | stripping a stripped object changes nothing |
| Strip.FieldIsIgnoredIff | pkg/jcs/canonical.go:211-216 | setting or removing a field changes the view of no object iff its key is `internal_metrics` or begins with an underscore |
| Strip.ExtensionIsIgnoredIff | pkg/jcs/canonical.go:219-222 | the same of extensions: iff the name begins with an underscore |
| Strip.ExtensionFieldIsIgnoredIff | pkg/jcs/canonical.go:244-255 | the same of the fields of one extension |
| Strip.ExtensionsAreKeptIff | pkg/jcs/canonical.go:218-227 | the table of extensions is kept iff it holds a public extension that is not nil, and then holds just these |
| Strip.ViewHoldsIffCovered | pkg/jcs/canonical.go:207-267 | the view holds at every position what was there iff the position is covered, leaves with their values, and nothing else |
| Strip.FieldCoveredIff | pkg/jcs/canonical.go:207-235 | outside extensions and arrays a position is covered iff no key on the way is `internal_metrics` or begins with an underscore |
| Strip.ExtensionCoveredIff | pkg/jcs/canonical.go:244-255 | in an extension iff neither its name nor its field begins with one: deeper down everything is |
| Strip.ElementCoveredIff | pkg/jcs/canonical.go:257-267 | objects directly in an array are covered like any, and everything else in it as it is |
| Strip.HiddenFieldIsIgnored | pkg/jcs/canonical.go:211-216 | adding, changing or removing a hidden field leaves the view unchanged |
| Strip.EditIsSeenIffCovered | pkg/jcs/canonical.go:207-267 | changing the leaf at any position changes the view iff no step on the way to it is one that stripping drops |
| Signer.Sign | internal/service/audit/signer.go:18-38 | hash of the canonical bytes of the stripped map with the stored signature blanked; error for nil and for unprintable content |
| Signer.Verify | internal/service/audit/signer.go:40-55 | the verdict with its three errors; true iff there is a stored signature and signing again gives it |
| Signer.SignatureIgnoresStoredSignature | internal/service/audit/signer.go:23-24 | the signature does not depend on the stored one |
| Signer.OwnSignatureIsAccepted | internal/service/audit/signer.go:40-55 | a trace carrying the non-empty result of signing it is accepted |
| Signer.ForeignSignatureAcceptedIff | internal/service/audit/signer.go:40-55 | another trace is accepted under a signature iff its stripped view has the same normal form, or the hash collides on the two |
| Signer.SameSignatureIffSameView | internal/service/audit/signer.go:18-38 | equal signatures iff equal normal forms of the stripped views, or the hash collides on the two texts signed |
| SignatureCover.SignatureFixesTheTrace | internal/service/audit/signer.go:57-204 | two signable traces have the same signature iff they agree on every covered field: identity, times, covered prompt, parameters and metadata, response, positive counts and whole amounts, transitions, error, proof type, constraints, policy and extensions; or the hash collides on them |
| SignatureCover.SanitizedAlikeIff | pkg/jcs/canonical.go:282-296 | truncated responses are signed alike iff they are the same up to control characters of the one standing written out in the other |
| SignatureCover.EscapeSignedAlike | internal/service/audit/signer.go:107-121 | such responses exist: a control character and its six-character escape |
| Signer.SignatureIgnores | internal/service/audit/signer.go:93-204 | seeds, degrade actions, internal metrics and negotiated capabilities are not covered |
| Signer.SigningSucceedsIffSignable | internal/service/audit/signer.go:28-33 | signing succeeds iff no list of texts is in the constraints and what is covered of prompt, parameters, metadata, error details and extensions is printable |
| Signer.ChatTracesAreNeverSigned | internal/transport/http/handler.go:323-327 | the prompt the chat handler stores makes signing fail |
| Signer.TraceSections | internal/service/audit/signer.go:57-91 | the five sections and the extensions under their names, every other entry a text |
| MerkleTree.MerkleTree.constructor | internal/service/audit/merkle.go:34-87 | the linked tree is well formed and its leaves carry the hashes of the sorted signatures |
| MerkleTree.BuildLevel | internal/service/audit/merkle.go:56-78 | one level of parents: their hashes are the next level, both children point to them and they to the children, an odd last node on both sides |
| MerkleTree.MerkleTree.Build | internal/service/audit/merkle.go:54-86 | the level loop ends with a single node at the top |
| MerkleTree.MerkleTree.GetRootHash | internal/service/audit/merkle.go:89-94 | the hash at the top is the root of the leaf hashes, and empty for the empty tree |
| MerkleTree.MerkleTree.FindLeafNode | internal/service/audit/merkle.go:157-164 | the first leaf with the hash, or none |
| MerkleTree.MerkleTree.BuildProof | internal/service/audit/merkle.go:125-155 | for a leaf hash, a path of exactly the tree's height that folds to the root; for any other hash the empty path |
| Merkle.PathLeadsToRoot | internal/service/audit/merkle.go:125-155 | for every level and place, folding the hash along its siblings yields the root in as many steps as the tree is high |
| Merkle.HeightIsCeilLog2 | internal/service/audit/merkle.go:55-80 | the height is the rounded-up binary logarithm of the number of leaves |
| Merkle.PathBinds | internal/service/audit/merkle.go:43-87 | a path of exactly the tree's height that leads to the root starts at a leaf hash, or a text hashed on the path collides with one hashed in building the tree |
| Merkle.RootDeterminesLeaves | internal/service/audit/merkle.go:54-86 | at equal size the root determines all leaf hashes in order, or texts hashed in the two trees collide |
| Merkle.SameRootIffSameSignatures | internal/service/audit/merkle.go:43-87 | trees over equally many signatures have equal roots iff they hold the same signatures, or texts hashed in building them collide |
| Merkle.SameRootIffSameFullLeaves | internal/service/audit/merkle.go:54-86 | trees of any sizes have equal roots iff the leaves of the lower are the level of the higher at its height, both repeated as the trees repeat their odd nodes, or hashed texts collide |
| Merkle.WhenRootsCoincide | internal/service/audit/merkle.go:43-87 | of two lists of signatures with equal roots, the longer is the shorter with its greatest repeated, or the shorter has the lower tree and consists of texts of pairs hashed in the other, or hashed texts collide |
| Merkle.DifferentHeightsDifferentRoots | internal/service/audit/merkle.go:43-87 | if a signature of the lower tree is not as long as two hashes, trees of different heights have different roots or hashed texts collide |
| Merkle.PairTextAsSignature | internal/service/audit/merkle.go:43-87 | whatever the hash, every tree of two or more has the root of the tree over a single signature, the two hashes below its root put together: leaves and pairs are hashed alike |
| Merkle.RepeatedGreatestSameRoot | internal/service/audit/merkle.go:43-87 | such lists exist whatever the hash: giving the greatest of an odd number of signatures once more keeps the root |
| Merkle.RepeatedLastSameRoot | internal/service/audit/merkle.go:68-77 | repeating the last hash of an odd level of three or more keeps the root |
| MerkleTree.MerkleTree.GenerateBatchProof | internal/service/audit/merkle.go:96-123 | the root, the hashes of the sorted targets and their paths one after the other; nothing for the empty tree or no targets |
| MerkleTree.MerkleTree.VerifyProof | internal/service/audit/merkle.go:166-177 | accepts iff the root is the tree's and the recomputation yields it |
| BatchProofs.AcceptsOwnProofIff | internal/service/audit/merkle.go:96-228 | for signatures it holds a tree accepts its own proof if they are one of one or two of two; for any others only if a signature is as long as two hashes or hashed texts collide |
| BatchProofs.PairAccepted | internal/service/audit/merkle.go:179-228 | over two signatures a proof for any two is accepted whose first is one of them |
| BatchProofs.OnlyFirstLeafMatters | internal/service/audit/merkle.go:188-214 | with two elements for each leaf hash, the recomputed root depends on no leaf hash but the first |
| BatchProofs.TwoPairs | internal/service/audit/merkle.go:188-214 | what three or four leaf hashes and two elements make, on which side each stands |
| BatchProofs.ComputeRootFromProof | internal/service/audit/merkle.go:179-228 | the recomputation, consuming one proof element per pair |
| BatchProofs.NoProofRebuildsTree | internal/service/audit/merkle.go:179-228 | with no proof elements, recomputing from all leaf hashes yields the root of the tree |
| Differ.LevenshteinDistance | internal/service/diff/differ.go:324-368 | the table-filling loops return the byte length against an empty text and the edit distance otherwise |
| EditDistance.LevIsEditDistance | internal/service/diff/differ.go:350-367 | the table entry is the least length of a script of insertions, deletions and substitutions at any positions: some script attains it, none is shorter |
| EditDistance.Neighbours | internal/service/diff/differ.go:352-363 | neighbouring entries differ by at most one, which is why the diagonal alone suffices on equal runes |
| EditDistance.NoScriptIsShorter | internal/service/diff/differ.go:350-367 | no edit script is shorter than the table entry |
| EditDistance.Attained | internal/service/diff/differ.go:350-367 | a script of just that length is constructed |
| EditDistance.ZeroIffEqual | internal/service/diff/differ.go:350-367 | distance zero iff the texts are equal |
| EditDistance.Symmetric | internal/service/diff/differ.go:350-367 | the distance is symmetric |
| EditDistance.Triangle | internal/service/diff/differ.go:350-367 | the distance obeys the triangle inequality |
| EditDistance.Bounds | internal/service/diff/differ.go:343-367 | at least the difference of the lengths, at most the longer length |
| Differ.DistanceIsEditDistanceIff | internal/service/diff/differ.go:325-330 | the returned number is the edit distance iff it is not the case that one text is empty and the other holds a rune outside ASCII |
| Differ.DistanceTriangleIff | internal/service/diff/differ.go:324-368 | between two texts the returned number obeys the triangle inequality through every third iff it is not the case that one of the two is empty and the other neither ASCII nor a single rune of two bytes |
| Differ.Compare | internal/service/diff/differ.go:55-60 | distance and similarity of the two responses; the similarity is in [0, 1] and 1 iff they are equal |
| Differ.SimilarityInRange | internal/service/diff/differ.go:55-60 | for all texts the similarity is in [0, 1], is 1 iff they are equal, and is symmetric |
| Differ.SimilarityWeighed | internal/service/diff/differ.go:55-60 | the similarity times the longer length in bytes is that length less the distance; it is 0 iff the distance is that length, and not 0 |
| Differ.CalculateRiskScore | internal/service/diff/differ.go:250-262 | the clamped risk before rounding |
| Differ.RiskGrowsWithDistance | internal/service/diff/differ.go:250-262 | the risk is in [0, 1], never falls as the distance grows at fixed length, never falls when the model changes, and is 0 iff nothing changed |
| Differ.RiskAtEnds | internal/service/diff/differ.go:250-262 | the risk is one less the similarity, and a changed model adds a fifth of the similarity: 0 or 0.2 at distance 0, 1 at full distance |
| BudgetStore.MemoryBudgetStore.Reserve | internal/adapter/storage/storage.go:182-191 | refused iff less than the amount remains; otherwise the amount is added to the reserved total |
| BudgetStore.MemoryBudgetStore.Commit | internal/adapter/storage/storage.go:193-199 | the amount moves from reserved to used |
| BudgetStore.MemoryBudgetStore.Rollback | internal/adapter/storage/storage.go:201-206 | the amount leaves the reserved total |
| BudgetStore.MemoryBudgetStore.GetRemaining | internal/adapter/storage/storage.go:208-212 | what remains, not negative in a sound ledger |
| BudgetStore.MemoryBudgetStore.SetBudget | internal/adapter/storage/storage.go:230-235 | replaces the budget shared by all sessions and nothing else |
| BudgetStore.SQLiteBudgetStore.ReserveBudget | internal/adapter/storage/sqlite.go:738-772 | error without a row, refused beyond the total, else reserved; other rows untouched |
| BudgetStore.SQLiteBudgetStore.CommitBudget | internal/adapter/storage/sqlite.go:774-803 | error without a row or with too little reserved, else moved to used |
| BudgetStore.SQLiteBudgetStore.RollbackBudget | internal/adapter/storage/sqlite.go:805-834 | error without a row or with too little reserved, else released |
| BudgetStore.SQLiteBudgetStore.GetRemainingBudget | internal/adapter/storage/sqlite.go:836-850 | what remains of a session, never negative when the ledgers are sound |
| BudgetStore.SQLiteBudgetStore.SetSessionBudget | internal/adapter/storage/sqlite.go:852-864 | a fresh row for the session |
| BudgetStore.RunKeepsLedgersSound | internal/adapter/storage/sqlite.go:738-864 | over every run with non-negative amounts no session is overdrawn or negative, and sessions not named are left alone |
| BudgetStore.RunConserves | internal/adapter/storage/sqlite.go:738-834 | over every run, used grows by what was committed, and reserved by what was granted less what was committed and rolled back; what remains shrinks by the grants and grows by what is given back |
| BudgetStore.AnswerIff | internal/adapter/storage/sqlite.go:738-834 | which of the errors and refusals an operation gets, and that they change nothing |
| BudgetStore.GrantsFitIff | internal/adapter/storage/sqlite.go:738-772 | amounts reserved one after the other are all granted iff their sum is at most what remains |
| BudgetStore.SettingStartsAfresh | internal/adapter/storage/sqlite.go:852-864 | setting a session leaves just the amount to be granted, whatever was used or reserved before, and the other sessions alone |
| BudgetStore.StoresAgreeIff | internal/adapter/storage/storage.go:182-206 | on a session the two stores take the same step and give the same answer iff no more is closed than is open |
| BudgetStore.StoresAgree | internal/adapter/storage/sqlite.go:738-834 | over every run that never closes more than is open, the SQLite session and the memory store end in the same sound state |
| StreamBudget.EstimateTokens | internal/service/governance/stream_budget_interceptor.go:34-50 | the counting loop rounds up half a token per Chinese and a quarter per other character |
| StreamBudget.EstimateIsLeast | internal/service/governance/stream_budget_interceptor.go:34-50 | the estimate is the least number of tokens four times which is at least the number of characters and ideographs U+4E00 to U+9FFF taken together |
| StreamBudget.ChunkedEstimate | internal/service/governance/stream_budget_interceptor.go:34-50 | estimating k chunks never gives less than the whole text and at most floor(3k/4) tokens more |
| StreamBudget.ChunkedCost | internal/service/governance/stream_budget_interceptor.go:97-110 | at a fixed non-negative price the cost obeys the same bounds |
| StreamBudget.StreamHoldsItsCharge | internal/service/governance/stream_budget_interceptor.go:67-95 | a stream granted throughout holds exactly the charge of its chunks, in the interceptor and in the store |
| StreamBudget.StreamBudgetInterceptor.Intercept | internal/service/governance/stream_budget_interceptor.go:67-95 | the effect of a chunk on store and interceptor; the stream ends iff it has a limit, less remains than the chunk costs, and the strategy is neither `degrade` nor `soft_alert` |
| StreamBudget.StreamBudgetInterceptor.EstimateCost | internal/service/governance/stream_budget_interceptor.go:98-110 | the charge at the average price, with default prices when either is missing or zero |
| StreamBudget.ChargedAtBothPrices | internal/service/governance/stream_budget_interceptor.go:98-110 | tokens are charged half at the price of input and half at that of output per thousand; with either missing or zero, a thousand cost 0.002 |
| StreamBudget.StreamBudgetInterceptor.HandleBudgetExceeded | internal/service/governance/stream_budget_interceptor.go:113-139 | hard stops release the reservation and keep its amount on record; degrading changes the model; alerts go on |
| StreamBudget.StreamBudgetInterceptor.Commit | internal/service/governance/stream_budget_interceptor.go:142-151 | commits a positive reservation and forgets it |
| StreamBudget.StreamBudgetInterceptor.Rollback | internal/service/governance/stream_budget_interceptor.go:154-163 | rolls a positive reservation back and forgets it |
| StreamBudget.StepKeepsInv | internal/service/governance/stream_budget_interceptor.go:67-163 | every step of an interceptor not closed by a hard stop keeps the books and the budget |
| StreamBudget.EveryRunBalances | internal/service/governance/stream_budget_interceptor.go:67-163 | for any number of interceptors and any interleaving, reserved is the sum of the open reservations, used the sum committed, and together they stay within the budget |
| StreamBudget.StepBalancesIff | internal/service/governance/stream_budget_interceptor.go:115-120 | exactly which steps keep the books: all but those of a hard-stopped interceptor, except a chunk that costs nothing |
| StreamBudget.HardStopThenCommitUnbalances | internal/service/governance/stream_budget_interceptor.go:115-149 | from a fresh store, a stream granted one chunk and stopped hard at the next falsifies the books when it is committed |
| Masking.MaskValue | internal/service/governance/budget_service.go:310-331 | every leaf below is redacted, maps and arrays rebuilt |
| Masking.TraverseAndMask | internal/service/governance/budget_service.go:256-302 | the recursive rewriting through the pointer, with wildcards, brackets and indices |
| Masking.MaskAllFields | internal/service/governance/budget_service.go:268-273 | the wildcard over a map, entry by entry in any order |
| Masking.MaskAllElements | internal/service/governance/budget_service.go:282-299 | the wildcard over an array, element by element in place |
| Masking.MaskFieldsByPaths | internal/service/governance/budget_service.go:235-244 | the loop over the paths |
| Masking.MaskPathLeaf | internal/service/governance/budget_service.go:256-331 | one path redacts a leaf iff it matches a prefix of the leaf's position |
| Masking.MaskPathsLeaf | internal/service/governance/budget_service.go:235-331 | after masking, a leaf is "[REDACTED]" if some path matches a prefix of its position and unchanged otherwise |
| Masking.KeysMask | internal/service/governance/budget_service.go:265-278 | a path of plain parts redacts a leaf iff its position begins with the keys they name |
| Masking.WildcardMasks | internal/service/governance/budget_service.go:266-302 | `*` redacts all of a map or an array, `[*]` and `[]` all of an array |
| Masking.IndexMasks | internal/service/governance/budget_service.go:281-296 | an index in brackets redacts the one element it reads as, and nothing if there is none |
| Masking.MaskPathsShape | internal/service/governance/budget_service.go:235-331 | maps keep their keys, arrays their lengths, leaves stay leaves |
| Masking.ShapeAndLeavesDetermine | internal/service/governance/budget_service.go:235-331 | shape and leaves determine a value, so the two results above determine the masked value |
| Masking.PathOrderIsIrrelevant | internal/service/governance/budget_service.go:235-242 | the result depends only on the set of paths, not on order or repetition |
| Masking.MaskingIsIdempotent | internal/service/governance/budget_service.go:235-242 | masking again with the same paths changes nothing |
| ChatRequests.HandleChatCompletions | internal/transport/http/handler.go:305-534 | the handler leaves state, log and store as the atomic steps of the request do when run alone: finalized iff not blocked, routed, not refused and answered; the log of exactly the states gone through; the store with the new limit, the reservation and what closed it |
| ChatRequests.ReserveBudget | internal/transport/http/handler.go:431-475 | setting and reserving the budget, and when the request counts as having reserved |
| ChatRequests.CallUpstream | internal/transport/http/handler.go:477-534 | one commit of the cost or rollback of the reservation if reserved; finalized iff the upstream answers |
| ChatRequests.OutcomeIff | internal/transport/http/handler.go:305-523 | over every interleaving a finished request is finalized iff it is not blocked, has a provider, has reserved if it had to and was answered; and which states its log has gone through |
| ChatRequests.RefusedIff | internal/transport/http/handler.go:454-471 | a request ends at its reservation iff the store answers that less remains |
| ChatRequests.AloneOutcome | internal/transport/http/handler.go:305-523 | how a request alone ends and what it leaves in the store, in closed form |
| ChatRequests.StateTransitionRecorder.RecordTransition | internal/transport/http/state_transitions.go:19-25 | appends the transition; the log stays unbroken iff it starts where the log ends |
| ChatRequests.StateTransitionRecorder.RecordConstraintEval | internal/transport/http/state_transitions.go:35-41 | appends from the last recorded state, by default INIT; keeps the log unbroken |
| ChatRequests.StateTransitionRecorder.RecordExecuting | internal/transport/http/state_transitions.go:43-49 | appends from the last recorded state, by default CONSTRAINT_EVAL; keeps the log unbroken |
| ChatRequests.StateTransitionRecorder.RecordValidation | internal/transport/http/state_transitions.go:51-53 | appends from EXECUTING whatever was recorded last, which breaks a log that does not end there |
| ChatRequests.StateTransitionRecorder.RecordFinalized | internal/transport/http/state_transitions.go:55-61 | appends from the last recorded state, by default VALIDATION; keeps the log unbroken |
| ChatRequests.StateTransitionRecorder.RecordFailed | internal/transport/http/state_transitions.go:63-69 | appends from the last recorded state, by default EXECUTING; keeps the log unbroken |
| ChatRequests.AppendIsLegalIff | internal/domain/trace.go:218-233 | appending keeps a log legal iff the transition starts where the log ends and is permitted |
| ChatRequests.LegalLogIff | internal/domain/trace.go:218-233 | there are eight legal logs, listed by the states they go through |
| ChatRequests.FinalStatesEndLogs | internal/domain/trace.go:214-233 | no legal log goes on after FINALIZED or FAILED |
| ChatRequests.StepKeepsRequestOk | internal/transport/http/handler.go:305-534 | every step keeps a request's log legal, its point and state in line and its reservation closed at most once, and brings it nearer its end |
| ChatRequests.EveryRunIsOk | internal/transport/http/handler.go:305-534 | all requests stay so over every interleaving, and the store holds what they have left in it |
| ChatRequests.EveryRunFromIdle | internal/transport/http/handler.go:305-534 | from an idle store: every log is a chain of permitted transitions ending in the current state, and the store's totals are the sums over the requests |
| ChatRequests.FinalStatesAreNeverLeft | internal/domain/trace.go:214-216 | a request in a final state keeps its state and log whatever happens after |
| ChatRequests.ClosedOnceIffGranted | internal/transport/http/handler.go:456-512 | a finished request has made one Commit or Rollback call if granted a reservation and otherwise none, iff it did not come to a Reserve call that returned an error; never more than one |
| ChatRequests.NothingLeftReservedIff | internal/transport/http/handler.go:507-512 | a granted request leaves nothing reserved iff it failed or cost exactly the reservation |
| ChatRequests.ReservationCovers | internal/transport/http/handler.go:435-446 | the reservation pays for any answer within 1000 input and 4000 output tokens |
| ChatRequests.ReservationIsExact | internal/transport/http/handler.go:435-446 | it is what exactly that answer costs, a price of zero standing for 0.001 and 0.002 |
| ChatRequests.StepIsSoundIff | internal/transport/http/handler.go:450-512 | exactly which steps of a request leave the store within its budget and its figures non-negative |
| ChatRequests.FairRunsStayWithinBudget | internal/transport/http/handler.go:431-512 | if every request that reserves carries the store's limit, costs no more than it reserved and is answered, every interleaving keeps reserved plus used within the budget |
| SseReader.SSEReader.ParseEvent | internal/adapter/upstream/sse_reader.go:30-64 | the event found in buffer and new data, and the buffer left |
| Trimming.TrimCutsEnds | internal/adapter/upstream/sse_reader.go:38 | what trimming leaves has none of the characters at either end, and it cuts off nothing else |
| Trimming.TrimIsBetween | internal/adapter/upstream/sse_reader.go:38 | however a text is cut between such ends, trimming yields what is between |
| SseReader.LineAdds | internal/adapter/upstream/sse_reader.go:38-60 | a line adds the text behind `data:`, or sets the type to that behind `event:`, without the white space of Unicode around any of its parts; any other line adds nothing |
| SseReader.EventOfFields | internal/adapter/upstream/sse_reader.go:38-60 | the event of a frame has the last type named and the texts of its data, a newline between each two |
| SseReader.ReturnsDoNotMatter | internal/adapter/upstream/sse_reader.go:38 | a frame whose lines end in carriage returns is a frame of the same event |
| SseReader.Unprocessed | internal/adapter/upstream/sse_reader.go:46-52 | the unprocessed lines written back |
| SseReader.EachCallLeavesASuffix | internal/adapter/upstream/sse_reader.go:30-64 | the consumed text and the buffer left together are the old buffer and the new data; without an event nothing is consumed |
| SseReader.CallAtEnd | internal/adapter/upstream/sse_reader.go:38-54 | a call that has received a frame into its blank line returns that frame's event, with an event type left over before it, and leaves the rest of the stream |
| SseReader.CallBeforeEnd | internal/adapter/upstream/sse_reader.go:38-63 | a call that has neither done so nor finds the frame cut short returns nothing and keeps everything |
| SseReader.CallCutShort | internal/adapter/upstream/sse_reader.go:38-54 | a call that finds the frame broken off after data, in a line blank so far, returns an event of the lines so far; the others are still to come |
| SseReader.RunIff | internal/adapter/upstream/sse_reader.go:30-64 | for any stream of frames and any chunking of a beginning of it, the calls return the first frames' events in order iff every call that returns an event has seen what makes that of the next frame |
| SseReader.RunGoesOn | internal/adapter/upstream/sse_reader.go:30-64 | then the buffer and what is still to come are the other frames |
| SseReader.Drain | internal/adapter/upstream/sse_reader.go:30-64 | once everything is received, calls without data return the remaining events one by one |
| SseReader.EveryEventComesOutIff | internal/adapter/upstream/real_client.go:195-230 | the calls made while a stream comes in, one for each chunk read, return exactly its events iff the cuts are faithful and leave no frame for later, a condition on the frames and the positions of the cuts |
| SseReader.FramesNeedChunks | internal/adapter/upstream/real_client.go:195-230 | a stream of more frames than chunks never comes out whole, however it is cut: two frames in one read lose the second |
| SseReader.EveryEventComesOut | internal/adapter/upstream/sse_reader.go:30-64 | it comes out whole if no call finds the frame it is at cut short and none is left for later; for frames that end in a data line, only then |
| SseReader.EveryFrameComesOutOnceIff | internal/adapter/upstream/sse_reader.go:30-64 | with further calls without data after the last chunk, a stream comes out as exactly its events iff the cuts are faithful |
| SseReader.EventIsRightIff | internal/adapter/upstream/sse_reader.go:38-54 | an event returned is that of the frame iff no line of the frame still to come has data and the event type is right already |
| SseReader.EveryFrameComesOutOnce | internal/adapter/upstream/sse_reader.go:30-64 | with such further calls it does if no call finds the frame it is at cut short; for frames that end in a data line, only then |
| SseReader.GoodCutsSpare | internal/adapter/upstream/sse_reader.go:30-64 | that is so if at every cut of the stream the pending line is not blank, or ends a frame or comes before its data, whichever call meets the cut |
| SseReader.EarlyEvent | internal/adapter/upstream/sse_reader.go:38-53 | every frame that ends in a data line comes out wrong when cut after a line with some data before it |
| RateLimiter.RateLimiterHook.PreExecute | internal/service/hooks/hooks.go:320-370 | window opened, request counted, or limit exceeded; the session's counter updated and no other |
| RateLimiter.AnyMinuteAdmitsUnderTwiceTheLimit | internal/service/hooks/hooks.go:342-360 | in every run with non-decreasing times, any interval of at most sixty seconds admits at most twice the limit less one for a session, the limit being 100 if none is set |
| RateLimiter.BoundIsMet | internal/service/hooks/hooks.go:342-360 | a run in order of time that meets this bound |
| RateLimiter.EachWindowAdmitsTheLimit | internal/service/hooks/hooks.go:342-360 | each window admits at most the limit in its sixty seconds |
| RateLimiter.NthInWindow | internal/service/hooks/hooks.go:342-368 | a request is told its number in its window, or that it exceeds the limit; later than sixty seconds after the opening it opens a window |
| RateLimiter.OthersDoNotMatter | internal/service/hooks/hooks.go:339-352 | what a session is admitted is what it would be admitted alone |
| Registry.ExtensionRegistry.Register | internal/service/extensions/registry.go:108-129 | the first validation, conflict or dependency error, or the entry stored under its namespace |
| Registry.RegistersIff | internal/service/extensions/registry.go:108-129 | an entry is registered iff its formats are valid, no mandatory field is empty, none of its conflicts is registered and all its dependencies are; otherwise nothing changes |
| Registry.RefusalIff | internal/service/extensions/registry.go:69-124 | which error: the first mandatory field missing, the first conflict registered, the first dependency missing |
| Registry.ExtensionRegistry.Remove | internal/service/extensions/registry.go:147-163 | removes iff registered and nothing depends on it; a refusal names a dependent |
| Registry.ExtensionRegistry.LoadFromConfig | internal/service/extensions/registry.go:193-206 | registers in order, stops at the first error and returns it |
| Registry.LoadStopsAt | internal/service/extensions/registry.go:193-206 | loading goes as far as the first entry refused and keeps those before; without an error all are registered |
| Registry.RunKeepsClosed | internal/service/extensions/registry.go:108-206 | after any run every dependency of a registered extension is registered |
| Registry.FreshRunKeepsAcyclic | internal/service/extensions/registry.go:108-206 | runs that register only absent namespaces close no cycle |
| Registry.SomethingRemovable | internal/service/extensions/registry.go:147-163 | a non-empty registry without cycles has an entry that can be removed |
| Registry.CanBeEmptiedIffAcyclic | internal/service/extensions/registry.go:147-163 | a registry can be emptied by removals iff its dependencies have no cycle |
| Registry.FreshRunCanBeEmptied | internal/service/extensions/registry.go:108-206 | from empty, runs that register only absent namespaces leave a registry that can be emptied |
| Registry.ReplacingKeepsAcyclicIff | internal/service/extensions/registry.go:127 | replacing an entry closes no cycle iff no dependency of the new entry depends, through others, on that namespace |
| Registry.SelfDependencyIsStuck | internal/service/extensions/registry.go:121-127 | an extension registered again with itself as dependency is accepted, and removals alone can never empty the registry again |
| Registry.EveryRunCanBeUndone | internal/service/extensions/registry.go:108-206 | after any run from empty some further run, registering entries again without dependencies and removing them, empties the registry |
| KeyPool.KeyPool.AddKey | internal/service/security/key_manager.go:34-39 | the key is added unused |
| KeyPool.KeyPool.Next | internal/service/security/key_manager.go:42-67 | for any iteration order a least-used key, counted once more; the first key when the empty key is least used |
| KeyPool.PicksStayEven | internal/service/security/key_manager.go:42-67 | over any run with distinct keys, the empty one at most in front, no count exceeds another by more than one, and the counts add up |
| KeyPool.UsesAreShared | internal/service/security/key_manager.go:34-67 | after k < 2^63 calls on n such keys every count is k/n rounded down or up, and they sum to k |
| KeyPool.SharesEvenlyIff | internal/service/security/key_manager.go:42-67 | every run of a pool of distinct keys uses them evenly iff the pool does not hold the empty key behind another |
| KeyPool.EmptyKeyStarves | internal/service/security/key_manager.go:42-67 | otherwise, over every run of n keys the empty key is never returned, every key but the first once at most, and the first in all but at most n - 2 calls |
| CircuitBreaker.CircuitBreaker.Execute | internal/adapter/upstream/fault_tolerant_client.go:150-176 | the breaker's new state, whether the function ran, and whether the caller gets a result |
| CircuitBreaker.BreakerFollowsFailures | internal/adapter/upstream/fault_tolerant_client.go:150-176 | over any run the breaker is never half open between calls, counts the failures since the last success, and is open iff they reach the threshold |
| CircuitBreaker.RefusedIff | internal/adapter/upstream/fault_tolerant_client.go:151-157 | the function is not run iff at least the threshold of calls failed since the last success and the timeout since the last failure has not passed |
| CircuitBreaker.ThresholdMustBePositive | internal/adapter/upstream/fault_tolerant_client.go:164-166 | open iff the failures reach the threshold holds over all runs iff the threshold is positive |

## Left out

- Fractional numbers (pkg/jcs/canonical.go:72-77) and integers beyond 2^53 are not values of the model: their printing is lossy.
- Strings that are not valid UTF-8, which the printer maps to U+FFFD, are not values of the model.
- SignatureCover.SignatureFixesTheTrace: amounts are whole dollars, since fractional numbers are not values of the model.
- JSON decoding and VerifyFromJSON are foreign code.
- SHA-256, Ed25519 signatures, AES, JWT and RSA keys are not modelled; the hash is a parameter.
- Rounding of the risk score to two decimals, the field-difference report and the recommendation ladder.
- Masking starts from the split parts of a path; trimming, the `$.` prefix and splitting on dots are left out, and so is masking by detected patterns when no path is given.
- Masking.TraverseAndMask: works on values, the result standing for what the pointer refers to afterwards; decoded JSON has no sharing, so update in place is not observable.
- ChatRequests.HandleChatCompletions: trace storage, hooks, response headers, masking of the answer and signing are left out; hooks are assumed not to change the execution state, and the time of a transition is not recorded.
- ChatRequests.EveryRunIsOk: is about the memory store, whose calls fail only when the environment says so for Reserve; a SQLite commit beyond the reservation would be refused.
- The PostgreSQL and Redis stores, SQL text and database failures.
- Floating-point rounding of amounts and similarities; token estimates are exact in the range of the code.
- SseReader.SSEReader.ParseEvent: works on Unicode scalars, so a chunk boundary inside a multi-byte character is not modelled, and what processEvent makes of the data is left open. Text after the last frame of a stream is not part of it.
- KeyPool.UsesAreShared: is stated for at most 2^63 - 1 calls; wrap-around of a count is not modelled.
- Chat retries around the circuit breaker and the breaker's behaviour under concurrent calls, for which it has no lock.
- Extension handlers, capability filters and version comparison in the registry.
- HTTP routing, middleware, UI, configuration, metrics, deprecation notices, the PII detector and the input sanitizer.
