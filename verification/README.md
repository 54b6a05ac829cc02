# A verified model of the connection monitor

This project models the stateful parts of the connection-monitoring service and proves what they promise.
To verify: `dafny verify dfyconfig.toml` (Dafny 4.11).

What is modelled, one module per component:

- **The encrypted router session.** `Padding`, `Base64`, `Codec`, `Signature` and `EncryptedLogin` (with `Text`) model PKCS#7 padding
  (section 6.3 of RFC 5652), base64 (section 4 of RFC 4648, with the reading rules of Go's decoder), CBC chaining
  (section 6.2 of NIST SP 800-38A) and the signatures cut into 53-byte pieces (OAEP: section 7.1 of RFC 8017).
  The block cipher, RSA and HMAC are parameters; all that is assumed of them is written in `Codec.IsPermutation`
  and `Signature.LawfulAt`, each with a lemma that it can be met.
- **Reading clients out of arbitrary JSON.** `Extraction`, `VisitOrder`, `RouterSample`, `ReportedSums`, `LooseSums` and
  `Finders` model the recursive walk in Go's arbitrary map order, the keyed merge, the reported sample and the searches for a
  single value; they prove what every walk agrees on, and for each number, text, sum and search exactly which values are possible.
- **The session cache and the login fallback.** `SessionCache` interleaves any number of concurrent calls;
  `RouterLogin` drives one login against arbitrary replies.
- **Outages and the speed-test guard.** `Outage`, `Openings`, `OutageBlocks`, `MissedReads` and `SpeedGuard`.
- **Users, sessions and stored time.** `Accounts`, `AccountsHistory`, `Credentials`, `Calendar` and `Timestamps`.
- **The event outbox.** `Outbox` and `OutboxHandOff` interleave writers with a helper that may crash at any point.
- **Migrations, the latency summary and the cleaning of lists.** `Migrations`, `LatencyStats`, `StringLists`.

How it is built. Each stateful component of the source is a class whose methods state the whole new state by a specification
function; the theorems are lemmas about that function over every run. Concurrency is a machine of atomic steps with the
interleaving as an arbitrary sequence. A store call that fails has no effect; which ones fail is part of the input.
Where a specification function fixes what is stored or sent, its value is also pinned from outside: by the inputs of the run, by
a parser with the literal names, by a closed form, or position by position.

Where the code does not do what one would expect, the code is kept and the exact condition is proved:

- Timestamps compared as text are out of order exactly when two instants lie in one second and one trimmed fraction is a
  proper prefix of the other (`Timestamps.InvertedExactly`); a "latest" row can be almost a second too old, and the rows of a
  window are given exactly by `Timestamps.WindowExactly`.
- A round whose read of the active outage fails is skipped without touching the failure counter. An outage that is opened
  is genuine exactly if no success among the last threshold rounds went unread (`MissedReads.OpeningIsGenuineExactly`). The
  stored state is wrongly open exactly if enough rounds were read and such a success was missed, and wrongly not open exactly
  if more of the failed rounds went unread than were counted before them (`MissedReads.StatusIsRightExactly`).
- The base64 decoder skips line breaks and ignores stray bits, so re-encoding gives the same text exactly for canonical
  text (`Codec.EncryptOfDecrypt`).
- The padding byte is truncated, so block sizes beyond 255 lose data exactly when the padding length needs more than a
  byte (`Padding.RoundTripExactly`).
- A client's reported number or text depends on Go's map order exactly if more than one value can come first in a walk
  (`VisitOrder.NumberIndependentExactly`, `VisitOrder.TextIndependentExactly`). A reported sum does exactly if the responses can
  add up to more than one value (`ReportedSums.SumFixedExactly`): it can be fixed though the numbers in it are not
  (`LooseSums.TwoLooseNumbersCanCancel`).
- So do a reply's `success`, token and code: a search has one answer exactly if at most one match can come first
  (`Finders.FixedExactly`), and there is a reply that reads as a success and as a failure (`Finders.SuccessDependsOnOrder`).
- A failed read of version 1 is swallowed by the migration loop: the first migration ran once exactly if no committed later
  start had one (`Migrations.FirstRunsAgainExactlyOnMisread`).
- Cleaning a list twice is cleaning it once exactly if every value read either fits or is cut where nothing is left to trim
  (`StringLists.AgainChangesNothingExactly`).
- Two events share a file name exactly if stamp and id agree once sanitised (`Outbox.NamesCollideExactly`), and an event is sent
  exactly once more than the helper crashed between sending and moving it (`OutboxHandOff.LeavingMeansSent`).

## Model

| member | source | states |
|---|---|---|
| Padding.Pkcs7Pad | services/api/internal/router/tplink.go:758-766 | the buffer filled in place is the data followed by padding-length copies of the padding length, truncated to a byte |
| Padding.PaddedBytes | services/api/internal/router/tplink.go:758-766 | what follows the data is as many bytes as each of them says (low eight bits), up to a whole block |
| Padding.Pkcs7Unpad | services/api/internal/router/tplink.go:768-782 | the checking loop accepts exactly the non-empty whole blocks ending in as many copies of the last byte as it says, and tells the two errors apart |
| Padding.UnpadInvertsPadExactly | services/api/internal/router/tplink.go:758-782 | for block sizes 1 to 255, unpadding gives `plain` if and only if the data is the padding of `plain` |
| Padding.RoundTripExactly | services/api/internal/router/tplink.go:758-782 | for every block size the round trip works if and only if the padding length fits in a byte |
| Base64.DecodeOfEncode | services/api/internal/router/tplink.go:734-738 | decoding inverts encoding on all byte strings |
| Base64.EncodeOfDecode | services/api/internal/router/tplink.go:734-738 | encoding inverts a successful decoding exactly on canonical texts: no line breaks, no stray bits in the last quantum |
| Base64.SymbolsOfTheAlphabet | services/api/internal/router/tplink.go:734-738 | the sixty-four symbols, one by one, of Table 1 of RFC 4648 |
| Base64.QuantumSpells | services/api/internal/router/tplink.go:734-738 | the four symbols of three bytes spell the same number, high bits first |
| Base64.DecodedAreSymbols | services/api/internal/router/tplink.go:737-740 | nothing but line breaks is skipped: a text with any other foreign character does not decode |
| Codec.CbcDecryptOfEncrypt | services/api/internal/router/tplink.go:732-733 | CBC decryption inverts CBC encryption for any permutation of blocks, key, IV and number of blocks |
| Codec.CbcEncryptOfDecrypt | services/api/internal/router/tplink.go:749-750 | CBC encryption inverts CBC decryption likewise |
| Codec.XorByteAt | services/api/internal/router/tplink.go:732-733 | the byte operation under the chaining is exclusive or, bit by bit |
| Codec.CbcEncryptAt | services/api/internal/router/tplink.go:732-733 | every ciphertext block is the encryption of its plaintext block after exclusive or with the ciphertext block before it, the first with the vector |
| Codec.CbcDecryptAt | services/api/internal/router/tplink.go:749-750 | every plaintext block is the decryption of its ciphertext block after exclusive or with the ciphertext block before it, the first with the vector |
| Codec.AesCbcEncryptBase64 | services/api/internal/router/tplink.go:726-735 | pad, chain and print, or the key-size error |
| Codec.CiphertextBlocks | services/api/internal/router/tplink.go:726-735 | the text printed decodes to a ciphertext each block of which is chained so over the padded data |
| Codec.AesCbcDecryptBase64 | services/api/internal/router/tplink.go:737-756 | the four error cases in the order the code tests them, else the unpadded plaintext |
| Codec.DecryptsExactlyTheCiphertexts | services/api/internal/router/tplink.go:726-782 | a text decrypts to `plain` if and only if its base64 payload is the raw ciphertext of `plain` |
| Codec.DecryptOfEncrypt | services/api/internal/router/tplink.go:726-756 | decrypting an encryption returns the plaintext, for every byte string |
| Codec.EncryptOfDecrypt | services/api/internal/router/tplink.go:726-756 | re-encrypting a decrypted text gives the same raw ciphertext, and the same text exactly when it was canonical base64 |
| Codec.CiphertextTextLength | services/api/internal/router/tplink.go:726-735 | the exact length of the printed ciphertext |
| Signature.SgLoginSignature | services/api/internal/router/tplink.go:567-582 | the 53-byte loop yields the encrypted pieces of the sign string in order, or the first error |
| Signature.SgRequestSignature | services/api/internal/router/tplink.go:584-598 | the 53-byte loop yields the authentication codes of the pieces in order |
| Signature.BlockRoundTrip | services/api/internal/router/tplink.go:707-724 | a left-padded block has a fixed width and decrypts to its piece |
| Signature.LoginBlocksRecoverable | services/api/internal/router/tplink.go:570-581 | cutting a signature into equal-width blocks and decrypting each returns exactly the sign string; its length is the number of pieces times the width |
| Signature.LoginBlocksSucceed | services/api/internal/router/tplink.go:567-582 | a non-empty string is signed if and only if the key is usable and large enough for its longest piece |
| Signature.ParseOfLoginSignString | services/api/internal/router/tplink.go:568-568 | with a 16-digit key and IV and a 64-character hash the fields are read back at fixed offsets, each behind its literal name, for every 64-bit sequence, and the string has 108 to 127 bytes |
| Signature.LoginSignatureIssued | services/api/internal/router/tplink.go:567-582 | a prepared session's signature is issued if and only if the key is usable and has at least 95 bytes, whoever can decrypt under it |
| Signature.LoginSignatureDecodes | services/api/internal/router/tplink.go:567-582 | end to end, under a key somebody can decrypt: always exactly three blocks; splitting, decrypting and parsing gives back key, IV, hash and (wrapped) sequence |
| Signature.RequestSignatureShape | services/api/internal/router/tplink.go:584-598 | a request signature is always 128 characters: the codes of the first 53 bytes and of the rest |
| Signature.ParseOfMacKey | services/api/internal/router/tplink.go:586-586 | a parser at fixed offsets reads the key and the IV, each behind its literal name, out of the authentication key |
| Signature.ParseOfRequestSignString | services/api/internal/router/tplink.go:585-585 | and the hash and the (wrapped) sequence out of the request string |
| Text.HexDigitsInOrder | services/api/internal/router/tplink.go:592-596 | hexadecimal is printed in lower case |
| EncryptedLogin.UnescapeOfEscape | services/api/internal/router/tplink.go:795-797 | query unescaping inverts query escaping on all byte strings |
| EncryptedLogin.UnreservedExactly | services/api/internal/router/tplink.go:795-797 | exactly letters, digits and four marks are sent as they are |
| EncryptedLogin.EscapesExactly | services/api/internal/router/tplink.go:795-797 | a blank is sent as a plus, any other byte as a percent sign and its two upper-case digits |
| EncryptedLogin.ReadFormOfSignedForm | services/api/internal/router/tplink.go:795-797 | a router reads both fields of the signed form back, whatever bytes they hold |
| EncryptedLogin.BuildLoginForm | services/api/internal/router/tplink.go:414-423 | encrypt the login body, sign its length, send both as one form; or the error of the step that failed |
| EncryptedLogin.ReadPasswordOfLoginBody | services/api/internal/router/tplink.go:415-415 | the password is read back out of the login body, between its literal beginning and end |
| EncryptedLogin.LoginIsSentExactly | services/api/internal/router/tplink.go:414-423 | a prepared session's login is sent if and only if the key is usable and has at least 95 bytes |
| EncryptedLogin.RouterReadsTheLogin | services/api/internal/router/tplink.go:414-423 | end to end: a router with the private key recovers key, IV, hash, sequence and the login body from the form sent |
| Extraction.CollectObjects | services/api/internal/router/tplink.go:855-872 | the result is a walk of the tree: an object before those below it, the entries of a map in any order, the items of an array in theirs |
| Extraction.VisitsObjects | services/api/internal/router/tplink.go:855-872 | every walk collects the same objects, each as often |
| Extraction.FieldObjectsPick | services/api/internal/router/tplink.go:857-862 | the objects below a map do not depend on which entry comes first |
| Extraction.FirstStringExactly | services/api/internal/router/tplink.go:874-883 | the first key holding a string decides, even if it is blank; without one the text is empty |
| Extraction.FirstNumberExactly | services/api/internal/router/tplink.go:885-905 | the number read is that of the first key that has a readable one |
| Extraction.CommasDoNotMatter | services/api/internal/router/tplink.go:907-927 | a number written as text may have commas anywhere |
| Extraction.PlainTextIsParsed | services/api/internal/router/tplink.go:907-927 | text without commas is trimmed and parsed, and blank text is no number |
| Extraction.TextsFromTheirKeys | services/api/internal/router/tplink.go:837-843 | each text field comes from keys of its own |
| Extraction.NumbersFromTheirKeys | services/api/internal/router/tplink.go:844-849 | each number comes from keys of its own |
| Extraction.ClientsAreNamedAndCounted | services/api/internal/router/tplink.go:850-852 | an object is a client if and only if it has a key to be stored under and some number |
| Extraction.MergeIsAnIdempotentMonoid | services/api/internal/router/tplink.go:929-961 | merging is associative and idempotent and has the empty client as identity |
| Extraction.MergeKeepsKey | services/api/internal/router/tplink.go:816-827 | merging two clients of one key gives a client whose own key is that key again |
| Extraction.MergeAbsorbsExactly | services/api/internal/router/tplink.go:929-961 | a merge changes nothing if and only if the left client already has every field the right one has |
| Extraction.FoldDescribes | services/api/internal/router/tplink.go:808-829 | for every order: a key is in the table iff an object contributes it, its client has that very key, a text or number is filled iff a contributor fills it, with a contributor's own value |
| Extraction.RemergeChangesNothing | services/api/internal/router/tplink.go:826-827 | merging a returned client with any of its contributors again changes nothing |
| Extraction.MergeObjects | services/api/internal/router/tplink.go:811-828 | the inner loop folds the objects of one response into the keyed table in order, skipping those without identity or traffic |
| Extraction.ListClients | services/api/internal/router/tplink.go:830-834 | the returned list holds each client of the table exactly once |
| Extraction.ExtractClients | services/api/internal/router/tplink.go:808-835 | the clients returned are those of the keyed fold over some walk of the responses, one after the other |
| VisitOrder.FirstContributorDecides | services/api/internal/router/tplink.go:826-827 | a field of a stored client is the one of the first object of the walk that contributes it |
| VisitOrder.ForestWalkFinds | services/api/internal/router/tplink.go:855-872 | what comes first in a walk is one of the values that can come first, defined on the tree alone |
| VisitOrder.ForestWalkWith | services/api/internal/router/tplink.go:855-872 | and each of those comes first in some walk |
| VisitOrder.ReportedNumbersExactly | services/api/internal/router/tplink.go:808-835 | the numbers some extraction reports for a client are exactly those that can come first |
| VisitOrder.NumberIndependentExactly | services/api/internal/router/tplink.go:808-835 | a client's number is the same in all extractions if and only if at most one value can come first |
| VisitOrder.TextIndependentExactly | services/api/internal/router/tplink.go:808-835 | likewise a client's MAC, address, host name or connection |
| RouterSample.AnyClientHas | services/api/internal/router/tplink.go:978-985 | found iff some client satisfies the predicate |
| RouterSample.SumClients | services/api/internal/router/tplink.go:963-976 | the sum over the clients that have the number, absent iff none has |
| RouterSample.Summarise | services/api/internal/router/tplink.go:125-142 | the counts, flags and sums of a sample, the total falling back to download plus upload |
| RouterSample.TablesAgree | services/api/internal/router/tplink.go:808-829 | two visiting orders give the same keys, the same MAC and the same presence of every field, and equal numbers where objects sharing a key agree |
| RouterSample.ListsAgree | services/api/internal/router/tplink.go:963-985 | lists of two tables with the same keys and fields filled have equal length and presence, and equal sums where the numbers are equal |
| RouterSample.SamplesAgree | services/api/internal/router/tplink.go:125-142 | two extractions of the same responses report the same client count, success, availability flags and presence of sums, and equal samples where every client's three rates are fixed |
| RouterSample.AgreementFixes | services/api/internal/router/tplink.go:826-827 | objects that agree wherever they share a key fix every number |
| RouterSample.ExtractedClientsComeFromObjects | services/api/internal/router/tplink.go:808-835 | no number is invented, no client object is lost, and the returned keys are pairwise distinct |
| RouterSample.SampleReflectsObjects | services/api/internal/router/tplink.go:125-142 | the client count is the number of keys among the objects that read as clients, and each flag says that one of those objects has the field |
| ReportedSums.SampleSumsExactly | services/api/internal/router/tplink.go:134-140 | each rate of a sample is a sum possible for its own field, present iff an object has that field; the total is their sum exactly if no object has a total and both others are there |
| RouterSample.RateDependsOnOrder | services/api/internal/router/tplink.go:859-861 | one device reported twice with different rates: a concrete response whose reported rate depends on map order |
| RouterSample.OneLooseNumberDecides | services/api/internal/router/tplink.go:963-976 | where all other clients' numbers are fixed, the reported sum is fixed if and only if this one's number is |
| ReportedSums.ForestWalkAdds | services/api/internal/router/tplink.go:963-976 | what a walk adds, each client's first number once, lies in a set defined on the responses alone |
| ReportedSums.ForestWalkAdding | services/api/internal/router/tplink.go:963-976 | and every member of that set is added by some walk |
| ReportedSums.ReportedSumsExactly | services/api/internal/router/tplink.go:963-976 | the sums some extraction reports are exactly the members of that set |
| ReportedSums.SumFixedExactly | services/api/internal/router/tplink.go:963-976 | for all responses: the reported sum is the same in all extractions if and only if that set has at most one member |
| LooseSums.TwoLooseNumbersCanCancel | services/api/internal/router/tplink.go:963-976 | fixed numbers are not necessary: two loose clients whose numbers swap leave the sum fixed |
| LooseSums.SwappingHappens | services/api/internal/router/tplink.go:855-872 | the service's own reader finds two such clients in a concrete response |
| Finders.FirstMatch | services/api/internal/router/tplink.go:1037-1048 | the loop all finders share yields the first match of some walk |
| Finders.FoundExactly | services/api/internal/router/tplink.go:1037-1048 | a search can answer exactly the matches that can come first, defined on the tree alone, or nothing if there is none |
| Finders.FixedExactly | services/api/internal/router/tplink.go:1037-1048 | its answer is the same in all walks if and only if at most one match can come first |
| Finders.FindBool | services/api/internal/router/tplink.go:1037-1048 | the first boolean under the key, false if there is none |
| Finders.FindStringList | services/api/internal/router/tplink.go:1014-1035 | the strings of the first list under the key that has any |
| Finders.FindFloat | services/api/internal/router/tplink.go:1050-1059 | the first number under the first key that has one, every key in a walk of its own |
| Finders.FindString | services/api/internal/router/tplink.go:995-1012 | likewise for texts, a key with a dot leading to one place by its path |
| Finders.PicksExactly | services/api/internal/router/tplink.go:995-1059 | what each search takes from one object |
| Finders.StringsOfParts | services/api/internal/router/tplink.go:1024-1029 | the strings of a list are those of its parts, in order |
| Finders.SplitExactly | services/api/internal/router/tplink.go:998-998 | the parts of a path hold no dot and spell the key again |
| Finders.PathExactly | services/api/internal/router/tplink.go:1061-1070 | a path is followed part by part and leads nowhere from what is not an object or lacks the part |
| Finders.FoundStringExactly | services/api/internal/router/tplink.go:995-1012 | the texts such a search can answer are exactly those defined on the tree alone |
| Finders.FoundFloatExactly | services/api/internal/router/tplink.go:1050-1059 | likewise the numbers |
| Finders.SuccessDependsOnOrder | services/api/internal/router/tplink.go:1037-1048 | a concrete reply whose success reads as true in one walk and as false in another |
| SessionCache.Provider.LookUp | services/api/internal/router/tplink.go:155-161 | a hit iff there is a session under the same key and the call started before its expiry |
| SessionCache.Provider.Store | services/api/internal/router/tplink.go:168-172 | session, key and expiry are replaced together |
| SessionCache.Provider.InvalidateSession | services/api/internal/router/tplink.go:176-184 | the triple is cleared iff it holds that session |
| SessionCache.RunKeepsInv | services/api/internal/router/tplink.go:151-184 | the invariant of the cache protocol holds in every interleaving of any number of calls |
| SessionCache.CachedTripleHasOneOrigin | services/api/internal/router/tplink.go:168-172 | the cached triple always comes from exactly one successful login |
| SessionCache.HandOutsAreSound | services/api/internal/router/tplink.go:151-184 | a session is handed out only under the key it was logged in with, within two minutes of the creating call's start, and never after it was invalidated |
| SessionCache.InvalidateIsPrecise | services/api/internal/router/tplink.go:176-184 | invalidating a session removes it and evicts no other |
| SessionCache.CacheIsLastStored | services/api/internal/router/tplink.go:151-184 | over every run the cache holds the session stored last, with its key and two minutes from the start of the call that stored it, unless that was invalidated; else nothing |
| SessionCache.ServedFromCacheExactly | services/api/internal/router/tplink.go:155-161 | a call gets a session without a login if and only if that one was stored last, under its key, by a call that started less than two minutes before it, and not invalidated since |
| SessionCache.SessionKeyIdentifies | services/api/internal/router/tplink.go:186-189 | two keys are equal if and only if base URL, trimmed user name and password digest are, for base URLs without a bar |
| SessionCache.BarInBaseConfuses | services/api/internal/router/tplink.go:186-189 | a bar in the base URL would let two routers share a key |
| RouterLogin.Usernames | services/api/internal/router/tplink.go:347-351 | the names tried: admin first, the empty one last, the configured one among them, none twice |
| RouterLogin.Session.LoginBE550 | services/api/internal/router/tplink.go:308-337 | the requests sent and the outcome, exactly: success iff the keys are usable and the accepted reply carries a token, which is taken with mode be550; failure leaves neither |
| RouterLogin.Session.DetectCertification | services/api/internal/router/tplink.go:401-412 | the flag is set unless certifications were read and the known one is not among them |
| RouterLogin.Session.PrepareSGLogin | services/api/internal/router/tplink.go:378-399 | all secrets come from this one exchange, or nothing changes |
| RouterLogin.Session.FinishSGLogin | services/api/internal/router/tplink.go:414-461 | the requests sent and the outcome, exactly: success iff the request can be signed and the reply grants a token, in the clear or inside what the secrets open; failure leaves neither |
| RouterLogin.Session.LoginSG | services/api/internal/router/tplink.go:339-376 | the outcome and the requests sent, exactly, as a sequence over the replies: the configuration and the keys, then every name in order, with the sealed password first if there is one and then with the plain one, until one is let in; success is coherent; failure leaves token and mode empty |
| RouterLogin.FormsInOrder | services/api/internal/router/tplink.go:354-372 | the forms tried: for the i-th name first the sealed password, then the plain one |
| RouterLogin.Session.SgRequests | services/api/internal/router/tplink.go:339-376 | after the first two requests each one reads the keys of an exchange or is the login built from the exchange just before it: with its sequence and RSA keys, the hash of one of the names and the password, and carrying the password or a sealing of it with the keys just read |
| RouterLogin.Session.EverythingIsTried | services/api/internal/router/tplink.go:354-372 | to a router that never grants a token: four requests for each name, at fixed positions, the sealed password first and then the plain one, each after an exchange of its own |
| RouterLogin.Session.LoginLegacy | services/api/internal/router/tplink.go:261-282 | the two legacy forms, the second exactly if the first is refused, and which token is taken |
| RouterLogin.Session.Login | services/api/internal/router/tplink.go:249-283 | against arbitrary replies, exactly when a login succeeds and which requests it sends; token and mode are those the last reply grants under the protocol of the last request; an encrypted session is coherent; failure leaves nothing; at most eighteen requests |
| RouterLogin.Session.ProtocolsInOrder | services/api/internal/router/tplink.go:249-283 | the plain login comes first, then the encrypted one, then the legacy forms |
| RouterLogin.Session.PlainSendsSealing | services/api/internal/router/tplink.go:308-321 | the plain login sends a sealing of the password with the keys just read |
| RouterLogin.Session.GrantMeansSuccess | services/api/internal/router/tplink.go:249-461 | a granted session holds a token of the last reply, which said success by itself or inside what the secrets open, or was a legacy reply that was not refused |
| Outage.Monitor.ActiveOutage | services/api/internal/store/store.go:207-210 | whether a row without an end exists |
| Outage.Monitor.OpenOutage | services/api/internal/store/store.go:190-200 | a row is appended unless one is open |
| Outage.Monitor.CloseActiveOutage | services/api/internal/store/store.go:202-205 | exactly the open rows get the end |
| Outage.Monitor.UpdateOutage | services/api/internal/monitoring/service.go:233-277 | counter, rows and notices after one round, for every combination of failing store calls |
| Outage.Monitor.CheckLatency | services/api/internal/monitoring/service.go:159-191 | the flags of the loop over targets; no targets, no round |
| Outage.RunKeepsInv | services/api/internal/monitoring/service.go:233-277 | over all runs with changing thresholds, failing calls and restarts: at most the last row is open, ids count up, and the notices are exactly those of the rows |
| Outage.NoticesAlternate | services/api/internal/monitoring/service.go:250-276 | critical and recovery notices strictly alternate, one critical per row, one recovery per closed row |
| Outage.HistoryIsKept | services/api/internal/store/store.go:190-205 | no input changes a closed row or the start of any row |
| Outage.OutagesAreOrdered | services/api/internal/monitoring/service.go:233-277 | under a nondecreasing clock the intervals are disjoint and ordered |
| Openings.CounterExactly | services/api/internal/monitoring/service.go:233-246 | over every run the counter is the number of failures read since the last success that was read, or the last restart |
| Openings.RowsExactly | services/api/internal/monitoring/service.go:248-276 | over every run, with restarts, failing calls and changing thresholds: a round adds a row iff none is open, it was read, all its targets failed, its insert works, its threshold is positive and at most that number; it ends the last row iff one is open, it was read with a success and its update works; nothing else changes the rows |
| Openings.FailedInsertIsMadeUpFor | services/api/internal/monitoring/service.go:248-262 | an insert that fails delays the outage to the next failure that is read |
| OutageBlocks.LongBlocksAreAll | services/api/internal/monitoring/summary.go:78-80 | the blocks found are exactly the maximal blocks of at least threshold failed rounds |
| OutageBlocks.RowsFollowBlocks | services/api/internal/monitoring/service.go:233-277 | counter and rows follow the observed rounds step by step |
| OutageBlocks.OutagesEqualBlocks | services/api/internal/monitoring/service.go:159-277 | for every run with one threshold and working writes the rows are, in order, those of all maximal long blocks; one is open iff the run ends inside such a block |
| OutageBlocks.ObservedIsEverythingExactly | services/api/internal/monitoring/service.go:234-238 | the rounds seen are all rounds with targets if and only if no read of the active outage fails |
| MissedReads.CounterIsReadRun | services/api/internal/monitoring/service.go:233-246 | the counter never exceeds the rounds read since the last success that was read, and equals them without restarts |
| MissedReads.OpeningIsGenuineExactly | services/api/internal/monitoring/service.go:233-262 | over every run, with restarts and changing thresholds: when a round opens an outage, the last threshold rounds all failed if and only if no success among them went unread |
| MissedReads.OpenExactlyByReads | services/api/internal/monitoring/service.go:233-277 | with one threshold and working writes an outage is open iff that many rounds were read since the last success that was read |
| MissedReads.StatusIsRightExactly | services/api/internal/monitoring/service.go:233-277 | both errors exactly: an outage is open though the last threshold rounds did not all fail iff that many rounds were read since the last success that was read and a success among them was missed; none is open though they all failed iff more of them went unread than rounds were counted before them |
| MissedReads.StatusIsRightIfAllRead | services/api/internal/monitoring/service.go:233-277 | so it does whenever every read works |
| MissedReads.MissedSuccessOpensOutage | services/api/internal/monitoring/service.go:234-238 | a failure, a missed success and a failure open an outage at threshold two |
| MissedReads.MissedFailureOpensNone | services/api/internal/monitoring/service.go:234-238 | two failures of which one went unread open none |
| MissedReads.EarlierMissedSuccessIsHarmless | services/api/internal/monitoring/service.go:234-238 | the window of that condition is the last threshold rounds: a success missed before them, though after the first counted failure, leaves the opening genuine |
| SpeedGuard.Service.TriggerSpeedTest | services/api/internal/monitoring/service.go:56-87 | accepted iff no run was active, and then one is |
| SpeedGuard.Service.RunSpeedTest | services/api/internal/monitoring/service.go:64-86 | one insert attempt iff the settings load, and the flag cleared |
| SpeedGuard.RunKeepsInv | services/api/internal/monitoring/service.go:42-88 | the invariant of guard, mutex and runs holds in every interleaving |
| SpeedGuard.AtMostOneRun | services/api/internal/monitoring/service.go:56-88 | at most one run is in progress, and one is only while the flag is set |
| SpeedGuard.AcceptedAreFinishedOrRunning | services/api/internal/monitoring/service.go:56-88 | accepted triggers are the completed runs, in order, plus one iff active |
| SpeedGuard.ClearFlagMeansSettled | services/api/internal/monitoring/service.go:71-85 | with the flag clear the insert attempts are exactly the accepted runs whose settings loaded, once each, in order |
| SpeedGuard.OnlyTheRunningOneOwes | services/api/internal/monitoring/service.go:71-85 | with the flag set only the run in progress may still owe its attempt |
| SpeedGuard.RefusedOnlyDuringARun | services/api/internal/monitoring/service.go:42-61 | a trigger is refused, and SpeedRunning says true, iff a run is in progress at that moment |
| Calendar.CivilOf | services/api/internal/store/store.go:265-265 | every instant has one calendar date and time of day that names it |
| Calendar.CivilOrder | services/api/internal/store/store.go:265-265 | time order is the field-by-field order of date and time |
| Calendar.DaysBeforeYearExactly | services/api/internal/store/store.go:265-265 | the days before each year in closed form |
| Calendar.EpochDay | services/api/internal/store/store.go:265-265 | 1970 starts 719,528 days after year 0 |
| Calendar.FirstDaysExactly | services/api/internal/store/store.go:265-265 | the first day of each month, for both kinds of year |
| Timestamps.TrimOrder | services/api/internal/store/store.go:265-265 | byte order of two trimmed fractions with their Z, exactly |
| Timestamps.DateTextExactly | services/api/internal/store/store.go:265-265 | year, month and day as digits of fixed width between dashes, then T |
| Timestamps.TimeTextExactly | services/api/internal/store/store.go:265-265 | hour, minute and second between colons, then the fraction behind a point if there is one, then Z |
| Timestamps.StoredForm | services/api/internal/store/store.go:265-265 | the instant 739,311 days, 12 hours, 34 minutes and 56.5 seconds after year 0 is stored as 2024-03-01T12:34:56.5Z |
| Timestamps.TsOrder | services/api/internal/store/store.go:265-265 | text order is time order except exactly when both instants lie in one second and one trimmed fraction is a proper prefix of the other |
| Timestamps.InvertedExactly | services/api/internal/store/store.go:265-265 | an earlier instant sorts later if and only if it is such a prefix |
| Timestamps.TextOrderWithinASecond | services/api/internal/store/store.go:265-265 | text not later means less than a second later in time |
| Timestamps.LatestIsNearlyLatest | services/api/internal/store/store.go:61-64 | the row a latest query returns is less than a second older than the true latest, and then a prefix of it |
| Timestamps.WindowExactly | services/api/internal/store/store.go:117-118 | the rows of a text window with either bound, exactly, in terms of time and the reversed pairs |
| Timestamps.WindowIsNearlyExact | services/api/internal/store/store.go:94-96 | a text window holds everything from a second after its start to a second before its end, and nothing from outside the seconds of its bounds |
| Timestamps.InversionInEverySecond | services/api/internal/store/store.go:265-265 | every second contains a pair the text orders wrongly |
| Timestamps.ParseOfTs | services/api/internal/store/store.go:265-267 | a stored timestamp reads back as the instant it was written from |
| Accounts.ValidateUsername | services/api/internal/auth/auth.go:106-126 | accepts iff the trimmed name is not empty, has at most 64 characters and only allowed ones |
| Accounts.Server.UserByUsername | services/api/internal/store/users.go:51-54 | finds the user of that name if there is one |
| Accounts.Server.InsertUser | services/api/internal/store/users.go:25-32 | a new id unless the name is taken |
| Accounts.Server.HandleEnsureAdmin | services/api/internal/auth/auth.go:36-56 | the first user, only into an empty table and only with valid credentials |
| Accounts.Server.HandleLogin | services/api/internal/auth/auth.go:58-78 | expired rows are swept; the session row is created iff the credentials match and the token is new |
| Accounts.Server.HandleLogout | services/api/internal/auth/auth.go:88-93 | exactly that token's row is gone |
| Accounts.Server.HandleCreate | services/api/internal/httpapi/api.go:291-310 | a user is added iff name, role and password pass and the name is free |
| Accounts.Server.HandleUpdate | services/api/internal/httpapi/api.go:312-343 | name, role and perhaps password replaced, sessions revoked by a second call that may fail |
| Accounts.Server.HandleDelete | services/api/internal/httpapi/api.go:345-365 | refused for oneself and for the last user; sessions go only if the cascade is on |
| Accounts.Server.Authenticate | services/api/internal/store/users.go:87-96 | the join of sessions and users, expiry compared as text |
| AccountsHistory.RunKeepsUsersOk | services/api/internal/httpapi/api.go:291-365 | over every run names are unique, valid and trimmed, every role is admin, ids are used once |
| AccountsHistory.NeverLockedOut | services/api/internal/httpapi/api.go:345-365 | once there is a user there always is one |
| AccountsHistory.LookupRefinesHistory | services/api/internal/store/users.go:76-111 | a token finds user u if and only if a login issued it to u, its thirty days (as text) are not over, and no logout, password change or deletion followed; with or without the cascade |
| AccountsHistory.TsIsSecondAccurate | services/api/internal/store/store.go:265-265 | the stored text orders instants a second apart correctly |
| AccountsHistory.LifetimeInRealTime | services/api/internal/auth/auth.go:58-78 | a standing login is found until a second before its thirty days are over |
| AccountsHistory.FoundInsideLifetime | services/api/internal/store/users.go:87-96 | what is found is a standing login at most a second past its thirty days |
| AccountsHistory.PasswordChangeRevokesExactly | services/api/internal/httpapi/api.go:331-340 | a password change ends the user's sessions if and only if its second store call succeeds |
| AccountsHistory.OnlyLoginsSinceTheChange | services/api/internal/httpapi/api.go:331-340 | over every run, whatever finds a user after a password change that went through was issued after it |
| AccountsHistory.DeletionIsFinal | services/api/internal/store/users.go:76-79 | a deleted user's id never comes back and no token finds it again, cascade or not |
| Credentials.PresentExactly | services/api/internal/httpapi/api.go:291-365 | over every run a user is there iff an admissible request made it and no admissible request deleted it since: not oneself, not the last one |
| Credentials.NameExactly | services/api/internal/httpapi/api.go:291-343 | its name is the trimmed one of the last admissible request that made or updated it |
| Credentials.HashExactly | services/api/internal/httpapi/api.go:291-343 | its hash is that of the last admissible request that made it or updated it with a password |
| Credentials.LoginExactly | services/api/internal/auth/auth.go:58-78 | after any run a login logs u in if and only if u is there, its last given name is the trimmed one, its last given hash matches the password, and no unexpired session has the token |
| Credentials.LoggedInHadCredentials | services/api/internal/auth/auth.go:58-78 | every login that succeeded in a run came with the right name and password of that moment |
| Credentials.FreshTokenIsNotHeld | services/api/internal/auth/auth.go:70-76 | a token no earlier login came with is never in the way |
| Accounts.CookieLivesAsLong | services/api/internal/auth/auth.go:128-138 | the browser keeps the cookie just as long as the session lives |
| Outbox.SafeName | services/api/internal/events/outbox.go:56-66 | character by character, the unsafe ones replaced by a dash |
| Outbox.EventFilesAreVisible | services/api/internal/events/outbox.go:47-49 | an event's file matches *.json and stays in the directory whatever its id; its temporary file never matches |
| Outbox.NamesCollideExactly | services/api/internal/events/outbox.go:47-66 | two events share a file name if and only if stamps and ids agree character by character once sanitised |
| Outbox.SafeIdsGetFreshNames | services/api/internal/events/outbox.go:47-66 | so an event with a safe id gets a fresh name unless the same time and id were used |
| Outbox.TargetsCanCollide | services/api/internal/events/outbox.go:56-66 | a target with a port in the id is not safe: two targets share a name |
| Outbox.RunKeepsInv | synology/notification-helper.sh:64-97 | the invariant of writers, helper and directories holds in every interleaving, with crashes and abandoned writes |
| OutboxHandOff.VisibleIsComplete | services/api/internal/events/outbox.go:50-53 | every file the *.json scan can see is a completely written event |
| OutboxHandOff.EventsAreConserved | synology/notification-helper.sh:64-87 | a written event is in exactly one place, unchanged; never lost if moves succeed |
| OutboxHandOff.WrittenStays | services/api/internal/events/outbox.go:27-54 | no later step takes back that an event was written, or changes it |
| OutboxHandOff.WrittenEventsHaveAllFields | services/api/internal/events/outbox.go:34-36 | over every run no field of a written event is empty |
| OutboxHandOff.LeavingMeansSent | synology/notification-helper.sh:79-86 | an event that left the outbox was sent exactly once more than the helper crashed between sending and moving it, and went where the last sending said |
| OutboxHandOff.SentOnceExactly | synology/notification-helper.sh:79-86 | sent exactly once if and only if no crash fell there; at most once more than there were crashes |
| OutboxHandOff.CrashSendsTwice | synology/notification-helper.sh:79-81 | such a crash does send an event twice |
| OutboxHandOff.WriteIsSteps | services/api/internal/events/outbox.go:50-53 | a write, as far as it gets, is its writer's steps in the machine |
| OutboxHandOff.Directories.Write | services/api/internal/events/outbox.go:27-54 | nil iff the event is well formed and write and rename succeed; after an error the helper sees what it saw before |
| OutboxHandOff.Directories.MoveAway | synology/notification-helper.sh:70-86 | mv to the directory, or else rm |
| OutboxHandOff.Directories.ProcessEvent | synology/notification-helper.sh:64-87 | process_event is the machine's validation, sending and move |
| Migrations.Database.Migrate | services/api/internal/db/db.go:110-133 | the loop in a transaction: committed as a whole or not at all |
| Migrations.RunIsAtLevel | services/api/internal/db/db.go:110-133 | the invariant over every sequence of starts with any failing calls and any release's list |
| Migrations.MigrationsRunOnceInOrder | services/api/internal/db/db.go:110-133 | recorded versions are exactly 1..n in order, the schema is the fold of the first n migrations, and each after the first ran exactly once |
| Migrations.FirstRunsAgainExactlyOnMisread | services/api/internal/db/db.go:119-121 | the first migration ran once if and only if no later start that commits, by the condition on its inputs, failed to read version 1: that error is swallowed |
| Migrations.StartCommitsExactly | services/api/internal/db/db.go:110-133 | after any history and with any failing calls, a start commits if and only if its transaction begins and commits, the calls it needs work and SQLite accepts its migrations in order from the initial schema |
| Migrations.UndisturbedStartCommits | services/api/internal/db/db.go:110-133 | a start without failing calls commits if and only if SQLite accepts its migrations in order from the initial schema |
| LatencyStats.LatencySummary | services/api/internal/store/store.go:117-157 | the one-pass loop computes count, loss, minimum, maximum and mean over the right rows; statistics are all present or all absent |
| LatencyStats.SummaryIgnoresOrder | services/api/internal/store/store.go:117-157 | any two summaries of the same rows in any order are equal |
| LatencyStats.FailedCheckAddsNoLatency | services/api/internal/store/store.go:131-135 | a failed check counts and leaves the statistics alone, whatever latency its row has |
| LatencyStats.MeanIsBetween | services/api/internal/store/store.go:152-155 | minimum <= mean <= maximum |
| LatencyStats.LossIsAPercentage | services/api/internal/store/store.go:149-151 | the loss is between 0 and 100, and 0 or 100 exactly when no check or every check failed |
| StringLists.NormalizeStringList | services/api/internal/httpapi/api.go:496-517 | the loop keeps the first entries, up to the limit, of the repetition-free trimmed and cut values |
| StringLists.DedupKeepsFirstOccurrences | services/api/internal/httpapi/api.go:507-511 | dropping repetitions keeps each entry once, in order of first occurrence |
| StringLists.OnlyDedup | services/api/internal/httpapi/api.go:507-511 | and no other list does |
| StringLists.NormalizedEntries | services/api/internal/httpapi/api.go:496-517 | entries are distinct, short and come from non-blank values; none is missing unless the list is full |
| StringLists.FixpointExactly | services/api/internal/httpapi/api.go:496-517 | a list is left alone if and only if its entries are distinct, trimmed, not blank, short and few enough |
| StringLists.AgainChangesNothingExactly | services/api/internal/httpapi/api.go:496-517 | cleaning twice is cleaning once if and only if every value read before the list was full is blank, fits, or is cut to something that trims to itself |
| StringLists.AgainChangesNothingIfAllFit | services/api/internal/httpapi/api.go:496-517 | in particular whenever every trimmed value fits |
| StringLists.CutCanLeaveABlank | services/api/internal/httpapi/api.go:504-506 | for every length limit from two on, the callers' 255 included, a value cut right after a blank is cleaned differently the second time |

## Left out

- HTTP transport, cookies, headers and JSON byte decoding: replies and requests are values.
- AES, RSA, SHA-256, HMAC and bcrypt themselves: parameters with the laws stated as preconditions; random values are inputs.
- The SQL engine: tables are maps or sequences with the constraints of the schema; `created_at`, `updated_at` and other columns no modelled query reads are omitted.
- Floating-point rounding: reals are used; not-a-number and infinities do not occur in the model.
- Which texts `strconv.ParseFloat` reads as numbers: a parameter of the extraction.
- Data races on the fields of a cached session shared by concurrent requests: only the cache triple is concurrent, a login is one thread's work.
- The retry of a probe that got no responses and the HTTPS fallback: they add further Invalidate and Start events to the cache machine and change nothing it promises.
- Interleavings inside one user handler (count, then delete; update, then revoke): handlers are atomic steps.
- The connection-wide `PRAGMA foreign_keys`, lost when the pooled connection is replaced: whether a deletion cascades is an input of each deletion.
- A store failure in the middle of a login: it leaves the tables as a Sweep event does; a failed insert or update is an event that does not happen.
- The warning notices of latency and DNS checks, and emitting that fails: the notice stream is that of outages only, and each emit succeeds.
- Spacing of scheduled speed tests, `speedtest.Parse` and the running of the command: only the guard is modelled; the stored result is not.
- Timestamps before year 0 or after year 9999, and other forms `time.Parse` accepts: only the UTC form the service writes is read back.
- `Write` on a disabled outbox (it returns nil and writes nothing) and a context already cancelled (an error before any step).
- The helper's log, the order of its scan, and files in the outbox that the service did not write.
- Migration texts: a migration is an arbitrary function of the schema that may be rejected.
- `normalizeStringList` with a negative length limit, where Go's slice panics; the callers pass 255. `strings.TrimSpace` on bytes is a parameter with two laws.
- SessionCache.SessionKeyIdentifies: says that two passwords of one SHA-256 digest share a key, and is stated for base URLs without a vertical bar, which `url.Parse` refuses in a host.
- The oracles `sign` and `open` of the login machine are not tied to `EncryptedLogin`: the one asks what any replies can lead to, the other what an honest router reads.
- `joinURL`, `normalizeBaseURL`, integer clamps in `normalizeSettings`, `ConnectionStatus`, `SpeedTestDue`: each is seen in one branch.
- The React application, packaging, configuration and static files.
