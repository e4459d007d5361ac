# Verified model of mcp-forgejo

mcp-forgejo exposes a Forgejo server to MCP clients. Most of it forwards one call to one REST
endpoint. This project models the logic that is its own, in Dafny, and proves what holds of it on all
inputs, all runs or all interleavings. Where the code does less than its comments promise, the code is
modelled as it is, an input or a run shows the gap, and the exact condition is proved.

| module | what it models |
|---|---|
| `Bytes`, `Texts`, `Upstream` | bytes and options; numbers, trimming, percent-encoding, path segments; one observation of a request |
| `StripControl` | the terminal-control scanner with its index jumps, a three-state automaton, a grammar of what it removes |
| `Utf8` | section 4 of RFC 3629, tied to the encoding table of section 3, and what stripping does to it |
| `Base64` | section 4 of RFC 4648 as Go's standard encoding writes and reads it |
| `FileCodec` | contents on their way to the server and back, and the two loops of a multi-file write |
| `Replacement`, `Redaction` | leftmost non-overlapping replacement, and when it removes a secret |
| `Errors` | status codes, error kinds, redacted messages, the two secrets of a migration |
| `Endpoints` | every call of the client as a method, an escaped path and a query, and a reader that recovers the call |
| `EndpointTable` | the same table written out with constants, apart from printer and reader |
| `Session` | the bearer check, the request context and the outbound authorization |
| `ForgejoClient` | the client object: one exchange and one observation for each request |
| `Application` | the use cases that probe or check first and act second |
| `WriteProtocol` | any number of writes and deletes interleaved with each other and with other clients |
| `Guards` | the same for branch deletes and pull request merges |
| `Metrics` | the four separate updates of an observation, interleaved with others and with scrapes |
| `ServeLoop` | the serving goroutine, its one-slot channel, the select and the shutdown |

Code that changes things step by step is a method or a class here and is proved against functions
(`StripControl.RemoveControl`, `Replacement.ReplaceAll`, `ForgejoClient.Client`, `Errors.ForgejoError`,
`Application.WriteFile`, `Session.RequestContext`, `Metrics.UpstreamCollector`, the loops of
`FileCodec`). The same functions are what the protocols step by: `WriteProtocol.After` is made of the
`NextWrite` and `NextDelete` that `Application.WriteFile` and `Application.DeleteFile` are proved
against, and `Guards.GoesOn` of the two conditions that `DeleteBranch` and `MergePullRequest` are
proved against.

## What is assumed

- Forgejo (`WriteProtocol`): a readable answer to a probe names the blob SHA of the present file, 404
  means that there is none, a create needs an absent file, an update or delete the blob SHA of the
  present one, a success reports what was done and a refusal below 500 what was not (`HonestProbe`,
  `Accepts`, `HonestReply`). A lost reply or a server error says nothing. Blob SHAs are injective;
  `CollisionLosesUpdate` shows that this is needed.
- Forgejo (`Guards`): a readable answer states the default branch, or the merge state, of that moment; a
  branch exists when it is made the default, and other clients do not delete the default branch.
- HTTP server (`ServeLoop`): `ErrServerClosed` comes only after `Shutdown` was called, and `Shutdown`
  returns.
- `strings.ReplaceAll`, `TrimSpace`, `Cut`, `EqualFold`, `url.PathEscape`, `strconv.FormatInt`, the base64
  decoder and `utf8.Valid` behave as documented by Go.
- A `string` in `Texts`, `Replacement` and `Session` is a Go byte string: one `char` stands for one byte.

## Where the code and its comments differ

- domain/domain.go:171-173 promises that corrupted text is never returned. It is, when an ESC that starts
  an escape sequence is directly followed by a non-ASCII byte: only the first byte of the wide character
  is dropped (`StripCanBreakUtf8`: 1B C3 A9). `NoCorruptTextExactly` and `StripKeepsUtf8Exactly` give the
  exact condition, and `WritingBackStabilizes` what follows for a file that is read and written back.
- domain/domain.go:34-36 promises that an error message never contains credentials. The fixed texts for a
  blank body are not redacted, so a token that is a part of one is shown (`BlankBodyShowsToken`);
  `TokenIsSafeExactly` says which tokens no outcome shows.
- infrastructure/forgejo/forgejo.go:847-849 scrubs the source token so that neither secret leaks. The second
  redaction can spell the first secret again (`SourceRedactionSpellsToken`); `MigrationIsSafeExactly` says
  which tokens are safe.
- domain/domain.go:52-55 promises that every occurrence of a secret is replaced. Occurrences that the
  marker itself helps to spell survive (`BracketSecretSurvives`); `RedactionRemovesExactly` decides which
  secrets are safe for every text.
- application/application.go:260-261 says that the default branch can never be deleted. It can, when the
  default changes between check and delete (`DefaultBranchCanBeDeleted`); `ForbiddenActExactly` names the
  events that do it.
- A failed write may have changed the file: exactly the kinds transient and validation leave it open
  (`HarmlessExactly`).
- cmd/mcp-forgejo/main.go:74-104 may return no error although serving failed, when a cancellation arrives
  at the same time and the select takes it (`FailureCanBeMissed`); `ReturnsExactly` says that this is the
  only way.
- The merge probe (infrastructure/forgejo/forgejo.go:605-628) is the one request that carries no request
  ID; the model has it so.

## Model

| member | source | states |
|---|---|---|
| `StripControl.SkipAnsi` | infrastructure/forgejo/forgejo.go:1209-1224 | from any ESC the jump stays in bounds and lands on the last byte of the shortest stretch that brings the automaton back to plain text, or on the last byte of the input; what follows is stripped as if the sequence had not been there |
| `StripControl.RemoveControl` | infrastructure/forgejo/forgejo.go:1178-1204 | the index-jumping loop terminates and computes the output of the three-state automaton on every input, trailing ESC and unterminated sequence included |
| `StripControl.OutAppend` | infrastructure/forgejo/forgejo.go:1184-1203 | the output splits at any point, the automaton's state being all that is carried across |
| `StripControl.StripSplitsExactly` | infrastructure/forgejo/forgejo.go:1184-1203 | strip(a + b) = strip(a) + strip(b) for every b if and only if a ends outside an escape sequence |
| `StripControl.ControlSequenceVanishes` | infrastructure/forgejo/forgejo.go:1206-1223 | a complete control sequence of section 5.4 of ECMA-48, inserted where the text before it ends in plain text, vanishes and changes nothing else |
| `StripControl.OutIsCleanSubsequence` | infrastructure/forgejo/forgejo.go:1167-1178 | the output is a subsequence of the input without ESC, DEL and every C0 byte but newline, tab and carriage return, from any state of the scanner |
| `StripControl.NoEscapeMeansFilter` | infrastructure/forgejo/forgejo.go:1191-1201 | input without ESC loses exactly its invisible bytes |
| `StripControl.StripIsIdempotent` | infrastructure/forgejo/forgejo.go:1178-1204 | stripping twice is stripping once |
| `StripControl.StripFixesExactly` | infrastructure/forgejo/forgejo.go:1178-1204 | the texts that pass unchanged are exactly those without ESC, DEL and C0 bytes other than newline, tab and carriage return, named by value |
| `StripControl.NothingElseIsLost` | infrastructure/forgejo/forgejo.go:1191-1201 | out of input without ESC exactly DEL and these C0 bytes are lost; every other byte stays as often as it was there |
| `StripControl.StripKeepsPlainTokens` | infrastructure/forgejo/forgejo.go:1178-1224 | of a text written as plain bytes, ESC-plus-one and ESC [ sequences, with an open sequence at the end perhaps, exactly the visible plain bytes are kept, in order |
| `StripControl.EveryInputIsGrammatical` | infrastructure/forgejo/forgejo.go:1178-1224 | every byte string is such a text, so that description covers every input |
| `Utf8.ValidExactly` | infrastructure/forgejo/forgejo.go:1159 | the validity test accepts exactly the encodings of sequences of Unicode scalar values |
| `Utf8.PublishedExamples` | infrastructure/forgejo/forgejo.go:1159 | scalar values of section 7 of RFC 3629 with one to four bytes |
| `Utf8.StripKeepsUtf8Exactly` | infrastructure/forgejo/forgejo.go:1159-1162 | of valid UTF-8 the stripped text is valid if and only if no escape drops a non-ASCII byte |
| `Utf8.SafeByPosition` | infrastructure/forgejo/forgejo.go:1222-1223 | that condition, position by position: where the scanner has just read an ESC that starts a sequence the next byte is ASCII |
| `Utf8.StripCanBreakUtf8` | infrastructure/forgejo/forgejo.go:1222-1223 | ESC before e-acute is valid text whose stripped form is a lone continuation byte |
| `Base64.PlainRoundTrip` | infrastructure/forgejo/forgejo.go:486 | decoding what was encoded gives the bytes back, for every length and padding case |
| `Base64.RoundTrip` | infrastructure/forgejo/forgejo.go:1153 | the same whatever carriage returns and newlines were put into the text on the way |
| `Base64.AcceptsExactly` | infrastructure/forgejo/forgejo.go:1153 | which texts the decoder accepts, and as which bytes: those that are the encoding once line breaks are dropped and the unused trailing bits cleared |
| `Base64.ReadingIsNotInjective` | infrastructure/forgejo/forgejo.go:1153 | two texts that differ in trailing bits read as the same byte |
| `Base64.PublishedVectors` | infrastructure/forgejo/forgejo.go:486 | vectors of section 10 of RFC 4648 and the last two digits of the alphabet |
| `Base64.EncodesBits` | infrastructure/forgejo/forgejo.go:486 | three bytes are joined to 24 bits and written as four six-bit digits; one or two at the end are filled with zero bits and padded |
| `Base64.CapitalsAre` | infrastructure/forgejo/forgejo.go:486 | the first 26 digits of table 1 of RFC 4648 |
| `Base64.SmallLettersAre` | infrastructure/forgejo/forgejo.go:486 | the next 26 |
| `Base64.LastDigitsAre` | infrastructure/forgejo/forgejo.go:486 | the decimal digits, plus and slash |
| `Base64.LineBreaksAreSkipped` | infrastructure/forgejo/forgejo.go:1153 | a carriage return or newline is skipped wherever it stands, and nothing else is |
| `FileCodec.WrittenContentComesBack` | infrastructure/forgejo/forgejo.go:480-511 | when the server echoes what a create or update sent, the result carries exactly the content that was written, with the path, the blob SHA and the commit of the answer |
| `FileCodec.WriteThenRead` | infrastructure/forgejo/forgejo.go:1151-1165 | reading what was written flags the file binary, with empty content, exactly when it is not UTF-8, and otherwise shows its stripped text; SHA, size and encoding are those of the answer |
| `FileCodec.WritingBackStabilizes` | infrastructure/forgejo/forgejo.go:1151-1165 | writing back what was shown is shown again as the same file if and only if the content was UTF-8 and no escape drops a non-ASCII byte; otherwise the second reading has no content and the other binary flag |
| `FileCodec.NoCorruptTextExactly` | domain/domain.go:171-174 | shown text is valid UTF-8 if and only if the file is flagged binary or no escape in it drops a non-ASCII byte, for base64 and for plain answers; binary means malformed base64 or invalid UTF-8 in it, and no content |
| `FileCodec.AnswerIsShown` | infrastructure/forgejo/forgejo.go:1151-1165 | SHA, size and encoding are the server's in every case; a plain answer is not binary and shows its stripped text; malformed base64 is binary |
| `FileCodec.NoControlReachesTheReader` | infrastructure/forgejo/forgejo.go:1146-1165 | whatever the server sends, base64 or plain, no terminal control byte is shown |
| `FileCodec.EntriesFromTool` | server/server.go:445-448 | the tool's loop keeps number, order and fields of the entries |
| `FileCodec.WireEntries` | infrastructure/forgejo/forgejo.go:519-526 | the client's loop keeps number and order; path, operation and SHA are kept and each content decodes to the entry's |
| `FileCodec.ResultsFromWire` | infrastructure/forgejo/forgejo.go:531-535 | the answer's entries come back with number, order and fields kept |
| `FileCodec.WriteMany` | server/server.go:445-451 | both loops together: wire entry i has path, operation and SHA of input i and decodes to its content |
| `Replacement.ReplaceAll` | domain/domain.go:60 | the copying loop computes the leftmost non-overlapping replacement |
| `Replacement.KeepsPieces` | domain/domain.go:60 | the replacement cuts the text at the occurrences found from the left, keeps every piece in order and puts the marker for each cut |
| `Replacement.RemovesExactly` | domain/domain.go:52-60 | replacing x by m removes x from every text if and only if x is not leaky, a condition on x and m alone |
| `Replacement.SurvivorIsLeaky` | domain/domain.go:56-60 | an occurrence in any replaced text shows x leaky |
| `Replacement.ReplacingCreatesNothing` | infrastructure/forgejo/forgejo.go:850-858 | replacing another text y cannot create an x that lines up with the marker nowhere |
| `Replacement.CreatesNothingExactly` | infrastructure/forgejo/forgejo.go:850-858 | and exactly those x are safe from it: any other is created by replacing some y in some text without x |
| `Replacement.StableExactly` | domain/domain.go:56-60 | replacing twice is replacing once on every text if and only if x is its own replacement or not leaky |
| `Redaction.RedactKeepsPieces` | domain/domain.go:52-60 | the text is cut at the secret from the left, every piece stays, and every cut gets [REDACTED] |
| `Redaction.RedactionRemovesExactly` | domain/domain.go:52-60 | a secret occurs in no redacted text if and only if the marker cannot help to spell it |
| `Redaction.PlainNeverSurvives` | domain/domain.go:52-60 | a non-empty secret without brackets that is no part of REDACTED occurs in no text after its redaction |
| `Redaction.BracketFreeExactly` | domain/domain.go:52-60 | among secrets without brackets those are exactly the ones redaction removes from every text |
| `Redaction.RedactIsIdempotentExactly` | domain/domain.go:56-60 | redacting twice is redacting once on every text if and only if the secret is empty, the marker itself or not leaky |
| `Redaction.SecondRedactionExactly` | infrastructure/forgejo/forgejo.go:847-858 | redactions of other secrets never spell this one in a text free of it if and only if it lines up with the marker nowhere |
| `Redaction.OtherRedactionSpells` | infrastructure/forgejo/forgejo.go:847-858 | redacting S in [yS spells [y[, which was not in the text |
| `Redaction.BracketSecretSurvives` | domain/domain.go:52-60 | the secret x[ is in the redacted form of xx[ |
| `Redaction.BracketsMayBeSafe` | domain/domain.go:52-60 | a bracket alone is no harm: [y[ is always removed |
| `Errors.NotFoundIs404` | infrastructure/forgejo/forgejo.go:1264-1279 | a request fails as not found if and only if the server answered 404 |
| `Errors.KindIsDocumented` | domain/domain.go:15-32 | each documented kind comes from its one documented status and from no other, transient from every status of 500 or more |
| `Errors.InterpretExactly` | infrastructure/forgejo/forgejo.go:1268-1279 | a request succeeds if and only if the status is 2xx and what is to be decoded can be; its value is what was decoded |
| `Errors.BlankBodyTexts` | infrastructure/forgejo/forgejo.go:1409-1433 | the message for a blank body, status by status |
| `Errors.ReasonsAreShown` | infrastructure/forgejo/forgejo.go:1264-1278 | a failure without answer or with an unreadable one names the library's reason, under its kind |
| `Errors.TransientExactly` | infrastructure/forgejo/forgejo.go:1264-1279 | a failure is transient if and only if no complete answer came or its status is 500 or more |
| `Errors.FailureHidesToken` | infrastructure/forgejo/forgejo.go:1409-1416 | no failure message contains a token that is not leaky, unless it is the fixed text for a blank body |
| `Errors.TokenInFailureExactly` | domain/domain.go:34-37 | for any token: over all outcomes a message contains it only where it is a part of the fixed text for a blank body, if and only if it is not leaky |
| `Errors.TokenIsSafeExactly` | domain/domain.go:34-37 | the promise that messages contain no credentials, as a condition on the token alone: no outcome shows it if and only if it is not leaky and no part of a fixed text |
| `Errors.CleanBodyIsPassedOn` | infrastructure/forgejo/forgejo.go:1407-1416 | a refusal's body without the token reaches the caller whole, up to surrounding space, under the kind of its status |
| `Errors.RedactSourceToken` | infrastructure/forgejo/forgejo.go:850-858 | the same error object comes back, its message redacted in place |
| `Errors.MigrationHidesBothSecrets` | infrastructure/forgejo/forgejo.go:832-859 | unless the refusal's body was blank, neither secret is in the message of a failed migration and the kind is unchanged: the second replacement does not spell the first secret again |
| `Errors.SourceNeverShown` | infrastructure/forgejo/forgejo.go:850-858 | the source token is gone in every case, blank body included |
| `Errors.TokenOnlyInFallback` | infrastructure/forgejo/forgejo.go:838-859 | a Forgejo token that is seen after a failed migration is a part of the fixed text for a blank body |
| `Errors.TokenShownExactly` | infrastructure/forgejo/forgejo.go:838-859 | for any token: over all failed migrations and source tokens it is seen only in what redacting the source token leaves of a fixed text, if and only if it lines up with the marker nowhere |
| `Errors.MigrationIsSafeExactly` | infrastructure/forgejo/forgejo.go:838-859 | no failed migration shows the token, whatever the source token, if and only if it lines up with the marker nowhere and is no part of a fixed text |
| `Errors.SourceRedactionSpellsToken` | infrastructure/forgejo/forgejo.go:850-858 | the token [y[, which its own redaction always removes, is spelled again by the redaction of the source token S in the body [yS |
| `Errors.BlankBodyShowsToken` | infrastructure/forgejo/forgejo.go:1419-1433 | the token "is" is in the message for a blank 423 |
| `Texts.IntRoundTrip` | infrastructure/forgejo/forgejo.go:1227-1234 | a formatted number is read back and contains no delimiter |
| `Texts.DecimalDigits` | infrastructure/forgejo/forgejo.go:1227-1234 | a number is written with one decimal digit after another, after a minus sign if it is negative |
| `Texts.TrimFinds` | server/http.go:49 | trimming finds the text between any surrounding white space |
| `Texts.TrimSplits` | server/http.go:49 | what trimming removes is white space at the ends and nothing else |
| `Texts.TrimExactly` | server/session.go:53-58 | the trimmed text is the one t without white space at its ends that the text is made of with white space around |
| `Texts.SpaceExactly` | server/session.go:53-58 | which bytes are white space, by value |
| `Texts.EscapeRoundTrip` | infrastructure/forgejo/forgejo.go:1236-1239 | an escaped segment is read back, byte for byte |
| `Texts.EscapedIsClean` | infrastructure/forgejo/forgejo.go:1236-1239 | an escaped segment contains no slash, question mark or number sign |
| `Texts.EscapedByte` | infrastructure/forgejo/forgejo.go:1236-1239 | one byte escaped: letters, digits and ten signs stay, any other is a percent sign and two upper-case hex digits |
| `Texts.EscapeAppends` | infrastructure/forgejo/forgejo.go:1236-1239 | a text is escaped byte by byte |
| `Texts.JoinRoundTrip` | infrastructure/forgejo/forgejo.go:1236-1239 | a path of slash-free segments splits into exactly these |
| `Texts.JoinAppends` | infrastructure/forgejo/forgejo.go:1236-1239 | a path has a slash before every segment |
| `EndpointTable.RepositoryTable` | infrastructure/forgejo/forgejo.go:165-169 | GET, PATCH and DELETE of a repository, method and path written out |
| `EndpointTable.FileReadTable` | infrastructure/forgejo/forgejo.go:173-196 | reading a file and listing contents, with ref, page and limit |
| `EndpointTable.FileWriteTable` | infrastructure/forgejo/forgejo.go:480-507 | POST creates and PUT updates the file at an escaped path |
| `EndpointTable.FileDeleteTable` | infrastructure/forgejo/forgejo.go:732-741 | DELETE deletes it; POST without path changes several files |
| `EndpointTable.IssueTable` | infrastructure/forgejo/forgejo.go:554-567 | issues and their labels |
| `EndpointTable.CommentTable` | infrastructure/forgejo/forgejo.go:219-223 | comments of an issue, and the deletion of one |
| `EndpointTable.IssueListTable` | infrastructure/forgejo/forgejo.go:367-376 | the issue listing with state, page and limit |
| `EndpointTable.PullTable` | infrastructure/forgejo/forgejo.go:584-598 | pull requests, their diff and their files |
| `EndpointTable.MergeAndReviewTable` | infrastructure/forgejo/forgejo.go:605-663 | GET asks whether a pull request is merged, POST of the same path merges it; reviews |
| `EndpointTable.PullListTable` | infrastructure/forgejo/forgejo.go:380-389 | the pull request listing |
| `EndpointTable.BranchTable` | infrastructure/forgejo/forgejo.go:304-328 | branches |
| `EndpointTable.TagTable` | infrastructure/forgejo/forgejo.go:789-810 | tags |
| `EndpointTable.CompareTable` | infrastructure/forgejo/forgejo.go:256-259 | the comparison of two commits |
| `EndpointTable.StatusTable` | infrastructure/forgejo/forgejo.go:408-412 | the combined status of a commit |
| `EndpointTable.CommitListTable` | infrastructure/forgejo/forgejo.go:279-290 | the commit listing with sha, page and limit |
| `EndpointTable.ReleaseTable` | infrastructure/forgejo/forgejo.go:686-710 | releases and their assets |
| `EndpointTable.ReleaseListTable` | infrastructure/forgejo/forgejo.go:428-434 | the release listing |
| `EndpointTable.MilestoneTable` | infrastructure/forgejo/forgejo.go:862-893 | milestones |
| `EndpointTable.LabelAndForkTable` | infrastructure/forgejo/forgejo.go:896-926 | labels and forks |
| `EndpointTable.OrganizationTable` | infrastructure/forgejo/forgejo.go:472-476 | organizations |
| `EndpointTable.NewRepositoryTable` | infrastructure/forgejo/forgejo.go:448-466 | a new repository under its owner or the user, and a migrated one |
| `EndpointTable.UserTable` | infrastructure/forgejo/forgejo.go:340-364 | a user, the current one for an empty name, and the user search |
| `EndpointTable.SearchTable` | infrastructure/forgejo/forgejo.go:229-247 | every argument of the repository search under its own key when given |
| `EndpointTable.VerbsExactly` | infrastructure/forgejo/forgejo.go:165-942 | a call goes out as GET if and only if it only reads, and as DELETE if and only if it deletes |
| `Endpoints.ListingRoundTrip` | infrastructure/forgejo/forgejo.go:1226-1234 | filter, page and limit of a listing are read back, non-positive numbers as absent |
| `Endpoints.FileReadBack` | infrastructure/forgejo/forgejo.go:173-202 | contents calls are read back, a file read and the unpaged listing of the same path as one |
| `Endpoints.IssueReadBack` | infrastructure/forgejo/forgejo.go:367-377 | issue and comment calls are read back |
| `Endpoints.PullReadBack` | infrastructure/forgejo/forgejo.go:256-276 | pull request calls are read back, the diff apart from the pull request itself |
| `Endpoints.RefReadBack` | infrastructure/forgejo/forgejo.go:279-335 | branch, tag, comparison and commit calls are read back for any names |
| `Endpoints.ReleaseReadBack` | infrastructure/forgejo/forgejo.go:428-446 | release calls are read back |
| `Endpoints.TrackReadBack` | infrastructure/forgejo/forgejo.go:862-942 | milestone, label and fork calls are read back |
| `Endpoints.RepoReadBack` | infrastructure/forgejo/forgejo.go:165-942 | everything below one repository is read back: the groups do not overlap |
| `Endpoints.PathShape` | infrastructure/forgejo/forgejo.go:1236-1239 | a path splits into exactly the segments of its endpoint: no owner, name, path or query text adds one |
| `Endpoints.ReadBack` | infrastructure/forgejo/forgejo.go:165-942 | method, path and query determine endpoint and arguments, up to the normal form |
| `Endpoints.UniquelyDecodable` | infrastructure/forgejo/forgejo.go:165-942 | two calls send the same request if and only if they have the same normal form |
| `Endpoints.SearchCollides` | infrastructure/forgejo/forgejo.go:340-364 | the user named "search" and the user search without query send the same request |
| `Session.BearerReads` | server/http.go:44-54 | six letters, each of bearer or BEARER, a space, and a token among white space parse to exactly that token |
| `Session.OtherSchemeIsRefused` | server/http.go:44-48 | a header without a space, or with anything else before its first space, yields no token |
| `Session.BearerExactly` | server/http.go:41-54 | a header yields a token if and only if it presents that token in this form |
| `Session.UnauthorizedExactly` | server/http.go:29-38 | a request is answered 401 if and only if its header presents no token |
| `Session.AdditionsKeepToken` | domain/session.go:17-59 | request IDs and sources, in any number and order, leave the token on the context alone |
| `Session.BearerReachesForgejo` | infrastructure/forgejo/forgejo.go:152-162 | through the middleware and all later additions the outbound header is "token " and the presented token, never the configured one |
| `Session.HeaderParts` | server/session.go:49-60 | when the two headers hold the addresses a and b among white space, the parts are the non-empty ones of them, a first; every part is non-empty and has no white space at its ends |
| `Session.RequestContext` | server/session.go:131-149 | the middleware's reassignments give the context that the next two lemmas are about |
| `Session.MiddlewareResolves` | server/session.go:123-149 | every call gets a non-empty request ID and a source, a source once there stays, the token is untouched |
| `Session.RequestIDPrecedence` | server/session.go:132-141 | the request ID is the header's, else the context's, else the hex digits of the random bytes, or unknown without randomness |
| `Session.NoHeadersMeansStdio` | server/session.go:143-148 | a call without headers and source has the source STDIO |
| `Session.MiddlewareIsStable` | server/session.go:131-149 | a second pass keeps request ID and source of the first |
| `Session.SourceIsAddressChain` | server/session.go:143-149 | the source of a call that brings none is the real IP, the chain of forwarders, both joined with the real IP first, or STDIO when both headers are blank |
| `Session.HexLength` | server/session.go:21-30 | a generated ID has two lower-case hex digits for each random byte |
| `ForgejoClient.MergedAnswerExactly` | infrastructure/forgejo/forgejo.go:615-627 | "not merged" means 404 and nothing else, "merged" any success, and all else fails as any other request does |
| `ForgejoClient.LogTellsWhatCame` | infrastructure/forgejo/forgejo.go:1258-1263 | observation i has the method that went out with request i, the status and size of its answer or of what came of a broken one, zeros when nothing came, and the request's size and time |
| `ForgejoClient.PresentedTokenGoesOut` | infrastructure/forgejo/forgejo.go:152-162 | a request that acts for the context that a bearer header led to carries the presented token |
| `ForgejoClient.LoggedNext` | infrastructure/forgejo/forgejo.go:69-86 | one more request and its observation keep the two logs equal, entry by entry |
| `ForgejoClient.Client.Execute` | infrastructure/forgejo/forgejo.go:1258-1260 | the request goes out with authorization, request ID and body, and its outcome is the upstream's next; nothing is observed yet |
| `ForgejoClient.Client.Observe` | infrastructure/forgejo/forgejo.go:72-86 | one observation is added, or none without an observer |
| `ForgejoClient.Client.Do` | infrastructure/forgejo/forgejo.go:1246-1280 | exactly one request goes out, with the context's token, else the configured one, and the context's request ID; the result is the outcome's classification, and by its own observation the observer's log equals the request log again |
| `ForgejoClient.Client.DoJSON` | infrastructure/forgejo/forgejo.go:1288-1325 | the same with a body |
| `ForgejoClient.Client.DoText` | infrastructure/forgejo/forgejo.go:1330-1356 | the same for plain text, which is returned as it is |
| `ForgejoClient.Client.UploadReleaseAsset` | infrastructure/forgejo/forgejo.go:697-728 | the same for an attachment, whose size is observed |
| `ForgejoClient.Client.IsPullRequestMerged` | infrastructure/forgejo/forgejo.go:605-628 | one probe, without request ID, observed like the others |
| `ForgejoClient.Client.GetPullRequest` | infrastructure/forgejo/forgejo.go:392-425 | the requests go out in order, the last for the head the first one named, and stop after the first failure, which is the caller's; otherwise the detail is made of the three answers |
| `ForgejoClient.ChecksFromWire` | infrastructure/forgejo/forgejo.go:414-422 | the checks are the statuses in order, field by field |
| `ForgejoClient.Client.MigrateRepository` | infrastructure/forgejo/forgejo.go:832-847 | one request goes out; an error is returned exactly when it failed, and it is the request's failure with the source token redacted as well |
| `Application.NextWriteExactly` | application/application.go:134-145 | 404 means create, a readable answer means update under the blob SHA it names, anything else ends the write with the probe's own failure |
| `Application.NextDeleteExactly` | application/application.go:252-257 | a readable answer means delete under the blob SHA it names, anything else, 404 included, ends the call with the probe's own failure |
| `Application.SecondRequestCarries` | infrastructure/forgejo/forgejo.go:480-511 | the second request of a write or delete addresses the path of its probe and carries message, branch, content and no blob SHA to create, the probe's to update or delete |
| `Application.WriteFile` | application/application.go:126-146 | a probe, then by its answer alone a create, an update under the SHA it named, or nothing, both under the caller's token and request ID; the result is the second request's, or the probe's failure |
| `Application.DeleteFile` | application/application.go:245-258 | a probe, then a delete under the SHA it named, or nothing, both for the caller |
| `Application.DeleteBranch` | application/application.go:260-274 | the delete goes out if and only if the repository was readable and named another default branch; both requests for the caller |
| `Application.MergePullRequest` | application/application.go:199-219 | the merge goes out if and only if the probe said "not merged"; a merged pull request is reported as such; both requests for the caller, the probe without request ID |
| `WriteProtocol.ServerCarriesOutWhatWasSent` | infrastructure/forgejo/forgejo.go:480-511 | a server that sees only method, path, query and body of the requests of a write or delete reads from them the file, the condition and the content, so that what it carries out is the protocol's step |
| `WriteProtocol.OnlyEffectsChangeFiles` | infrastructure/forgejo/forgejo.go:480-511 | a step changes at most one file: the one another client stored or the one its call records, from what was there to what was asked for |
| `WriteProtocol.CheckedIsSeen` | domain/domain.go:497-498 | the server's conflict check succeeds only on the content the probe saw |
| `WriteProtocol.SuccessReplacesWhatItSaw` | application/application.go:126-146 | in every interleaving a successful write or delete replaced or removed exactly the content its own probe saw; a failed one changed nothing, or, when its failure is transient or an unreadable success, the same thing |
| `WriteProtocol.HarmlessExactly` | domain/domain.go:30-31 | over all runs, a failure of a kind rules out a change if and only if the kind is neither transient nor validation |
| `WriteProtocol.FailedReplyMayHaveChanged` | infrastructure/forgejo/forgejo.go:1306-1324 | for a write as for a delete, after any reply that is no refusal below 500 the change may have been made |
| `WriteProtocol.RunsAreSerializable` | application/application.go:245-258 | every run ends with the files, and with the outcome of every call that changed something, of a serial run |
| `WriteProtocol.EveryRunIsSerial` | application/application.go:126-146 | the same from any sound state: calls that changed nothing are invisible, each other one does probe and request next to each other |
| `WriteProtocol.SerialIsSerial` | application/application.go:126-146 | in the serial run every probe is followed at once by its own carried-out request |
| `WriteProtocol.CollisionLosesUpdate` | domain/domain.go:497-498 | with two contents of one blob SHA a write replaces a content its probe never saw |
| `Guards.ForbiddenActExactly` | application/application.go:260-274 | the second request meets the forbidding fact if and only if since its check the branch was made the default and no other one after it, or the pull request was merged |
| `Guards.GuardHolds` | application/application.go:199-219 | if no event but a call's own request makes its forbidding fact true between its check and that request, no run sends a delete of the default branch or a merge of a merged pull request |
| `Guards.DefaultBranchSurvives` | application/application.go:260-274 | in such a run the default branch exists throughout |
| `Guards.MergeIsUndisturbed` | application/application.go:199-219 | such a run may check and merge a pull request |
| `Guards.ClearedMeansAllowed` | application/application.go:262-273 | an answer that clears a call was given when nothing forbade it |
| `Guards.DefaultBranchCanBeDeleted` | application/application.go:260-274 | a run in which the branch becomes the default after the check, and at whose end the default branch is gone |
| `Guards.MergeCanComeTooLate` | application/application.go:199-219 | a run in which two merges pass their checks and the second is sent after the first merged |
| `Metrics.UpstreamCollector.ObserveUpstream` | observability/upstream.go:66-73 | four separate updates in this order, of method and status, duration, request size and response size, and what a scrape finds after each |
| `Metrics.StepKeepsAccount` | observability/upstream.go:68-73 | every metric holds exactly what the calls past its update put there |
| `Metrics.CountsAreOrdered` | observability/upstream.go:68-73 | at every point of every interleaving totals >= durations >= request sizes >= response sizes, and the whole gap is the number of calls between their first and last update |
| `Metrics.QuietMetricsAreExact` | observability/upstream.go:66-73 | with no call in flight the four counts are equal, each label's total is its number of observations and each histogram holds exactly the observed values |
| `Metrics.QuietMetricsCount` | observability/upstream.go:66-73 | with no call in flight the total of a method and status is the number of observations that had them, and every duration and size is in its histogram as often as it was observed |
| `Metrics.BackwardScrapeIsOrdered` | observability/upstream.go:68-73 | a scrape that reads the last updated metric first sees the order whatever happens between its reads |
| `Metrics.ForwardScrapeIsNot` | observability/upstream.go:68-73 | one that reads the total first can see more durations than requests |
| `ServeLoop.SendNeverBlocks` | cmd/mcp-forgejo/main.go:81-91 | the serving goroutine sends at most once and its send never blocks |
| `ServeLoop.ReturnsExactly` | cmd/mcp-forgejo/main.go:93-103 | no error is returned if and only if the select took the cancellation; otherwise the returned error is the one serving failed with |
| `ServeLoop.MissedExactly` | cmd/mcp-forgejo/main.go:95-102 | a failure of serving is not what is returned if and only if the select took the cancellation |
| `ServeLoop.FailureOrCancelReturns` | cmd/mcp-forgejo/main.go:93-103 | after a failure or cancellation the program can move until the function has returned, within five steps |
| `ServeLoop.RunsAreShort` | cmd/mcp-forgejo/main.go:74-104 | every event uses up one of finitely many steps |
| `ServeLoop.FailureCanBeMissed` | cmd/mcp-forgejo/main.go:95-102 | a run in which serving fails and the function returns no error |
| `ServeLoop.FailureCanWin` | cmd/mcp-forgejo/main.go:95-102 | a cancelled run that returns the failure |
| `ServeLoop.UnbufferedGoroutineIsStuck` | cmd/mcp-forgejo/main.go:81-84 | without the buffer the goroutine can be stuck for ever |

## Left out

- Libraries that are not in the repository: resty, the MCP SDK, JSON, logrus, Prometheus. The model has
  the calls made to them: outcomes of requests, an observation log, multisets of labels and values.
- Pass-through use cases, empty-name checks, confirm flags and the two-request review: one reading
  settles them.
- Tool registration, annotations, argument redaction for logs, logging and its level mapping, the debug
  log of upstream requests, configuration, the internal HTTP endpoints: configuration and finite tables.
- Response decoding beyond the one field an orchestration goes on with, and the result of a delete, whose
  entry is mapped field by field.
- Redaction of the per-request bearer token: the code redacts the configured token and the source token
  only, and so does the model.
- OSC strings, C1 controls and escape sequences with intermediate bytes: the scanner handles ESC [ and
  ESC with one byte, and the model describes that.
- Randomness of request IDs, clock readings and the size of a JSON body are parameters; which pages a
  caller asks for is not validated by the code and not by the model.
- SetLogger and SetObserver: whether a client observes is fixed when the model's client is made.
- The branch of the source-token redaction for errors of other types: the client produces typed errors only.
- Endpoints.UniquelyDecodable: a query is a map from keys to values, the encoding of its text being the
  library's; dot segments are not normalised; integers are unbounded, of which int64 is a part.
- Texts.TrimSplits: white space outside ASCII, which the library trims as well, is not white space here.
- Session.BearerReachesForgejo: header values are byte strings; how the HTTP library normalises them is
  not part of this model.
- FileCodec.WriteMany: branch and message of a multi-file write and the SHA of its commit are passed on as
  they are and left out.
- ForgejoClient.Client.GetPullRequest: the pull request and its files are the answers that they are
  decoded from; what statuses an answer holds is an unknown function of the client.
- WriteProtocol.RunsAreSerializable: a file is known by the branch as it was named, so that the empty
  branch and the default branch are two places; commits that touch several files are steps of other clients.
- Metrics.UpstreamCollector.ObserveUpstream: the zero-valued series that the constructor creates, and the
  buckets of the histograms, are left out; durations and sizes are exact numbers.
