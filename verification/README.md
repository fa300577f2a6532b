# Verified models of Tarn's engines

Tarn emulates AWS services on one machine. This project models the parts of it whose correctness is hard to see by
reading one function at a time, in Dafny, and proves what callers rely on. `dafny verify dfyconfig.toml` checks
everything.

- **DynamoDB item engine** (`Decimals`, `Attributes`, `Store`, `WriteAnswers`,
  `Conditions`, `Paths`, `Paging`, `TableReads`). Number texts have one
  canonical spelling per rational number; canonical values are fixed points and their equality is sameness of meaning;
  hence an update cannot move an item to another key, every stored item sits under the serialisation of its own key,
  replaying the change log rebuilds the tables, transactions are serial in any order and batches do not depend on map
  order. Condition texts survive printing and parsing. Document paths obey the assign, remove and project laws, with the
  exact inputs on which they fail. Pages of a read, put together, are the matching items in order, exactly if no two
  stored keys read alike; the segments of a parallel scan share out the full scan.
- **Cognito** (`Modular`, `Srp`, `SrpClient`, `Sessions`, `UserPools`, `SignIns`). A client written on bytes and the server
  compute one SRP secret (RFC 5054, section 2.6), so an honest response is accepted, and one for another pool, user,
  block or time is refused. When a sign-in yields tokens, and what each operation changes, is stated exactly. The
  refresh-token index always equals the one rebuilt from the users' sessions, and a session that ended stays ended
  through every run, with the one exception (a restart from a file older than the revocation) stated exactly.
- **ECS graphs** (`DependsOn`, `Flush`, `FlushChains`). The dependency search reports a cycle exactly when there is one;
  the closure loop behind a targeted flush selects the least set closed under its association rules, which is what chains
  of agreeing references reach from the matches, and stops.
- **Interleavings** (`Connections`, `Accounts`, `AccountCalls`). Connection operations that wait for AWS between two
  locked parts behave as if each ran alone at its commit, and their file can be read again exactly under a condition on
  names; no account is both archived and loaded, each bundle is stopped once, and an account that was archived, restored
  or deleted stays so whatever older writers do.
- **Smaller pieces** (`Routes`, `Proxy`, `SemVer`). When route selection is free of list order and when template
  parameters rebuild the path is stated exactly; the database proxy loses at most part of one unfinished message;
  release precedence is a total preorder that follows section 11 of Semantic Versioning 2.0.0 except on identifiers that
  look negative.

Code that updates state in place is a class or a method with loops, proved equal to a function of values; the lemmas are
about those functions. Functions named after Go functions do what those functions do, errors included. `Strings`,
`Integers` and `Wrappers` hold shared helpers.

Assumptions: hash functions, HMAC, HKDF and JSON encoding are function parameters or injective encodings; random ids,
tokens and UUIDs are never drawn twice; sorting and binary search of the Go library do what their documentation says; a
locked region is one step; clocks are inputs.

Where the code differs from what its own comments or tests suggest, the code is kept. One lemma says exactly when it does
what is meant, and where an input helps another shows one:

- `Paths.AssignReads`: reading what was assigned; `Paths.RemoveExact` (`Paths.ListTagRemoved`): a removal leaves every
  other path alone.
- `Paging.StoredCompleteExact` (`Paging.BinaryKeysLost`), `TableReads.TableCompleteExact`
  (`TableReads.TextlessKeysLost`): no item is skipped between pages.
- `Decimals.CanonicalAccepts`: a number is accepted, refused, or too long to write.
- `Sessions.FirstRestartDecides` (`Sessions.RevocationLost`): a revocation survives a restart.
- `Accounts.SecondArchive` (`Accounts.SecondArchiveSavesNothing`): a successful Archive call means a saved mark.
- `AccountCalls.ErasedExact` (`AccountCalls.TouchRevives`): a deleted account stays deleted.
- `Connections.AlwaysReadableExact`, `Connections.StepReadableExact` (`Connections.DottedI`): the connection file can be
  read again.
- `Routes.RebuildExact` (`Routes.RepeatedNameLoses`): parameters give back the path; `Routes.OrderFreeExact`
  (`Routes.TwoDefaultsDepend`): the order of the routes does not matter.
- `Proxy.FirstTypeDecides`, `SemVer.NegativeLookExact`, `Srp.PadHexDecodesExactly`: relaying, comparing, decoding.

## Model

| member | source | states |
|---|---|---|
| Decimals.ReadComplete | internal/dynamodb/attr.go:19-40 | every well-formed number text is read as the number it denotes |
| Decimals.ReadSound | internal/dynamodb/attr.go:19-40 | every text that is read is a well-formed number text with that meaning |
| Decimals.NumberSigned | internal/dynamodb/attr.go:19-40 | the sign of a text is that of its number; plain digits are the number they spell |
| Decimals.NormalUnique | internal/dynamodb/attr.go:40-64 | two normal forms of one rational number are identical |
| Decimals.RenderReads | internal/dynamodb/attr.go:40-64 | the stored text of a number reads back as that number |
| Decimals.CanonicalKeepsNumber | internal/dynamodb/attr.go:19-64 | canonicalising does not change the number |
| Decimals.CanonicalIdempotent | internal/dynamodb/attr.go:19-64 | canonicalising a canonical text gives it back |
| Decimals.CanonicalUnique | internal/dynamodb/attr.go:19-64 | two accepted texts get one canonical text exactly when they denote one number |
| Decimals.CanonicalAccepts | internal/dynamodb/attr.go:19-64 | a text is accepted exactly when it is a numeral of at most 38 significant digits whose plain text can be built; with only the digits few enough the call panics |
| Decimals.CanonicalNumber | internal/dynamodb/attr.go:19-64 | the string-cutting algorithm ends with the canonical text, a refusal or a panic, as the number demands |
| Decimals.CanonicalDigits | internal/dynamodb/attr.go:38-47 | stripping zeros on both sides normalises the decimal |
| Decimals.WriteOut | internal/dynamodb/attr.go:48-63 | the switch writes the normalised decimal out, or panics when its zeros are too many |
| Decimals.WrapHarmless | internal/dynamodb/attr.go:37-42 | exponents that wrap around in 64 bits end the same as unbounded ones |
| Attributes.NumberSetAccepted | internal/dynamodb/attr.go:84-107 | a number set is accepted exactly when non-empty with pairwise different numbers, however spelled |
| Attributes.SetAscending | internal/dynamodb/attr.go:104-152 | a canonical set lists exactly the canonical members, numbers by value and texts by their first difference |
| Attributes.SetOrderIrrelevant | internal/dynamodb/attr.go:84-107 | the canonical set is the same for every order of the members |
| Attributes.CanonicalSetFixed | internal/dynamodb/attr.go:84-107 | canonical sets are fixed points |
| Attributes.CanonicalFixed | internal/dynamodb/attr.go:68-130 | canonical values are fixed points at any nesting |
| Attributes.CanonicalIsMeaning | internal/dynamodb/attr.go:68-130 | accepted values have one canonical form exactly when they mean the same, at any nesting |
| Attributes.EqualIsSameMeaning | internal/dynamodb/attr.go:319-328 | attribute equality holds exactly for accepted values of one meaning, hence is an equivalence |
| Attributes.CanonicalRepresents | internal/dynamodb/attr.go:319-328 | a value equals its canonical form; equality coincides with identity of canonical forms |
| Attributes.CanonicalItemFixed | internal/dynamodb/attr.go:132-145 | canonical items are fixed points |
| Attributes.BeforeTotal | internal/dynamodb/attr.go:147-152 | set members of one kind are totally ordered, numbers by value |
| Attributes.CanonicalizeSet | internal/dynamodb/attr.go:84-107 | the loops of the set branch compute the canonical set or reject duplicates |
| Attributes.CanonicalizeAttr | internal/dynamodb/attr.go:68-130 | the recursive loop computes the canonical value |
| Attributes.CanonicalizeItem | internal/dynamodb/attr.go:132-145 | visiting the fields in any order computes the canonical item |
| Store.PlanExact | internal/dynamodb/write.go:45-107 | a write is planned exactly when its condition holds of the stored item under the key it addresses and its effect is allowed: the item put, the stored item (or the bare key) updated, or none |
| Store.UpdateApplies | internal/dynamodb/write.go:84-102 | the next image of an update is the canonical form of the update applied to the stored item, or to the key if nothing is stored |
| Store.UpdateStays | internal/dynamodb/write.go:84-102 | an accepted update leaves a canonical item under the serialisation of the old key |
| Store.PlanCurrent | internal/dynamodb/write.go:45-107 | a plan describes its own slot of the current table: previous image, key, canonical next image |
| Store.CommitReplays | internal/dynamodb/write.go:111-129 | a commit has exactly the effect of replaying the records it emits; none emitted means no effect |
| Store.RecordedExactly | internal/dynamodb/write.go:111-129 | a commit leaves one record with both images exactly if the item changed |
| Store.ReplayConcat | internal/dynamodb/write.go:111-129 | replaying a log is replaying its parts in turn |
| Store.SlotAfter | internal/dynamodb/write.go:111-129 | a commit sets its own item and no other, and keeps the tables consistent |
| Store.PlanUnaffected | internal/dynamodb/write.go:45-107 | committing other items does not change what a write is planned to do |
| Store.SerialInAnyOrder | internal/dynamodb/write.go:368-415 | planning all writes first and committing afterwards equals running them one at a time in any order |
| Store.DonePlans | internal/dynamodb/write.go:368-415 | a transaction that commits planned every action, each on a different item |
| Store.TransactionIsSerial | internal/dynamodb/write.go:368-415 | a committed transaction leaves the tables its actions leave one at a time in any order |
| Store.BatchDeterministic | internal/dynamodb/write.go:253-292 | the tables after a batch do not depend on the order its tables were visited in |
| Store.TableStore.CommitLocked | internal/dynamodb/write.go:111-129 | sets the item and item count, logs the records; the log replayed from the start still gives the tables |
| Store.TableStore.WriteOne | internal/dynamodb/write.go:132-143 | a planned write leaves its item as the put, the update of the stored item or nothing, every other item as before, and its record; any other answer changes nothing |
| Store.TableStore.CommitPlans | internal/dynamodb/write.go:407-412 | commits plans made on one state in turn, each still current when its turn comes |
| Store.TableStore.TransactWriteItems | internal/dynamodb/write.go:368-415 | refused, cancelled with the failed conditions, or done; unless done nothing changes and nothing is logged |
| Store.TableStore.BatchWriteItem | internal/dynamodb/write.go:253-304 | accepted exactly for 1 to 25 plannable entries on different items; writes all of them or nothing |
| Store.TableStore.SweepExpired | internal/dynamodb/ttl.go:20-48 | removes exactly the expired items of every table with TTL; the new records are one removal for each of them |
| Store.TableStore.SweepTable | internal/dynamodb/ttl.go:29-40 | the same for one table |
| Store.CountRequests | internal/dynamodb/write.go:254-260 | the entry count over all tables of a batch |
| WriteAnswers.TransactionExact | internal/dynamodb/write.go:368-415 | done exactly when each of 1 to 100 actions is allowed, all on different items; cancelled exactly when only conditions are false, and those are the ones reported |
| WriteAnswers.EntryStored | internal/dynamodb/write.go:253-292 | after a batch every entry's item is stored in canonical form, or gone |
| WriteAnswers.SweepLeaves | internal/dynamodb/ttl.go:20-61 | a sweep leaves exactly the items whose TTL attribute is not a number up to now, as they were |
| WriteAnswers.TableNameExact | internal/dynamodb/store.go:922-938 | a table is meant by its name or by an ARN, up to the next slash |
| WriteAnswers.IndexOfFirst | internal/dynamodb/store.go:930-937 | the first occurrence, or none |
| Conditions.Tokenize | internal/dynamodb/expr.go:481-513 | the index loop computes the tokens of any text over the alphabet |
| Conditions.SpellReads | internal/dynamodb/expr.go:481-513 | tokens spelled with spaces between them are read back |
| Conditions.ParsePrinted | internal/dynamodb/expr.go:520-696 | parsing the tokens of a tree printed with minimal parentheses gives the tree and takes all tokens |
| Conditions.PrintParses | internal/dynamodb/expr.go:481-696 | printing, tokenising and parsing a tree gives it back |
| Conditions.RoundTrip | internal/dynamodb/expr.go:481-696 | whatever the parser builds from a text survives the round trip |
| Conditions.ExprParser.ParseExpression | internal/dynamodb/expr.go:524-537 | the OR loop: result and position are those of the grammar function |
| Conditions.ExprParser.ParseAndExpression | internal/dynamodb/expr.go:539-552 | the AND loop, left-associative |
| Conditions.ExprParser.ParseNotExpression | internal/dynamodb/expr.go:554-563 | NOT binds tighter than AND |
| Conditions.ExprParser.ParsePrimaryExpression | internal/dynamodb/expr.go:565-580 | parentheses, functions and comparisons |
| Conditions.ExprParser.ParseAfterOperand | internal/dynamodb/expr.go:580-629 | comparison, BETWEEN with its own AND, and IN after an operand |
| Conditions.ExprParser.ParseFunctionCall | internal/dynamodb/expr.go:631-653 | a function name and its arguments |
| Conditions.ExprParser.ParseOneOperand | internal/dynamodb/expr.go:655-674 | one operand, size included |
| Paths.AssignReads | internal/dynamodb/expr.go:1037-1118 | reading an assigned path gives the assigned value exactly unless the write lands beside a type tag |
| Paths.AssignKeeps | internal/dynamodb/expr.go:1037-1118 | every diverging path keeps its value, present or absent |
| Paths.AssignAddressable | internal/dynamodb/expr.go:1037-1118 | the paths that can be assigned and read back are exactly those whose parents are maps, in-range elements or missing under a map |
| Paths.RemoveAbsent | internal/dynamodb/expr.go:1120-1179 | a removed map member is absent |
| Paths.RemoveShifts | internal/dynamodb/expr.go:1120-1179 | removing a list element moves the later ones down by one |
| Paths.RemoveExact | internal/dynamodb/expr.go:1120-1179 | a removal leaves every path that parts from it exactly unless it names the type tag of a list that has elements |
| Paths.ListTagRemoved | internal/dynamodb/expr.go:1171-1178 | such a removal: the list's first element is lost |
| Paths.ProjectExact | internal/dynamodb/expr.go:80-100 | projecting index-free paths returns the item's values at those paths and nothing else |
| Paging.OrderTie | internal/dynamodb/store.go:978-987 | two stored keys compare as equal exactly when each pair of attributes is the same or decodes alike |
| Paging.BeforeExact | internal/dynamodb/store.go:948-1003 | views ascend by the first key attribute that differs, a lower number or an earlier text, or descend if asked to |
| Paging.KeyOrder | internal/dynamodb/store.go:989-1003 | keys of one schema are totally ordered |
| Paging.SortedExact | internal/dynamodb/store.go:948-975 | the sorted views are in strict order exactly when no two stored keys read alike |
| Paging.FindExclusiveStart | internal/dynamodb/store.go:1007-1028 | binary search finds the first view past the start key in walk order |
| Paging.StartAfterView | internal/dynamodb/store.go:1007-1028 | resuming after a view resumes at the next one exactly unless that has an equal key |
| Paging.Read | internal/dynamodb/read.go:65-161 | a read starts just after the start key and returns a page: the views of the segment that meet key condition and filter, in order, up to where limit or cap is first reached |
| Paging.ReadFrom | internal/dynamodb/read.go:121-161 | the page loop |
| Paging.ReadExact | internal/dynamodb/read.go:121-161 | a page counts the views that meet segment and key condition, never exceeds the limit, and stops short exactly when limit or cap is reached |
| Paging.ReadFails | internal/dynamodb/read.go:126-145 | a read fails only over a view whose condition or filter cannot be evaluated |
| Paging.MatchingWanted | internal/dynamodb/read.go:126-145 | a view is a match exactly when it is listed, of the segment asked for, and key condition and filter are true of it |
| Paging.MatchingExact | internal/dynamodb/read.go:126-145 | the matches are the views at the ascending positions of all of those |
| Paging.PageExact | internal/dynamodb/read.go:121-161 | a page holds exactly the matches of the stretch it walked, and stops short only with the key of its last view |
| Paging.PagesComplete | internal/dynamodb/read.go:65-161 | over strictly ordered keys the pages put together are the matches, once each, in order, for every sequence of limits, cap and direction |
| Paging.CompleteExact | internal/dynamodb/read.go:65-161 | no read of a list loses a match, whatever the limits and filters, exactly when no two keys compare as equal |
| Paging.StoredCompleteExact | internal/dynamodb/attr.go:281-299 | no read of a table or index loses a match exactly when no two of its stored keys read alike |
| TableReads.PlanTyped | internal/dynamodb/attr.go:156-192 | what a write stores has every key attribute with the type defined for it and keeps within the size limit |
| TableReads.RunTyped | internal/dynamodb/attr.go:156-192 | writes in turn leave every key attribute, of table and indexes, with the type defined for it |
| TableReads.SweepTyped | internal/dynamodb/ttl.go:29-40 | so does a sweep |
| TableReads.ListsCollected | internal/dynamodb/store.go:948-975 | the sorted views of such a table have canonical keys of one schema, as every read assumes |
| TableReads.RawsDiffer | internal/dynamodb/store.go:948-975 | different items have different keys in every index |
| TableReads.TableCompleteExact | internal/dynamodb/store.go:948-1028 | without binary keys, reading page by page never loses an item exactly if no two keys differ only in string attributes that hold no string |
| TableReads.ItemsReturned | internal/dynamodb/read.go:65-161 | of a table or index with string and number keys, the pages return an item exactly if it is of the segment and meets key condition and filter |
| TableReads.TextlessKeysLost | internal/dynamodb/attr.go:193-205 | two such keys are accepted as two items, of which a paged scan can lose one |
| Paging.BinaryKeysLost | internal/dynamodb/attr.go:288-292 | two binary keys that base64 reads alike: one of the items is skipped |
| Paging.PagesEnd | internal/dynamodb/read.go:65-161 | following the returned key ends |
| Paging.PursuitMissesNothing | internal/dynamodb/store.go:1004-1028 | a match present in every snapshot, with a key no other compares equal to, is returned even if other items come and go between pages |
| Paging.PursuitInOrder | internal/dynamodb/store.go:1004-1028 | keys come in order across pages of a changing table and nothing is returned twice |
| Paging.SegmentsPartition | internal/dynamodb/read.go:126-128 | the segments of a parallel scan share out the full scan, every match exactly once |
| Paging.SegmentOf | internal/dynamodb/read.go:165-170 | an item's segment is below the total |
| Srp.TextParses | internal/cognito/srp.go:76-111 | numbers stored as hex text are read back |
| Srp.PadHexDecodes | internal/cognito/srp.go:44-61 | padded hex decodes to bytes that denote the number, top bit clear |
| Srp.PadHexDecodesExactly | internal/cognito/srp.go:44-61 | it decodes exactly for numbers that are not negative |
| Srp.PadHexInjective | internal/cognito/srp.go:44-53 | different numbers have different encodings |
| Srp.PadHexShortest | internal/cognito/srp.go:44-53 | no leading byte can be dropped |
| Srp.HexHashOfPair | internal/cognito/srp.go:55-61 | two padded numbers are hashed whole, one after the other |
| Srp.PairDecodesExactly | internal/cognito/srp.go:118-128 | the pair that gives u is hashed whole exactly when the client's value is not negative |
| Srp.SrpXInput | internal/cognito/srp.go:69-74 | x is derived from the whole salt and the whole inner digest |
| Srp.ServerBase | internal/cognito/srp.go:118-134 | the server's base is congruent to g to the power a + u x |
| Srp.ClientBase | internal/cognito/srp.go:92-111 | B minus k times the verifier is congruent to g to the power b |
| Srp.SecretsAgree | internal/cognito/srp.go:92-134 | for every modulus and private values the two sides compute one secret |
| SrpClient.PadHexIsPadded | internal/cognito/srp.go:44-53 | the hexadecimal encoding decodes to the shortest two's complement bytes of the number |
| SrpClient.ScramblersAgree | internal/cognito/srp.go:122-125 | both sides derive one u from the bytes of A and B |
| SrpClient.PrivateKeysAgree | internal/cognito/srp.go:69-74 | the verifier is made from the x the client computes |
| SrpClient.SignatureIs | internal/cognito/srp.go:132-142 | the server signs pool name, user, block and time under the key derived from the bytes of secret and u |
| SrpClient.HonestResponsePasses | internal/cognito/srp.go:92-145 | the response of a client that works on bytes from the challenge and its password is accepted exactly when u is not zero |
| SrpClient.SignatureBinds | internal/cognito/srp.go:118-145 | of signatures made with the exchange's u, exactly those over the server's own secret and message pass, for primitives that do not collide |
| SrpClient.OtherMessageRefused | internal/cognito/srp.go:137-145 | a signature over another message is refused |
| SrpClient.OtherResponseRefused | internal/cognito/srp.go:137-145 | so is a client's response for another pool, user, block or time |
| Srp.StartRejectsZero | internal/cognito/srp.go:92-111 | the exchange starts exactly when A is not zero modulo N |
| Sessions.IndexUnique | internal/cognito/service.go:257-263 | one set of users has one refresh index |
| Sessions.IndexOfIndexed | internal/cognito/service.go:257-263 | rebuilding indexes every session under its own hash, whatever the order |
| Sessions.StepKeeps | internal/cognito/tokens.go:348-383 | every operation keeps index, user keys and drawn ids in agreement |
| Sessions.IndexAlwaysRebuilt | internal/cognito/service.go:241-263 | in every reachable state, reloads included, the index equals the rebuilt one |
| Sessions.RefreshExact | internal/cognito/auth.go:293-319 | a refresh succeeds exactly when some user's session has the token, client, life and standing for it |
| Sessions.StartedRefreshes | internal/cognito/tokens.go:348-371 | a session just started refreshes until it expires |
| Sessions.GoneRefused | internal/cognito/tokens.go:394-425 | a session that is gone neither refreshes nor authenticates an access token |
| Sessions.StepCarries | internal/cognito/users.go:446-480 | no operation but a restart brings a session back or un-revokes it |
| Sessions.GoneForever | internal/cognito/tokens.go:373-383 | once gone, refused after every run whose restarts follow a flush, a new user of the same name included |
| Sessions.FirstRestartDecides | internal/cognito/service.go:118-167 | with nothing flushed before a restart, what the disk says decides |
| Sessions.RevocationLost | internal/cognito/service.go:197-239 | a revocation not yet flushed is lost by a restart |
| Sessions.RevokeTokenEnds | internal/cognito/public.go:425-450 | the issuing client ends a session by revoking its token; another client changes nothing |
| Sessions.AllEnded | internal/cognito/users.go:437-480 | sign-out, disabling, a password reset and deletion each end every session of the user |
| SignIns.PasswordExact | internal/cognito/auth.go:137-192 | a correct password yields tokens exactly for a confirmed, unreplaced user of whom no second factor is asked; otherwise the challenge or error that fits the status |
| SignIns.SrpExact | internal/cognito/auth.go:264-283 | SRP yields a password challenge exactly for an enabled, unreplaced user and a usable A |
| SignIns.RespondExact | internal/cognito/auth.go:385-450 | an answer yields tokens exactly when right, to a pending challenge of this kind and client, by a confirmed user of whom no further factor is due; which challenge follows otherwise |
| SignIns.RespondIs | internal/cognito/auth.go:385-450 | what an answer leaves: one session or challenge more, or the error that fits |
| SignIns.MintExact | internal/cognito/admin.go:386-404 | minting yields tokens exactly for an enabled user |
| SignIns.CodeAskedAfter | internal/cognito/auth.go:180-192 | a code is only asked for once the first factor is proven |
| SignIns.SessionBegins | internal/cognito/auth.go:180-192 | a session begins only by minting, by a first factor with no second one asked, or by the right code |
| SignIns.StepTouches | internal/cognito/users.go:446-557 | an operation changes no record but its user's, and of that what it is meant to change |
| SignIns.SessionStays | internal/cognito/tokens.go:348-383 | a session stays as it is until it is ended, and is dropped only with its user or once expired |
| SignIns.AccessExact | internal/cognito/tokens.go:394-425 | an access token is accepted exactly until it runs out, while its user is enabled and its session unrevoked |
| SignIns.StartedAuthenticates | internal/cognito/tokens.go:348-425 | the access token of a session just started is accepted until it runs out |
| Sessions.AnswerSpends | internal/cognito/auth.go:385-450 | answering spends a challenge, except for the two errors that leave it usable |
| Sessions.SpentStays | internal/cognito/auth.go:224-241 | a spent challenge stays spent and is refused |
| UserPools.Pool.StartSession | internal/cognito/tokens.go:348-371 | prunes the expired sessions from user and index together, then records the new one |
| UserPools.Pool.Prune | internal/cognito/tokens.go:350-355 | the pruning loop, in any order |
| UserPools.Pool.RevokeSessions | internal/cognito/tokens.go:376-383 | marks one session, or all when no id is given |
| UserPools.Pool.DeleteUser | internal/cognito/users.go:474-480 | removes the user and the index entries of all its sessions |
| UserPools.Pool.Load | internal/cognito/service.go:241-263 | rebuilds the index of a pool read back from disk |
| UserPools.Pool.Ask | internal/cognito/auth.go:224-241 | drops expired challenges and records the new one |
| UserPools.Pool.CompleteAuth | internal/cognito/auth.go:156-193 | status and second factor decide between an error, the next challenge and a session |
| UserPools.Pool.CreateUser | internal/cognito/public.go:59-77 | a free name gets a user without sessions |
| UserPools.Pool.PasswordAuth | internal/cognito/auth.go:137-149 | a user record replaced since it was checked is refused |
| UserPools.Pool.SrpAuth | internal/cognito/auth.go:264-283 | an enabled, unreplaced user gets a password challenge |
| UserPools.Pool.RespondToChallenge | internal/cognito/auth.go:385-450 | the locked part of answering a challenge |
| UserPools.Pool.MintTokens | internal/cognito/admin.go:386-404 | a session for an enabled user without a password |
| UserPools.Pool.RefreshLocked | internal/cognito/auth.go:293-319 | succeeds exactly for usable sessions, wherever they are filed |
| UserPools.Pool.AuthenticateAccess | internal/cognito/tokens.go:394-425 | the checks on a correctly signed access token |
| UserPools.Pool.RevokeToken | internal/cognito/public.go:425-450 | revokes the session a refresh token belongs to |
| UserPools.Pool.GlobalSignOut | internal/cognito/public.go:406-416 | revokes every session of the caller |
| UserPools.Pool.DeleteOwnUser | internal/cognito/public.go:367-377 | deletes the caller |
| UserPools.Pool.SetEnabled | internal/cognito/users.go:446-460 | disabling also revokes |
| UserPools.Pool.AdminResetUserPassword | internal/cognito/users.go:517-536 | a reset also revokes |
| UserPools.Pool.AdminUserGlobalSignOut | internal/cognito/users.go:547-557 | revokes every session of a user |
| UserPools.Pool.AdminDeleteUser | internal/cognito/users.go:462-472 | deletes a user |
| DependsOn.FindDependencyCycle | internal/ecs/depends.go:72-110 | empty exactly for acyclic graphs, with a start order; otherwise a walk whose last node occurs before |
| DependsOn.LassoCycle | internal/ecs/depends.go:72-110 | such a walk contains a cycle |
| DependsOn.OrderedAcyclic | internal/ecs/depends.go:72-110 | a graph that can be started in order has no cycle |
| DependsOn.Search.Visit | internal/ecs/depends.go:82-100 | the depth-first visit: a reported walk is real, a finished node has all its targets finished before it |
| DependsOn.FaultExact | internal/ecs/depends.go:35-60 | a dependency is at fault exactly if it names no listed other container, waits for nothing known, or for the exit of an essential container; the reason given is true |
| DependsOn.AcceptedExact | internal/ecs/depends.go:35-67 | accepted exactly if every dependency may be waited for and no containers wait in a ring |
| DependsOn.BuildDepicts | internal/ecs/depends.go:35-70 | the graph searched has exactly the declared dependencies |
| DependsOn.ValidateDependsOn | internal/ecs/depends.go:35-70 | accepted exactly when every dependency may be waited for and none wait in a ring, with an order to start in; the first fault is reported |
| Flush.FollowsStep | internal/cli/flush.go:613-673 | adding what a rule derives keeps everything derivable |
| Flush.LeastUnique | internal/cli/flush.go:613-673 | there is one least closed set |
| FlushChains.SelectedExact | internal/cli/flush.go:565-695 | a resource is selected exactly if a chain of agreeing references, or of services and their tasks, leads to it from one that matches the request |
| FlushChains.ChainSelects | internal/cli/flush.go:610-673 | every closed selection holds what such a chain reaches |
| FlushChains.FollowedClosed | internal/cli/flush.go:610-673 | what chains reach is closed under the rules |
| FlushChains.KeysExact | internal/cli/flush.go:813-847 | a reference goes by its full text or by what follows its last slash, up to case and outer space |
| FlushChains.RunsExact | internal/cli/flush.go:805-811 | a task's group names its service up to case |
| Flush.Selection.Run | internal/cli/flush.go:613-673 | the loop stops with the least set closed under the association rules |
| Flush.Selection.Round | internal/cli/flush.go:615-673 | one turn: progress in a bounded measure, or every rule settled |
| Flush.Selection.SettledLeast | internal/cli/flush.go:613-673 | a settled selection is the least closed set |
| Flush.Selection.SelectServices | internal/cli/flush.go:616-626 | services linked by cluster or definition |
| Flush.Selection.SelectTasks | internal/cli/flush.go:627-638 | tasks linked by cluster, definition or service group |
| Flush.Selection.CollectFromServices | internal/cli/flush.go:639-649 | references of selected services |
| Flush.Selection.CollectFromTasks | internal/cli/flush.go:650-660 | references of selected tasks |
| Flush.Selection.SelectClusters | internal/cli/flush.go:661-666 | clusters that are referenced |
| Flush.Selection.SelectDefinitions | internal/cli/flush.go:667-672 | definitions that are referenced |
| Flush.Selection.AddClusterRef | internal/cli/flush.go:813-827 | adds the keys of a reference and says whether any was new |
| Flush.SelectResources | internal/cli/flush.go:567-700 | a targeted flush returns what the least closed set selects, in order; any other returns everything |
| Flush.FirstOfEachExact | internal/cli/flush.go:716-744 | deduplication loses no reference, repeats none, invents none and keeps the earliest |
| Flush.DefinitionList.Append | internal/cli/flush.go:719-730 | one definition more, unless blank or seen |
| Flush.TaskDefinitions | internal/cli/flush.go:716-744 | the definitions to delete, each reference once |
| Connections.StepKeeps | internal/awsconnection/service.go:216-378 | names unique up to case folding, records valid, copies in flight current, file up to date, after every step |
| Connections.InterleavingIsSerial | internal/awsconnection/service.go:241-338 | every interleaving leaves what its operations leave one after the other in commit order |
| Connections.TestExact | internal/awsconnection/service.go:302-338 | a Test records Verified exactly when AWS confirms the saved identity or another session of a profile's role, a refusal's own status, or Rejected for another identity, and leaves the rest alone |
| Connections.UpdateExact | internal/awsconnection/service.go:257-300 | an Update takes name and region of the input; the credentials in force are the new ones or the old ones, checked under the saved or an accepted identity |
| Connections.CreateExact | internal/awsconnection/service.go:216-239 | a Create records the input, the identity AWS gave and the time |
| Connections.CommitRecords | internal/awsconnection/service.go:257-338 | the second part of a call changes its own record so, and no other, or nothing |
| Connections.StepIsWhole | internal/awsconnection/service.go:257-338 | each step changes the records as one whole operation on the current records would |
| Connections.InFlightUndisturbed | internal/awsconnection/service.go:241-255 | while a call waits for AWS only its own commit touches its record |
| Connections.DeletedForever | internal/awsconnection/service.go:360-370 | a deleted connection does not come back |
| Connections.IdentityGuarded | internal/awsconnection/service.go:257-338 | the account changes only in an update that accepted the new identity; otherwise only the session of one role |
| Connections.SameRoleMeans | internal/awsconnection/service.go:340-358 | same assumed role means the identities differ only in session name |
| Connections.ReopenExact | internal/awsconnection/service.go:84-118 | what the service wrote can be opened exactly if the lower-cased names are pairwise distinct |
| Connections.ReopenLosesNothing | internal/awsconnection/service.go:84-118 | a reopened service has lost nothing but test statuses |
| Connections.StepReadableExact | internal/awsconnection/service.go:216-379 | a step keeps the file readable exactly if the record it adds or renames gets a lower case no other stored name has |
| Connections.AlwaysReadableExact | internal/awsconnection/service.go:84-118 | the file is readable after every run exactly if lower-casing identifies no two valid names that case folding tells apart |
| Connections.TwoNames | internal/awsconnection/service.go:372-379 | two names that differ under case folding are both accepted; the file opens exactly if lower-casing tells them apart |
| Connections.DottedI | internal/awsconnection/service.go:103-111 | such names: U+0130 and i |
| Connections.Open | internal/awsconnection/service.go:100-117 | the loop over the file's records accepts exactly the readable files |
| Connections.Service.Unique | internal/awsconnection/service.go:372-379 | the name is free, up to case folding, apart from the record itself |
| Connections.Service.Store | internal/awsconnection/service.go:426-445 | file first, then the live map; a failed write changes nothing |
| Connections.Service.Create | internal/awsconnection/service.go:216-239 | a validated, checked, uniquely named record, saved exactly when all of that and the write succeed |
| Connections.Service.Begin | internal/awsconnection/service.go:241-253 | marks a connection busy and copies its record, exactly when it exists, is idle and the input is valid |
| Connections.Service.Finish | internal/awsconnection/service.go:265-336 | the second locked part of Update and Test, with the exact condition for success and what is recorded |
| Connections.Service.End | internal/awsconnection/service.go:255-255 | frees the connection |
| Connections.Service.Delete | internal/awsconnection/service.go:360-370 | refused while busy |
| Accounts.StepKeeps | internal/api/accounts.go:94-177 | locks, archived-apart-from-loaded and one place per bundle hold after every critical section |
| Accounts.StoppedExactlyOnce | internal/api/accounts.go:264-286 | no account archived and loaded; no bundle stopped twice; every bundle out of service was stopped once |
| Accounts.ArchiveHolds | internal/api/accounts.go:119-139 | once the call that set the mark returns, the saved metadata is archived, whatever other writers do |
| Accounts.MarkSet | internal/api/accounts.go:264-272 | the unload of an Archive call is where that begins |
| Accounts.SettledForever | internal/api/accounts.go:330-361 | a saved mark survives every run without restore or deletion, restarts included |
| Accounts.MarkFound | internal/api/accounts.go:119-125 | in every state an Archive call that finds the mark set returns successfully and changes nothing else |
| Accounts.SecondArchive | internal/api/accounts.go:119-139 | its return means a saved mark exactly if one was saved before; the mark is saved for good once the call that set it returns successfully |
| Accounts.SecondArchiveSavesNothing | internal/api/accounts.go:119-125 | a run from the start in which the second call returns first, nothing is saved, and a crash brings the account back |
| AccountCalls.MarkCleared | internal/api/accounts.go:146-153 | the marking section of Restore clears the mark and records the restore as activity |
| AccountCalls.RestoreHolds | internal/api/accounts.go:141-155 | from there, without archival or deletion, the account stays in use; once the call has returned successfully the saved metadata says so |
| AccountCalls.MetaDropped | internal/api/accounts.go:166-170 | the deleting section of Delete is where erasure begins |
| AccountCalls.DeleteHolds | internal/api/accounts.go:157-177 | once the call has returned successfully, with no other call about the account, neither memory nor disk has it, whatever writers were scheduled |
| AccountCalls.ErasedForever | internal/api/accounts.go:330-361 | delayed writers, loads and restarts do not bring an erased account back |
| AccountCalls.ErasedExact | internal/api/accounts.go:94-177 | the steps that leave an account erased are exactly those that are not an accepted call about it |
| AccountCalls.TouchRevives | internal/api/accounts.go:94-114 | one Touch after the deletion puts metadata back on disk |
| AccountCalls.TouchExact | internal/api/accounts.go:94-114 | a Touch records its time and nothing else, and schedules a save exactly if the last one is an hour old |
| AccountCalls.SaveCurrent | internal/api/accounts.go:334-361 | a save writes the metadata of the moment it took the lock |
| AccountCalls.UnloadExact | internal/api/accounts.go:264-272 | taking an account out marks it, with a time only if it is archived, and hands its bundle over to be stopped |
| AccountCalls.CountsRecorded | internal/api/accounts.go:132-137 | archiving saves the counts of the bundle it stopped, if any, and leaves the other metadata |
| AccountCalls.ProperAlways | internal/api/accounts.go:288-308 | in every run only accounts of twelve digits other than the default are archived, restored, stopped or removed |
| AccountCalls.DefaultStays | internal/api/accounts.go:288-308 | from the start on, the default account is never archived |
| AccountCalls.AcceptedExact | internal/api/accounts.go:119-166 | Archive, Restore and Delete are accepted exactly for known accounts of twelve digits other than the default, and begin as what they are |
| AccountCalls.CallsReturnAsCalled | internal/api/accounts.go:94-177 | a call goes on and returns as what it began, about its account |
| AccountCalls.RestartKeepsHour | internal/api/accounts.go:367-379 | after a restart, activity within an hour of the saved one is not written again |
| Accounts.Registry.Get | internal/api/server.go:124-140 | builds only what is neither loaded nor archived |
| Accounts.Registry.FinishLoad | internal/api/server.go:141-148 | files the bundle and releases the lock |
| Accounts.Registry.Touch | internal/api/accounts.go:94-114 | records activity, scheduling a write at most once an hour |
| Accounts.Registry.Unload | internal/api/accounts.go:264-271 | marks and detaches in one critical section |
| Accounts.Registry.Stop | internal/api/accounts.go:274-286 | stops a bundle that was never stopped before |
| Accounts.Registry.SetResources | internal/api/accounts.go:132-137 | saves the counts taken before stopping |
| Accounts.Registry.Unmark | internal/api/accounts.go:146-153 | clears the mark |
| Accounts.Registry.ReadForSave | internal/api/accounts.go:334-345 | reads the current metadata under the write lock |
| Accounts.Registry.WriteFile | internal/api/accounts.go:346-365 | writes what was read |
| Accounts.Registry.DropMeta | internal/api/accounts.go:166-170 | forgets the metadata under the write lock |
| Accounts.Registry.RemoveFiles | internal/api/accounts.go:171-172 | removes the saved form |
| Routes.MatchExact | internal/apigateway/service.go:964-1015 | a template of distinct names matches exactly when a greedy name stands last and some filling-in gives the path; the parameters are one |
| Routes.MatchFillsIn | internal/apigateway/service.go:977-1015 | substituting the returned parameters rebuilds the path's segments, greedy tail included |
| Routes.FillingMatches | internal/apigateway/service.go:977-1015 | every path a filling-in gives is matched |
| Routes.MatchCounts | internal/apigateway/service.go:977-1015 | specificity counts the literal segments, the flag says whether there are others |
| Routes.RebuildExact | internal/apigateway/service.go:977-1015 | the parameters give back every path the template matches exactly when no name occurs twice, or nothing can match |
| Routes.RepeatedNameLoses | internal/apigateway/service.go:989-999 | of a repeated name the later segment wins |
| Routes.PathSegmentsOk | internal/apigateway/service.go:1017-1026 | segments hold no slash and the last is not empty |
| Routes.MatchRoutePath | internal/apigateway/service.go:964-1015 | the index loop computes the match |
| Routes.SelectRoute | internal/apigateway/service.go:789-852 | the best match by priority, literal count, key; the default only when nothing matches |
| Routes.KeyParses | internal/apigateway/service.go:854-872 | a key reads as its verb and normalised path |
| Routes.MatchesExact | internal/apigateway/service.go:808-838 | a route answers exactly if its key names the verb or ANY and its template matches |
| Routes.BestPrecedes | internal/apigateway/service.go:820-851 | the selected route names the verb if any does, then has no named segments if any has none, then spells out most segments, then has the first key |
| Routes.AheadOrder | internal/apigateway/service.go:840-848 | the candidate order is strict on distinct keys |
| Routes.BestUnique | internal/apigateway/service.go:840-851 | only one route is best |
| Routes.SelectionIgnoresOrder | internal/apigateway/service.go:789-852 | two listings of the same routes select the same route and parameters, given one default or an answering route |
| Routes.OrderFreeExact | internal/apigateway/service.go:789-852 | a request's selection is free of the order of the list exactly when there is at most one default or another route answers |
| Routes.StoredOneDefault | internal/apigateway/service.go:365-390 | keys as CreateRoute stores them have at most one default, so selection is free of order |
| Routes.CatchAllHidesDefaults | internal/apigateway/service.go:838-848 | beside a catch-all even two defaults do no harm |
| Routes.TwoDefaultsDepend | internal/apigateway/service.go:801-804 | with two spellings of the default key and nothing else the last one listed is taken |
| Proxy.BigRoundTrip | cmd/db-proxy/main.go:281-281 | a big-endian length reads back |
| Proxy.MessagesTransparent | cmd/db-proxy/main.go:270-310 | what is written is what was read, less part of one unfinished message after whole frames |
| Proxy.BackendTransparent | cmd/db-proxy/main.go:236-265 | the same after the optional negotiation byte |
| Proxy.FramesRelayed | cmd/db-proxy/main.go:270-310 | whole frames are forwarded whole, one call for each status in order |
| Proxy.NegotiationRefused | cmd/db-proxy/main.go:253-257 | the same after a refused negotiation |
| Proxy.FirstTypeDecides | cmd/db-proxy/main.go:236-265 | streams starting with a given type are relayed exactly, for precisely the types that are no negotiation answer |
| Proxy.ClientTransparent | cmd/db-proxy/main.go:157-228 | the client side loses at most part of one unfinished message after whole messages |
| Proxy.ClientMessagesRelayed | cmd/db-proxy/main.go:157-228 | startup and typed messages are forwarded whole, one call for each Q, P or B in order |
| Proxy.Connection.ReadFull | cmd/db-proxy/main.go:276-276 | fills the buffer or consumes what is left and fails |
| Proxy.Connection.MessageTurn | cmd/db-proxy/main.go:274-309 | one frame or the end of the stream |
| Proxy.Connection.ParseMessages | cmd/db-proxy/main.go:270-310 | the loop over header and body buffers |
| Proxy.Connection.ParseBackend | cmd/db-proxy/main.go:236-265 | the first byte decides how the rest is read |
| Proxy.Connection.ClientTurn | cmd/db-proxy/main.go:161-227 | one client message |
| Proxy.Connection.ParseClientQueries | cmd/db-proxy/main.go:157-228 | the client loop |
| SemVer.VersionsPreorder | internal/cli/updatecheck.go:342-380 | a total preorder with opposite signs for opposite arguments |
| SemVer.ListsPreorder | internal/cli/updatecheck.go:387-434 | the same for lists of prerelease identifiers |
| SemVer.IdsFollowSpec | internal/cli/updatecheck.go:399-424 | identifiers that do not look negative compare as the specification says |
| SemVer.NegativeLookExact | internal/cli/updatecheck.go:399-424 | an identifier compares as specified with all such identifiers exactly when it does not look negative |
| SemVer.TagsFollowSpec | internal/cli/updatecheck.go:366-434 | whole prerelease tags compare as the specification says |
| SemVer.WrittenParses | internal/cli/updatecheck.go:436-470 | a version written as the specification has it reads back, build and leading v aside |
| SemVer.VersionsFollowSpec | internal/cli/updatecheck.go:342-380 | whole versions compare as section 11 says: numbers first, a prerelease below its release, then the first different identifier |
| SemVer.ComparePrereleaseIdentifiers | internal/cli/updatecheck.go:387-434 | the identifier loop computes the comparison |
| SemVer.NewestStep | internal/cli/updatecheck.go:245-262 | a further release replaces the newest only when it exceeds it |
| SemVer.NewestComparableRelease | internal/cli/updatecheck.go:232-277 | no comparable release exceeds the one returned, and a prerelease is returned only if it exceeds every stable one |

## Left out

- HTTP handlers, Docker, Lambda invocation, files, JSON and XML encoding, telemetry, UI, configuration and AWS calls: I/O.
- Expression evaluation (comparisons, functions, arithmetic, ADD and DELETE updates): a condition or update is the function of one item that it denotes, so `Store` holds for all of them.
- Document paths and attribute values are edited as values, not in place; aliasing between nested Go maps is not modelled. Paths are given as segments; splitting path text and name substitution are left out.
- Tokenizer inputs outside its alphabet: the original does not advance on them.
- Memory: the longest text that can be built is 2^48 bytes, Go's limit on a 64-bit machine; a smaller machine gives up earlier. A panic over a number too long to write is an error to everything above `Decimals`.
- Numbers are compared as exact rationals, which 256-bit floats represent in order for 38 digits.
- Typed nil maps against null, and invalid UTF-8, which JSON decoding does not produce.
- Stream retention and disabled streams: the log in `Store` is every record.
- Return values of writes (ALL_OLD and the like) and the identity attached to TTL deletions.
- Table definitions do not change during a run; UpdateTable's locking is not modelled.
- Paging.KeyOrder: key attributes have the types their definitions give, as validateItem demands (internal/dynamodb/attr.go:156-204); an index added later over items that hold numbers in some and strings in others is not covered, because the comparison is not transitive there.
- Projection of returned items, Select and request validation of Scan and Query.
- Only one user pool; tokens of other pools, signatures, password hashing, triggers, attributes and confirmation codes are inputs. Users are values in the pool's map; a record's identity is its sub.
- Failed writes of the pool file leave the previous file, which is a run without that flush.
- Whether a resource matches a flush request (`matchesECSResource`) is an input of `Flush`; flag slices are sequences of booleans.
- Letter case is folded for ASCII only, except in `Connections`, where Unicode's two foldings, AWS regions and profile names are inputs. A key's suffix is taken in characters.
- The connection file is written all or not at all; sealed credentials stand for what unseals from them.
- Registry shutdown.
- Integration targets and CORS of API routes.
- Writes of the proxy to its peer succeed; span timing and reports.
- Version parts are compared as integers of 64 bits; fetching releases and the update cache.
