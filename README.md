# thesis-genius: session tokens, accounts, thesis structure and export layout in Dafny

This project models the core of thesis-genius, a web application in which
students write a thesis (cover, table of contents, abstract, body pages,
references). The model covers four groups.

1. **Session-token bookkeeping and revocation.**
   - The Redis token store: per-user token hashes, the blacklist and its TTLs, and revocation. It is modelled as a class over maps with an explicit integer clock; a key with a deadline is visible while `now < deadline`.
   - Issuing and checking the HS256-signed JSON Web Tokens.
   - The request guards `jwt_required` and `admin_required`, together with the request context `g`.
   - The account operations: authentication, user creation, the active/inactive switch with its token blacklisting, logout and the profile-picture file check.
2. **Thesis-structure operations** over an in-memory model of the thesis tables:
   - generating and replacing the table of contents;
   - the body-page and abstract upserts;
   - the blank-page fallback;
   - the validation done by `create_thesis`.
3. **Chapter reordering** in the front-end hook `useThesisBody`: moving a chapter up or down, editing it, adding and deleting chapters, and the sort on load.
4. **Export text and page layout:**
   - the HTML-tag stripper, the keyword line and the numbered footnotes of the APA Word export;
   - the page sequence of the HTML export, with its running head and page numbers.

State that the source changes in place is held by classes:
- `TokenStore.Store`
- `UserService.UserDb`
- `ThesisService.ThesisDb`
- `AuthGate.RequestContext`

Their methods are written step by step, as the source is, and are proved against pure functions on a state datatype. The lemmas state the properties of those functions. Pure pieces of code are functions and lemmas.

Files:
- `wrappers.dfy`: Option, Result and Outcome.
- `text.dfy`: decimal numerals, splitting, replace, strip, case mapping and Python's string order.
- `sorting.dfy`: a stable sort with its sortedness, permutation and uniqueness lemmas.
- `redis_keys.dfy`: the key builders.
- `token_store.dfy`: the Redis token store.
- `jwt_codec.dfy`: issuing and checking tokens.
- `auth_gate.dfy`: the request guards.
- `user_service.dfy`: the account operations.
- `thesis_service.dfy`: the thesis tables.
- `chapters.dfy`: the chapter hook.
- `apa.dfy`: the Word-export text.
- `formatter.dfy`: the HTML-export page layout.

Foreign pieces are parameters of the model rather than assumptions:
- **Clock:** the store's `now` field, in whole seconds.
- **HMAC-SHA256:** a function parameter `mac(key, input)`.
- **Werkzeug password hashing:** the parameters `hash` and `check`.
- **Server replies to the hook's requests:** inputs of the chapter operations.

## Model

| member | source | states |
|---|---|---|
| RedisKeys.UserTokensKeyInjective | backend/app/utils/redis_helper.py:45 | distinct users have distinct `user:{id}:tokens` keys |
| RedisKeys.BlacklistKeyInjective | backend/app/utils/redis_helper.py:72 | distinct tokens have distinct `blacklist:{token}` keys |
| RedisKeys.ExpiryKeyInjective | backend/app/utils/redis_helper.py:161 | distinct tokens have distinct `token:{token}:expiry` keys |
| RedisKeys.KeyFamiliesDisjoint | backend/app/utils/redis_helper.py:45-161 | no key belongs to two of the three families, so each family can be a separate map |
| TokenStore.RemainingTtl | backend/app/utils/redis_helper.py:143 | `max(0, int(expiry - now))` is never negative; it is 0 exactly when the expiry has passed, and otherwise reaches the expiry exactly |
| TokenStore.AddTokenRecordsExpiry | backend/app/utils/redis_helper.py:45-49 | after add_token_to_user, the token maps to now + secs and every other token of the user is unchanged |
| TokenStore.AddTokenResetsTtl | backend/app/utils/redis_helper.py:50-52 | the hash's TTL becomes exactly the latest call's seconds, whatever it was before |
| TokenStore.AddTokenLocal | backend/app/utils/redis_helper.py:27-52 | other users' hashes and TTLs, the blacklist and the expiry keys are untouched |
| TokenStore.TokensAccumulate | backend/app/tests/test_redis_helper.py:54-73 | two added tokens are both listed; re-adding a token keeps one entry holding the newer expiry |
| TokenStore.LatestTtlDropsEarlierToken | backend/app/utils/redis_helper.py:50-52 | a later 60-second add makes an earlier two-hour token vanish from the registry after 100 seconds |
| TokenStore.AddTokenKeepingLongestCovers | backend/app/utils/redis_helper.py:31-34 | the corrected add keeps the hash alive at least as long as its longest token and records the token like the original |
| TokenStore.CoveredTokensStayListed | backend/app/utils/redis_helper.py:31-34 | while the registry outlives its tokens, a token stays listed until its own expiry |
| TokenStore.BlacklistLastsTtl | backend/app/utils/redis_helper.py:55-90 | blacklist_token refuses a TTL that is not positive; otherwise the token reads as blacklisted for exactly ttl seconds and every other token is unaffected |
| TokenStore.DefaultBlacklistScenario | backend/app/tests/test_redis_helper.py:43-51 | with the default TTL of 3600 the token is blacklisted, another is not, and the entry is gone after 3600 seconds |
| TokenStore.RevokeBlacklistsEveryToken | backend/app/utils/redis_helper.py:131-146 | on success, each of the user's tokens is blacklisted exactly until its recorded expiry; the hash reads empty; other blacklist entries and other users' hashes are unchanged |
| TokenStore.RevokeScenario | backend/app/tests/test_redis_helper.py:76-107 | revoking two fresh tokens blacklists both and deletes the hash |
| TokenStore.RevokeFailsOnLapsedToken | backend/app/utils/redis_helper.py:143-144 | a token lapsed at 3600 in a hash refreshed at 100 makes revocation at 3600 fail; the corrected revocation bans the live token and deletes the hash |
| TokenStore.RevokeSkippingLapsedSound | backend/app/utils/redis_helper.py:135-146 | the corrected revocation always completes, bans each still-valid token until its expiry, and agrees with the original whenever the original succeeds |
| TokenStore.TokenExpiredBoundary | backend/app/utils/redis_helper.py:160-165 | a missing expiry key counts as expired; an expiry equal to now does not; once expired, a token stays expired |
| TokenStore.Store.constructor | backend/app/utils/redis_helper.py:7-24 | a fresh store holds no keys, at the given time |
| TokenStore.Store.Advance | backend/app/utils/redis_helper.py:143 | the injected clock moves forward; nothing else changes |
| TokenStore.Store.AddTokenToUser | backend/app/utils/redis_helper.py:44-52 | HSET then EXPIRE leave the store in exactly the state AddToken describes |
| TokenStore.Store.AddTokenToUserKeepingLongest | backend/app/utils/redis_helper.py:31-34 | the corrected add leaves the store in exactly the state AddTokenKeepingLongest describes |
| TokenStore.Store.BlacklistToken | backend/app/utils/redis_helper.py:55-72 | SETEX writes `now + ttl` for the token when ttl > 0, and otherwise fails with nothing written |
| TokenStore.Store.IsTokenBlacklisted | backend/app/utils/redis_helper.py:75-90 | the answer is whether a blacklist entry for the token is still alive |
| TokenStore.Store.GetUserTokens | backend/app/utils/redis_helper.py:93-112 | the user's live hash, or an empty map when the key is absent or expired |
| TokenStore.Store.RevokeUserTokens | backend/app/utils/redis_helper.py:115-146 | succeeds exactly when Revoke does, with its state; on failure, the tokens handled so far (all still valid) stay blacklisted and the hash is kept |
| TokenStore.Store.BlacklistEach | backend/app/utils/redis_helper.py:135-144 | the loop bans each handled token until its expiry, handles all tokens when it passes, and fails only on a lapsed token |
| TokenStore.Store.RevokeUserTokensSkippingLapsed | backend/app/utils/redis_helper.py:131-146 | the corrected revocation leaves the store in the state RevokeSkippingLapsed describes |
| TokenStore.Store.BlacklistLive | backend/app/utils/redis_helper.py:135-144 | the corrected loop adds exactly the still-valid tokens to the blacklist |
| TokenStore.Store.IsTokenExpired | backend/app/utils/redis_helper.py:149-165 | the answer is TokenExpired of the current state |
| TokenStore.Store.SetExpiryKey | backend/app/tests/test_redis_helper.py:121 | a plain SET of `token:{t}:expiry`; nothing else changes |
| JwtCodec.CanonicalNat | backend/app/utils/auth.py:29 | a number is read back only from its own canonical spelling |
| JwtCodec.CanonicalNatRoundTrip | backend/app/utils/auth.py:29 | a number's spelling reads back as that number |
| JwtCodec.PayloadRoundTrip | backend/app/utils/auth.py:14-19 | a payload parses to claims exactly when it is the encoding of those claims |
| JwtCodec.Segments | backend/app/utils/auth.py:29 | the three segments found rebuild the token |
| JwtCodec.SegmentsOfEncode | backend/app/utils/auth.py:19 | an encoded token splits back into the algorithm, its payload and its signature |
| JwtCodec.Decode | backend/app/utils/auth.py:29 | every accepted token is unexpired and is the key's encoding of the claims returned |
| JwtCodec.DecodeEncode | backend/app/utils/auth.py:19-29 | a token signed with the key decodes to its claims while now < exp, and fails with ExpiredSignature from then on |
| JwtCodec.DecodeAcceptsExactly | backend/app/utils/auth.py:29 | decoding yields c exactly for the key's unexpired encoding of c |
| JwtCodec.EncodeInjective | backend/app/utils/auth.py:19 | equal encodings carry equal claims and equal signatures |
| JwtCodec.WrongKeyRejected | backend/app/utils/auth.py:29 | a token signed under a key that signs its input differently is refused |
| JwtCodec.GenerateToken | backend/app/utils/auth.py:9-23 | None exactly when encoding fails, here when no secret is configured |
| JwtCodec.ValidateToken | backend/app/utils/auth.py:25-34 | a user id exactly when decoding succeeds, and None for every decoding error, never an exception |
| JwtCodec.GeneratedClaims | backend/app/utils/auth.py:14-18 | the issued token carries user_id, iat = now and exp = now + 3600 |
| JwtCodec.ValidateGenerated | backend/app/utils/auth.py:19-34 | under the same key, a generated token validates to its user for the hour after issue and to None afterwards |
| AuthGate.AcceptIff | backend/app/utils/auth.py:37-60 | a request is accepted for a user exactly when it presents a nonempty, unexpired, non-blacklisted token that the key signed with that user's claims |
| AuthGate.MissingTokenFirst | backend/app/utils/auth.py:40-43 | an empty token after removing "Bearer " is refused with "Token is missing", whatever the store and the key |
| AuthGate.BlacklistBeforeDecode | backend/app/utils/auth.py:46-50 | a validly signed, unexpired token that is blacklisted is refused as blacklisted |
| AuthGate.NoSpaceInEncoding | backend/app/utils/auth.py:19 | an encoded token contains no space unless its signature does |
| AuthGate.BearerHeaderYieldsToken | backend/app/utils/auth.py:40 | `Bearer <token>` yields the token when the token has no space |
| AuthGate.IssuedTokenAccepted | backend/app/utils/auth.py:9-60 | a freshly issued, non-blacklisted token is accepted for its user during its hour and refused as expired afterwards |
| AuthGate.LogoutRefusesForGood | backend/app/services/userservice.py:393 | once a token is blacklisted for 3600 seconds, with exp no later than that, it is refused at every later time |
| AuthGate.EncodedTokenDenied | backend/app/utils/auth.py:47-55 | a token the key signed is refused while blacklisted and once expired |
| AuthGate.ExpiredTokenDenied | backend/app/utils/auth.py:53-55 | a token that decodes as expired is refused |
| AuthGate.RevokedTokensRefused | backend/app/utils/redis_helper.py:131-146 | after a successful revocation, each revoked token whose recorded expiry is no earlier than its exp is refused at every later time |
| AuthGate.AdminCheckIff | backend/app/utils/auth.py:64-80 | the handler runs exactly for a set, nonzero id of an existing admin; every rejection is a 401 or a 403 |
| AuthGate.AdminFound | backend/app/utils/auth.py:75 | with unique ids, the lookup by id finds the user holding it |
| AuthGate.RequestContext.constructor | backend/app/utils/auth.py:51 | `g.user_id` is unset at the start of a request |
| AuthGate.JwtRequired | backend/app/utils/auth.py:37-62 | the response is that of the chain; `g.user_id` is set to the token's user on acceptance and left alone on every denial |
| AuthGate.AdminRequired | backend/app/utils/auth.py:64-80 | the response is AdminCheck of `g.user_id` |
| UserService.FindById | backend/app/services/userservice.py:64-68 | a user with the id when one exists, and None exactly when none does |
| UserService.FindByEmail | backend/app/services/userservice.py:58-62 | a user with the email when one exists, and None exactly when none does |
| UserService.AuthenticateIff | backend/app/services/userservice.py:94-107 | a user is returned exactly when the email is theirs, they are active and the password checks against the stored hash |
| UserService.RefusedBeforePasswordCheck | backend/app/services/userservice.py:95-97 | an unknown email or an inactive user is refused whatever the password and the checker |
| UserService.NewUserDefaults | backend/app/services/userservice.py:151-180 | an unknown role raises before any insert; a missing institution becomes "Unknown Institution"; an unspecified is_admin becomes role == "Admin"; the password is stored hashed |
| UserService.MissingUserStatus | backend/app/services/userservice.py:332-402 | as written, a missing user yields 500 in change_user_status and logout, because the 404 abort is caught by the methods' own `except Exception`; the corrected handler yields the documented 404 |
| UserService.HandlersAgreeOnExistingUser | backend/app/services/userservice.py:338-397 | for an existing user nothing is raised, so as written and corrected give the same answer: whether the status changes, and True for logout |
| UserService.SetActiveLookup | backend/app/services/userservice.py:346-347 | the user reads back with the new status and every other id reads back as before |
| UserService.SetActiveWellFormed | backend/app/services/userservice.py:346-347 | a status change keeps ids, emails and usernames unique |
| UserService.AllowedFileIff | backend/app/services/userservice.py:28-35 | `base.ext` passes exactly when the lowercased ext and the sniffed type are both allowed image types |
| UserService.NoDotRejected | backend/app/services/userservice.py:32 | a name without '.' never passes |
| UserService.UserDb.constructor | backend/app/models/data.py:15-100 | an empty users table beside the seeded roles table, with the id counter at 1 |
| UserService.UserDb.Authenticate | backend/app/services/userservice.py:77-107 | the result is AuthenticateUser of the table |
| UserService.UserDb.CreateUser | backend/app/services/userservice.py:109-199 | a validation error changes nothing; a clash on email or username is a duplicate error that changes nothing; otherwise the new record is appended with the next id |
| UserService.UserDb.ChangeUserStatus | backend/app/services/userservice.py:327-364 | as written: a missing user gives 500; an unchanged status gives False and touches nothing; otherwise the status is saved, and the token is blacklisted for 3600 seconds only when deactivating with a nonempty token |
| UserService.UserDb.Logout | backend/app/services/userservice.py:385-402 | as written: a missing user gives 500 with nothing blacklisted; otherwise the token is blacklisted for 3600 seconds and the result is True |
| ThesisService.TocAroundShape | backend/app/services/thesisservice.py:319-346 | the entries around the pages are numbered 1, 2, ... in both order and page number, opening with "Cover Page" and "Abstract" and closing with "References" |
| ThesisService.TocAroundPages | backend/app/services/thesisservice.py:330-337 | between the abstract and References stand the pages' own entries, in the given order |
| ThesisService.TocAroundAt | backend/app/services/thesisservice.py:319-346 | the entry at each position: cover, abstract, "Page n" of each page in turn, References |
| ThesisService.PageEntriesAt | backend/app/services/thesisservice.py:330-337 | the i-th page has the i-th entry, with order and page number first + i |
| ThesisService.PageEntriesSnoc | backend/app/services/thesisservice.py:330-337 | appending a page appends its entry |
| ThesisService.GeneratedTocShape | backend/app/services/thesisservice.py:319-346 | the generated list has k + 3 entries for k pages: cover and abstract first, References last, entry i at order and page number i |
| ThesisService.GeneratedTocPages | backend/app/services/thesisservice.py:325-337 | between them stands one "Page n" entry per body page, in ascending page number, a permutation of the pages |
| ThesisService.GeneratedOrdered | backend/app/models/data.py:207-209 | the generated orders are distinct and ascending, so they fit the unique (thesis, order) index |
| ThesisService.InsertTocOutcome | backend/app/services/thesisservice.py:349-350 | row inserts all succeed exactly when the orders stay distinct, and then the table is the old rows followed by the new; a failure is an IntegrityError; the index always holds |
| ThesisService.TocStable | backend/app/services/thesisservice.py:305-313 | a second read returns what the first returned and changes nothing |
| ThesisService.GetTocSorted | backend/app/services/thesisservice.py:303-354 | the returned list is sorted by order, has distinct orders, is nonempty and is a permutation of the stored rows; only this thesis's rows change |
| ThesisService.DistinctOrdersPermutation | backend/app/models/data.py:207-209 | rearranging rows keeps their orders distinct |
| ThesisService.UpdateTocOutcome | backend/app/services/thesisservice.py:275-283 | the replacement succeeds exactly when the given orders are distinct, and otherwise fails with IntegrityError |
| ThesisService.UpdateTocFrame | backend/app/services/thesisservice.py:275-283 | other theses' rows are untouched, whether the replacement succeeds or not |
| ThesisService.GetTocOnlyThis | backend/app/services/thesisservice.py:349-350 | get_table_of_contents writes only the rows of the thesis it reads |
| ThesisService.UpdateTocValid | backend/app/services/thesisservice.py:275-283 | the unique index holds after the replacement, even one that fails part way |
| ThesisService.UpdateTocReplaces | backend/app/services/thesisservice.py:275-283 | with distinct orders, the thesis's rows become exactly the given entries, returned sorted by order; an empty list makes the read regenerate the table |
| ThesisService.AbstractOverwritten | backend/app/services/thesisservice.py:392-399 | a second add_abstract keeps only the second text; other abstracts are unchanged |
| ThesisService.Lookup | backend/app/services/thesisservice.py:467-469 | a page number is found exactly when some page has it |
| ThesisService.PageNumbersIndex | backend/app/models/data.py:272 | a page number is in the set of page numbers exactly when some page holds it |
| ThesisService.UpsertSpec | backend/app/services/thesisservice.py:467-471 | after the upsert the page number holds the new body, every other number reads as before, the numbers gain only this one, and each is on one page |
| ThesisService.UpsertOverwrites | backend/app/services/thesisservice.py:467-471 | upserting the same page number twice keeps only the second body |
| ThesisService.PutBodyPageValid | backend/app/services/thesisservice.py:462-480 | add_body_page succeeds exactly for an existing thesis and a present page number; a missing number is an IntegrityError with nothing written; on success the number holds the body, every other number reads as before, the state stays valid and no other thesis is touched |
| ThesisService.BodyPagesAfterPut | backend/app/services/thesisservice.py:482-509 | get_body_pages of a thesis without pages is the blank page 1 alone; after add_body_page stored (n, body) it holds that page, each number once, and is no longer the fallback unless that page is the blank page 1 |
| ThesisService.UpsertAllSpec | backend/app/services/thesisservice.py:595-599 | after the loop of add_body_page calls, the page numbers are the old ones plus those of the items before the first item without a number, each on one page; each such number holds the body of the last item carrying it; every other number reads as before |
| ThesisService.StoredCount | backend/app/services/thesisservice.py:595-599 | the loop stores exactly the items before the first one without a page number |
| ThesisService.CreateValidation | backend/app/services/thesisservice.py:570-616 | create_thesis fails with nothing written exactly when title, status or student id is missing or the student does not exist; past that it fails only on a body-page item without a page number |
| ThesisService.CreatedThesis | backend/app/services/thesisservice.py:581-604 | once validation passes the thesis row is written with the next id and the given fields, even if the page loop then fails; the abstract exists exactly when the text is truthy; the pages carry exactly the stored page numbers, each with the body of the last item that has it, or are the single blank page 1; the result is IntegrityError exactly when an item lacks its page number; the state stays valid |
| ThesisService.CreatedPages | backend/app/services/thesisservice.py:594-604 | the created thesis is the only one whose body pages change; they hold the stored page numbers once each, each with the last body given for it, or the single blank page 1 when no pages are given |
| ThesisService.ThesisDb.constructor | backend/app/models/data.py:207-209 | empty thesis tables, which are valid |
| ThesisService.ThesisDb.InsertTocRows | backend/app/services/thesisservice.py:280-281 | the insert loop leaves the table and the outcome that InsertToc describes |
| ThesisService.ThesisDb.GetTableOfContents | backend/app/services/thesisservice.py:288-357 | the result and the new tables are those GetToc describes |
| ThesisService.ThesisDb.BuildToc | backend/app/services/thesisservice.py:319-346 | the appended sections are exactly TocAround of the sorted pages |
| ThesisService.ThesisDb.UpdateTableOfContents | backend/app/services/thesisservice.py:269-286 | the result and the new tables are those UpdateToc describes |
| ThesisService.ThesisDb.AddAbstract | backend/app/services/thesisservice.py:380-408 | the result and the new tables are those PutAbstract describes |
| ThesisService.ThesisDb.AddBodyPage | backend/app/services/thesisservice.py:449-480 | the result and the new tables are those PutBodyPage describes, including the IntegrityError of a missing page number |
| ThesisService.ThesisDb.AddBodyPages | backend/app/services/thesisservice.py:595-599 | the loop of add_body_page calls leaves the pages UpsertAll describes and fails with IntegrityError exactly when an item lacks its page number |
| ThesisService.ThesisDb.GetBodyPages | backend/app/services/thesisservice.py:482-509 | the result is the stored pages, or the blank page 1 when none are stored, as BodyPagesOrBlank and BodyPagesAfterPut state |
| ThesisService.ThesisDb.CreateThesis | backend/app/services/thesisservice.py:534-616 | the result and the new tables are those Create describes |
| Chapters.FindIndex | frontend/src/hooks/useThesisBody.js:61 | the first position with the id, or -1 exactly when no chapter has it |
| Chapters.SwapAtInvolution | frontend/src/hooks/useThesisBody.js:66-73 | trading the same neighbours twice restores the list |
| Chapters.MoveNoOp | frontend/src/hooks/useThesisBody.js:61-83 | moving an absent chapter changes nothing; the first does not move up and the last does not move down |
| Chapters.MoveUpPreserves | frontend/src/hooks/useThesisBody.js:66-73 | moving up keeps the length, the multiset of ids and the multiset of order values |
| Chapters.MoveDownPreserves | frontend/src/hooks/useThesisBody.js:86-93 | moving down keeps the length, the multiset of ids and the multiset of order values |
| Chapters.SortedSwapPreserves | frontend/src/hooks/useThesisBody.js:70-73 | swapping two orders and sorting keeps ids and order values |
| Chapters.SwapOrdersIsSwapAt | frontend/src/hooks/useThesisBody.js:71-72 | swapping two neighbours' orders gives the same chapters as trading their places |
| Chapters.MoveUpSwaps | frontend/src/hooks/useThesisBody.js:60-74 | with unique ids and strictly ascending orders, moving up trades the chapter with the one above and keeps both invariants |
| Chapters.MoveDownSwaps | frontend/src/hooks/useThesisBody.js:81-94 | with unique ids and strictly ascending orders, moving down trades the chapter with the one below and keeps both invariants |
| Chapters.SortedSwap | frontend/src/hooks/useThesisBody.js:73 | sorting a rearrangement of a strictly ordered list yields that list |
| Chapters.SwapAtKeeps | frontend/src/hooks/useThesisBody.js:71-72 | trading neighbours keeps each position's order key and keeps ids unique |
| Chapters.MoveUpThenDown | frontend/src/hooks/useThesisBody.js:60-98 | moving a chapter up and then down restores the list, and the reverse too |
| Chapters.UpdateContent | frontend/src/hooks/useThesisBody.js:103-105 | only chapters with the id get the new content; length, ids, names and orders are unchanged |
| Chapters.MaxOrder | frontend/src/hooks/useThesisBody.js:114-117 | 0 for an empty list, otherwise the largest key, counting a missing order as 0 |
| Chapters.LoadSorts | frontend/src/hooks/useThesisBody.js:39-46 | loaded chapters are the fetched ones sorted by key; the first one, which has the smallest key, is selected |
| Chapters.AddNewChapterAppends | frontend/src/hooks/useThesisBody.js:113-125 | the new chapter's order exceeds every other, so on a sorted list it is appended last |
| Chapters.AddNewChapterSelects | frontend/src/hooks/useThesisBody.js:126 | the new chapter is selected and is in the list |
| Chapters.AppendLargest | frontend/src/hooks/useThesisBody.js:123-124 | appending a largest key to a sorted list and sorting changes nothing |
| Chapters.Without | frontend/src/hooks/useThesisBody.js:137 | exactly the chapters without the id remain |
| Chapters.WithoutAppend | frontend/src/hooks/useThesisBody.js:137 | filtering a concatenation filters each part, so the kept chapters keep their order |
| Chapters.WithoutHead | frontend/src/hooks/useThesisBody.js:137-145 | the filter leaves nothing exactly when every chapter has the id; otherwise its first chapter is the first one of the list with another id |
| Chapters.DeleteChapterSpec | frontend/src/hooks/useThesisBody.js:137-147 | the id is gone and every other chapter stays; a deleted selection moves to the first chapter of the old list with another id, or to none when there is none; any other selection is kept; the selection stays valid |
| Chapters.EditsKeepSelection | frontend/src/hooks/useThesisBody.js:60-105 | moves and content edits keep a valid selection valid |
| Chapters.SelectedChapter | frontend/src/hooks/useThesisBody.js:170 | the selected chapter when the selection names one, and otherwise none |
| Chapters.AsWrittenLacksAddAndDelete | frontend/src/hooks/useThesisBody.js:172-182 | as written, addNewChapter and deleteChapter are missing from what ThesisBody.jsx destructures |
| Chapters.ReturnedCoversUse | frontend/src/pages/ThesisBody.jsx:14-26 | with both added, every member ThesisBody.jsx uses is provided |
| Apa.RemoveTags | backend/app/utils/apa.py:410 | the substitution only deletes characters |
| Apa.StripHtml | backend/app/utils/apa.py:409-410 | None and "" give ""; the result has no leading or trailing whitespace |
| Apa.StripHtmlNoTag | backend/app/utils/apa.py:410 | no '<' is followed later by '>' in the result |
| Apa.RemoveTagsNoTag | backend/app/utils/apa.py:410 | after the substitution no tag is left |
| Apa.RemoveTagsIdentity | backend/app/utils/apa.py:410 | text without tags passes unchanged |
| Apa.TagDeleted | backend/app/utils/apa.py:410 | a tag is deleted from its '<' up to and including the first '>', and the text before it is kept |
| Apa.RemoveTagsSubsequence | backend/app/utils/apa.py:410 | the surviving characters keep their order |
| Apa.StripKeepsNoTag | backend/app/utils/apa.py:410 | stripping whitespace cannot create a tag |
| Apa.StripFixed | backend/app/utils/apa.py:410 | text without surrounding whitespace is its own strip |
| Apa.StripHtmlIdempotent | backend/app/utils/apa.py:410 | applying `_strip_html` twice equals applying it once |
| Apa.KeywordLine | backend/app/utils/apa.py:343-345 | a keyword line exists exactly when the abstract data has keywords |
| Apa.StrLeTotalPreorder | backend/app/utils/apa.py:345 | Python's string order is total and transitive |
| Apa.KeywordLineSorted | backend/app/utils/apa.py:345 | the line is "KEYWORDS: " followed by the quoted keywords joined by ", ", in the one arrangement that is in string order |
| Apa.KeywordLineOrderFree | backend/app/utils/apa.py:345 | the line does not depend on the order the keywords came in |
| Apa.FootnoteLines | backend/app/utils/apa.py:104-110 | one line per footnote, or the single placeholder "No footnotes provided." |
| Apa.NumberedFromAt | backend/app/utils/apa.py:107-108 | line i of an enumeration from k reads "{k+i}. " followed by text i |
| Apa.NumberedLineReads | backend/app/utils/apa.py:108 | a line "{n}. {t}" reads back as number n and text t |
| Apa.FootnoteNumbered | backend/app/utils/apa.py:106-108 | footnote line i reads back as number i + 1 and the i-th footnote stripped of tags |
| Formatter.SectionAt | backend/app/utils/formatter.py:96-194 | the section at each position: cover, then TOC, abstract, chapters and references, each in its range |
| Formatter.LayoutNumbers | backend/app/utils/formatter.py:98-112 | the cover is page 1; every page carries the same running head, "Running head: " + upper(title), and its position as number |
| Formatter.LayoutLength | backend/app/utils/formatter.py:96-194 | the page count is the cover, plus one page for each optional part present, plus one page per body entry |
| Formatter.LayoutContents | backend/app/utils/formatter.py:114-132 | a TOC page exists exactly when there are entries, and then it is page 2 |
| Formatter.LayoutAbstract | backend/app/utils/formatter.py:134-147 | an abstract page exists exactly when the abstract text is truthy, right after the cover and the TOC page |
| Formatter.LayoutChapters | backend/app/utils/formatter.py:149-164 | the k-th body entry is on its own page, numbered in input order and headed "Chapter {page_number}" |
| Formatter.LayoutOnlyBodyChapters | backend/app/utils/formatter.py:149-164 | no page other than the body entries' is a chapter page |
| Formatter.LayoutReferences | backend/app/utils/formatter.py:166-194 | a references page exists exactly when there are references; it is the last page and lists "{author} ({year}). <i>{title}</i>." |
| Formatter.ToPages | backend/app/utils/formatter.py:94-199 | the pages the method appends, counting page_counter up, are exactly Layout |
| Formatter.FrontPages | backend/app/utils/formatter.py:96-147 | the cover, TOC and abstract pages are numbered 1, 2, ... and page_counter is one past them |
| Formatter.TocLines | backend/app/utils/formatter.py:116-120 | one line per TOC entry, "{section_title} ....... {page_number}" |
| Formatter.ReferenceEntries | backend/app/utils/formatter.py:169-181 | one entry per reference, in order |
| Sorting.SortBySorted | frontend/src/hooks/useThesisBody.js:41 | under a total preorder, the stable sort yields a sorted permutation of its input |
| Sorting.SortByIdentity | backend/app/services/thesisservice.py:308 | an already sorted list sorts to itself |
| Sorting.SortedPermutationUnique | backend/app/utils/apa.py:345 | two sorted permutations of one list are equal when the order ties only equal elements |
| Sorting.SortByProject | frontend/src/hooks/useThesisBody.js:73 | sorting keeps the multiset of any projection |
| Text.ParseNatRoundTrip | backend/app/utils/redis_helper.py:140 | a number's decimal spelling parses back to it |
| Text.NatToStringInjective | backend/app/utils/redis_helper.py:45 | distinct numbers have distinct spellings |
| Text.SplitLastOfJoin | backend/app/services/userservice.py:33 | `rsplit(".", 1)` of `a.b` with no '.' in b gives a and b |
| Text.RemoveAllAbsent | backend/app/utils/auth.py:40 | `replace` leaves text without the pattern unchanged |
| Text.Strip | backend/app/utils/apa.py:410 | `.strip()` leaves no surrounding whitespace |
| Text.StripSlice | backend/app/utils/apa.py:410 | the stripped text is a contiguous slice of the input, and everything cut before and after it is whitespace |
| Text.StrLeTotal | backend/app/utils/apa.py:345 | any two strings are comparable |
| Text.StrLeAntisymmetric | backend/app/utils/apa.py:345 | strings that compare both ways are equal |

## Left out

- Redis is an in-memory map with an explicit clock. The client, the network and the `status.py` readiness checks are not part of this model.
- Concurrent commands between `hkeys`/`hget` and `setex` in revoke_user_tokens are not modelled; the steps run one after another.
- Storing and reading expiry timestamps as floats is modelled as whole seconds, so the `int()` truncation at redis_helper.py:143 is exact.
- PyJWT and HMAC-SHA256 are not modelled. Signing is the parameter `mac`, and the base64url JSON payload is replaced by a canonical decimal text with the same round-trip behaviour.
- JwtCodec.GenerateToken: the only encoding failure modelled is a missing secret key; other failures of `jwt.encode` are not distinguished.
- JwtCodec.Decode: PyJWT's `iat` checks and its leeway are not modelled; a token is refused once `exp <= now`, with no leeway.
- Werkzeug password hashing and checking are the parameters `hash` and `check`.
- The `imghdr` content sniffing is the input `detected`. Saving files, uuid naming and the 5 MB limit of update_profile_picture are not part of this model.
- UserService.UserDb.CreateUser: a duplicate is found by comparing email and username with the existing rows; peewee's message text and the re-raise are not modelled.
- The ORM, SQL, migrations, seeding and the rest of the schema in data.py are not modelled, apart from the two unique indexes named above and the foreign keys to the thesis.
- The Flask routes, HTTP status handling beyond the status numbers, CORS and the app factories are not modelled.
- `load_user` (auth.py:83-95) is dead code, because it calls a user-service method that does not exist.
- python-docx page layout in apa.py, pdfkit in `to_pdf` and the CSS and HTML markup of `to_html` are not modelled. The pages are kept as values: running head, number and content.
- The signature, dedication, appendix and other pages that formatter.py:196 only mentions in a comment are not modelled.
- The debounced server updates, the React rendering, the formatted preview (DOMPurify), localStorage and the loading flag of the hook are not modelled. Server replies are inputs.
- Text.Upper, Text.Lower, Formatter.LayoutNumbers: only the ASCII letters change case, where Python's `str.upper()` and `str.lower()` follow Unicode ('é' becomes 'É', 'ß' becomes 'SS'). Formatter.LayoutNumbers therefore gives the running head of the source only for titles whose letters are ASCII. UserService.AllowedFileIff is not affected: Unicode lowercasing never produces or removes a '.', and no non-ASCII character lowercases to text made only of the letters of "png", "jpg", "jpeg" and "gif", so both mappings pass the same names.
- The legacy `server/` package, `client/`, the top-level `tests/` and the `backend/app/api/v1` duplicates are not part of this model.
- The AI chat (chat.py), the forum and the other thesis-service operations (listing, pagination, references, footnotes, figures and deletions) are not part of this model.

## Findings

| source | as written | input that shows it | evidently intended | confidence | as-written member | corrected member |
|---|---|---|---|---|---|---|
| backend/app/utils/redis_helper.py:143-144 | a token whose expiry has passed, still listed in a hash kept alive by a later token, gets `remaining_ttl` 0, and SETEX with TTL 0 is refused, so revocation stops part way and the hash is not deleted | add token a for 3600 s at time 0, token b for 3600 s at time 100, revoke at time 3600; latent, since only the tests call revoke_user_tokens | a lapsed token needs no blacklist entry: skip it and finish the revocation | not executed | TokenStore.RevokeFailsOnLapsedToken | TokenStore.RevokeSkippingLapsedSound |
| backend/app/utils/redis_helper.py:50-52 | EXPIRE sets the whole hash's TTL to the latest token's lifetime, although the comment says the list expires after the longest token | add a for 7200 s, then b for 60 s, then wait 100 s: a is no longer listed, and revocation cannot blacklist it; latent, since only the tests call add_token_to_user | the hash lives as long as its longest-lived token | not executed | TokenStore.LatestTtlDropsEarlierToken | TokenStore.AddTokenKeepingLongestCovers |
| backend/app/services/userservice.py:332-364 | `abort(404)` raises an HTTPException inside the `try`, and the method's own `except Exception` turns it into `abort(500)`; logout at 386-402 does the same | change_user_status or logout with an id that has no user | the documented 404 reaches the client | not executed | UserService.UserDb.ChangeUserStatus | UserService.MissingUserStatus |
| frontend/src/hooks/useThesisBody.js:172-182 | the returned object omits addNewChapter and deleteChapter, which ThesisBody.jsx:23-24 destructures and calls | clicking "add chapter" or "delete" in ThesisBody calls `undefined` | the hook returns both functions it defines | not executed | Chapters.AsWrittenLacksAddAndDelete | Chapters.ReturnedCoversUse |
