# myauth authentication core, modelled in Dafny

This project models the decision logic of the myauth Spring service:
- the browser-or-app classifier that decides where a refresh token travels;
- the JWT provider and the per-request authentication gate;
- sign-up, login (plain and channel-aware) and access-token refresh, with their HTTP status mapping;
- upload validation, stored-name construction and the delete path guard of the local image store;
- follows and bookmarks as keyed relations, with their counts, flags and newest-first listings;
- the partial profile update.

Everything is immutable data and pure functions over it, except two methods that build ordered listings:
- Java `null` is `Option.None`.
- A domain exception is `Result.Err`, or a named failure value.
- Tables are sequences or maps.
- Clocks are explicit integer parameters, one per clock read in the source.
- Tokens are opaque strings. A `Jwt.Codec` pairs a signing function with a parsing function that reports a verdict: verified, expired, bad signature, malformed or blank.
- `Jwt.Honest` states what the end-to-end lemmas assume of the codec: it reads back exactly what it signed, and reports expiry once the clock passes `exp`.
- Password hashing is a pair of caller-supplied functions (`encode`, `matches`).
- Storage faults are boolean parameters.

Modules, one per file:
- `Base`, `Text`: Option/Result, ASCII case mapping, trim, substring search.
- `ClientType`, `Jwt`, `JwtErrors`, `Users` (user rows, the `UserDetails` view, the details service).
- `AuthFilter`, `AuthService`, `AuthController`.
- `ImageStorage`.
- `Listing`: newest-first ordering, shared by the two listings.
- `Follows`, `Bookmarks`, `Profiles`.
- `Sessions`: whole sessions across components.

Where the project's design notes and the code disagree, the model follows the code:
- The request gate authenticates any user whose `isActive` flag is set, whatever the account status. It never checks for ACTIVE status.
- `login` gives the INACTIVE status the same text as a cleared `isActive` flag. The other non-ACTIVE statuses each get text of their own (`AuthService.InactiveStatusMatchesInactiveFlag`).
- `validateToken` never returns false. So in `refreshAccessToken` a token that fails to parse gets the catch-all error text, never the "invalid refresh token" text, and an expired JWT is not told apart from a forged one.
- `refreshAccessToken` never reads the token's `type` claim.
- `refreshAccessToken` does not rotate the refresh token and writes nothing.
- In the gate, a verified token without a `userId` claim (a refresh token, say) makes Spring Data reject `findById(null)`. The outer catch swallows that, so the request continues anonymously, as with any other unexpected fault (`AuthFilter.NoUserIdNeverAuthenticates`).

## Model

| member | source | states |
|---|---|---|
| Text.Lower | src/main/java/com/example/myauth/service/AuthService.java:46 | lower-casing keeps the length and maps each character on its own |
| Text.Trim | src/main/java/com/example/myauth/service/AuthService.java:46 | the trimmed text is one contiguous slice of the input, everything cut from either end is a control character or space, and the slice neither starts nor ends with one |
| Text.LastIndexOf | src/main/java/com/example/myauth/service/LocalImageStorageService.java:186 | the result is -1 or a position holding the character, and no later position holds it |
| Text.ContainsWitness | src/main/java/com/example/myauth/util/ClientTypeDetector.java:69-106 | every substring hit found by `contains` sits at a concrete position |
| ClientType.Classify | src/main/java/com/example/myauth/util/ClientTypeDetector.java:28-55 | a "mobile-app" header (any case) gives Mobile and a "web" header gives Web, whatever the User-Agent; otherwise Mobile iff the lower-cased User-Agent contains one of the 13 signatures |
| ClientType.ClientTypeString | src/main/java/com/example/myauth/util/ClientTypeDetector.java:115-117 | "WEB" exactly for web clients, "MOBILE" exactly for the others |
| ClientType.NoHeadersMeansWeb | src/main/java/com/example/myauth/util/ClientTypeDetector.java:41-54 | with no decisive header and no User-Agent the caller is Web |
| ClientType.MixedCaseHeaderIsMobile | src/main/java/com/example/myauth/util/ClientTypeDetector.java:30-34 | "Mobile-App" matches ignoring case and wins over any User-Agent |
| ClientType.SignatureAnywhereIsMobile | src/main/java/com/example/myauth/util/ClientTypeDetector.java:43-49 | any capitalisation of a signature anywhere in the User-Agent makes the caller Mobile |
| ClientType.OkHttpUserAgentIsMobile | src/main/java/com/example/myauth/util/ClientTypeDetector.java:76-79 | an OkHttp User-Agent is Mobile |
| ClientType.BrowserUserAgentIsWeb | src/main/java/com/example/myauth/util/ClientTypeDetector.java:41-54 | a plain browser User-Agent (Mozilla/5.0 in any letter case) without the header is Web |
| ClientType.NoSignatureWithout | src/main/java/com/example/myauth/util/ClientTypeDetector.java:69-106 | a User-Agent lacking the letters c, d, e, f, k, n, r, v and y matches no signature |
| Jwt.ValidateToken | src/main/java/com/example/myauth/security/JwtTokenProvider.java:112-121 | succeeds only with true, exactly when the token verifies; otherwise it carries the parse failure |
| Jwt.GetEmailFromToken | src/main/java/com/example/myauth/security/JwtTokenProvider.java:88-91 | the subject of a token that verifies, otherwise the parse failure |
| Jwt.GetUserIdFromToken | src/main/java/com/example/myauth/security/JwtTokenProvider.java:98-101 | the userId claim (possibly absent) of a token that verifies, otherwise the parse failure |
| Jwt.AccessTokenRoundTrip | src/main/java/com/example/myauth/security/JwtTokenProvider.java:47-61 | up to its expiry an access token reads back as the email, the user id, type "access", and exp = iat + access lifetime |
| Jwt.AccessTokenExpires | src/main/java/com/example/myauth/security/JwtTokenProvider.java:112-121 | after its lifetime the access token is reported expired, and validation fails |
| Jwt.RefreshTokenRoundTrip | src/main/java/com/example/myauth/security/JwtTokenProvider.java:68-80 | a refresh token reads back as the email with type "refresh" and no userId claim |
| Jwt.HonestSignIsInjective | src/main/java/com/example/myauth/security/JwtTokenProvider.java:128-134 | a codec that reads back what it signs never signs two payloads to one string |
| Jwt.AccessAndRefreshDiffer | src/main/java/com/example/myauth/security/JwtTokenProvider.java:47-80 | the two tokens of one login are different strings |
| JwtErrors.OnlyExpiryAsksForRefresh | src/main/java/com/example/myauth/dto/JwtErrorResponse.java:46-77 | each factory echoes the path; only TOKEN_EXPIRED carries the refresh action, the other two ask for login; the three messages differ |
| Users.FindByEmail | src/main/java/com/example/myauth/security/CustomUserDetailsService.java:39 | the row found holds the exact email; none is found iff no row holds it |
| Users.FindById | src/main/java/com/example/myauth/security/CustomUserDetailsService.java:64 | the row found holds the id; none is found iff no row holds it |
| Users.FindByEmailExact | src/main/java/com/example/myauth/security/CustomUserDetailsService.java:35-50 | with unique emails the lookup returns the one row holding the email |
| Users.FindByIdExact | src/main/java/com/example/myauth/security/CustomUserDetailsService.java:60-74 | with unique ids the lookup returns the one row holding the id |
| Users.NextId | src/main/java/com/example/myauth/service/AuthService.java:50-59 | a new identity is larger than every id in use |
| Users.AppendKeepsWellFormed | src/main/java/com/example/myauth/service/AuthService.java:59 | inserting a row with a fresh id and email keeps ids and emails unique |
| Users.Authorities | src/main/java/com/example/myauth/security/CustomUserDetails.java:42-45 | exactly one authority, the role name |
| Users.LoadUserByUsername | src/main/java/com/example/myauth/security/CustomUserDetailsService.java:35-50 | the row with exactly that email (unnormalised), or not-found when there is none |
| Users.LoadUserById | src/main/java/com/example/myauth/security/CustomUserDetailsService.java:60-74 | the row with that id, or not-found when there is none |
| Users.ExistsByEmail | src/main/java/com/example/myauth/security/CustomUserDetailsService.java:82-84 | true iff some row holds the email |
| Users.EnabledIsUnlocked | src/main/java/com/example/myauth/security/CustomUserDetails.java:76-113 | enabled (ACTIVE and flag set) implies non-locked, non-expired and credentials non-expired; a locked account is never enabled |
| AuthFilter.ExtractToken | src/main/java/com/example/myauth/security/JwtAuthenticationFilter.java:133-143 | a token is found iff the header starts with the case-sensitive "Bearer ", and then the header is "Bearer " followed by the token |
| AuthFilter.Gate | src/main/java/com/example/myauth/security/JwtAuthenticationFilter.java:46-125 | a request is rejected (401) iff it carries a bearer token that does not verify; the body is TOKEN_EXPIRED exactly for an expired token, else INVALID_TOKEN, with the request path; an authenticated request names a verified userId, an existing user with the flag set, and that user's role as its only authority |
| AuthFilter.BearerRoundTrip | src/main/java/com/example/myauth/security/JwtAuthenticationFilter.java:137-139 | whatever follows "Bearer " is the token the gate reads |
| AuthFilter.ActiveUserAuthenticates | src/main/java/com/example/myauth/security/JwtAuthenticationFilter.java:69-90 | a verified token naming an existing user with the flag set authenticates as that user, whatever the status |
| AuthFilter.NoUserIdNeverAuthenticates | src/main/java/com/example/myauth/security/JwtAuthenticationFilter.java:64-72 | a verified token without userId continues anonymously |
| AuthFilter.NoBearerIsAnonymous | src/main/java/com/example/myauth/security/JwtAuthenticationFilter.java:57 | a missing or non-Bearer header continues anonymously |
| AuthFilter.InactiveUserNeverAuthenticates | src/main/java/com/example/myauth/security/JwtAuthenticationFilter.java:72 | users whose flag is cleared never authenticate |
| AuthService.FailureMessagesDistinct | src/main/java/com/example/myauth/service/AuthService.java:88-127 | two login refusals have the same text iff they are the same refusal |
| AuthService.RefreshSuccess | src/main/java/com/example/myauth/dto/TokenRefreshResponse.java:48-55 | success, the given access token, no refresh token |
| AuthService.RefreshError | src/main/java/com/example/myauth/dto/TokenRefreshResponse.java:63-70 | failure, the given message unchanged, no tokens |
| AuthService.NormalizeEmailIdempotent | src/main/java/com/example/myauth/service/AuthService.java:46 | normalising an email twice is normalising it once |
| AuthService.RegisterUser | src/main/java/com/example/myauth/service/AuthService.java:44-75 | succeeds iff the normalised email is unused and the save does not fail; the new row has the normalised email, the encoded password, ROLE_USER, ACTIVE, the flag set and a fresh id, and the table is otherwise unchanged; a used email gives the duplicate message, any other failure the generic sign-up error message; failures write nothing |
| AuthService.RegisterKeepsWellFormed | src/main/java/com/example/myauth/service/AuthService.java:44-75 | sign-up keeps ids and emails unique |
| AuthService.SecondSignupIsDuplicate | src/main/java/com/example/myauth/service/AuthService.java:66-68 | a second sign-up whose email normalises alike is refused as a duplicate |
| Jwt.RefreshTokenExpiryDate | src/main/java/com/example/myauth/security/JwtTokenProvider.java:140-142 | a refresh record expires one refresh lifetime after the clock read it is computed from |
| AuthService.IssueTokens | src/main/java/com/example/myauth/service/AuthService.java:141-168 | the user table is untouched; every earlier refresh record stays in place and exactly one record follows them, holding the refresh token returned in the body, owned by the user and expiring one refresh lifetime after the record's clock read |
| AuthService.IssuedRecordIsFound | src/main/java/com/example/myauth/service/AuthService.java:147-156 | when no earlier record holds the new refresh token, looking that token up finds the record the login saved |
| AuthService.Login | src/main/java/com/example/myauth/service/AuthService.java:78-169 | success only for a row with the normalised email, a matching password and an enabled account; failures write nothing; bad credentials iff the email is unknown or the password does not match; past the password, a cleared active flag gives the inactive refusal, then a non-ACTIVE status gives that status's refusal, and an enabled account is issued its tokens |
| AuthService.LoginSucceedsForEnabledAccount | src/main/java/com/example/myauth/service/AuthService.java:80-168 | the right password for an enabled account logs in, however the email is spaced or capitalised |
| AuthService.LoginHidesUnknownEmail | src/main/java/com/example/myauth/service/AuthService.java:88-104 | an unknown email and a wrong password get identical answers |
| AuthService.InactiveStatusMatchesInactiveFlag | src/main/java/com/example/myauth/service/AuthService.java:109-127 | a cleared flag and the INACTIVE status are refused with the same text |
| AuthService.LoginExAsWritten | src/main/java/com/example/myauth/service/AuthService.java:194-273 | the code as written: the catch-all refusal comes exactly for an unknown email; for the row the email finds, bad credentials iff the password does not match, inactive iff it matches and the account is not enabled, and success iff it matches and the account is enabled, with its tokens issued; the locked branch never fires; failures write nothing |
| AuthService.LoginExAsWrittenAgreesOnKnownEmail | src/main/java/com/example/myauth/service/AuthService.java:194-273 | for an email some row holds, the code as written and the corrected flow give the same answer and tables |
| AuthService.LoginExAsWrittenRevealsUnknownEmail | src/main/java/com/example/myauth/service/AuthService.java:202-272 | the answers to an unknown email and a wrong password differ |
| AuthService.LoginEx | src/main/java/com/example/myauth/service/AuthService.java:194-273 | the corrected flow: an unknown email gets bad credentials; for the row the email finds, bad credentials iff the password does not match, inactive iff it matches and the account is not enabled, success iff it matches and the account is enabled, with its tokens issued; failures write nothing |
| AuthService.LoginExHidesUnknownEmail | src/main/java/com/example/myauth/service/AuthService.java:205-208 | corrected, an unknown email and a wrong password get identical answers |
| AuthService.LoginExAgreesWithLogin | src/main/java/com/example/myauth/service/AuthService.java:78-273 | the corrected flow logs in exactly when the plain login does, with the same tokens and record, and refuses with bad credentials exactly when the plain login does |
| AuthService.FindRecord | src/main/java/com/example/myauth/service/AuthService.java:301-307 | the record found holds the token; none is found iff no record holds it |
| AuthService.FindRecordAppended | src/main/java/com/example/myauth/service/AuthService.java:147-156 | a record whose token no earlier record holds is found after it is saved |
| AuthService.RefreshAccessToken | src/main/java/com/example/myauth/service/AuthService.java:286-332 | the catch-all text iff the token fails to parse; the invalid text iff it parses but no record holds it; the expired text iff it parses and its record has expired; the inactive text iff it parses, its record is live and the owner is missing, inactive or not ACTIVE; success needs a live record whose owner is enabled, and returns an access token for that owner and no refresh token |
| AuthService.RefreshSucceedsForLiveRecord | src/main/java/com/example/myauth/service/AuthService.java:301-326 | a stored unexpired record with an enabled owner yields a new access token for the owner |
| AuthService.RefreshRejectsExpiredRecord | src/main/java/com/example/myauth/service/AuthService.java:310-313 | a record past its expiry gets the expired text |
| AuthController.Signup | src/main/java/com/example/myauth/controller/AuthController.java:34-43 | the body and the tables afterwards are the sign-up service's; 201 iff that sign-up succeeds, else 400 with nothing written |
| AuthController.Login | src/main/java/com/example/myauth/controller/AuthController.java:46-56 | the body and the tables afterwards are the login service's; 200 iff that login succeeds, with the refresh token in the body, else 400 |
| AuthController.LoginEx | src/main/java/com/example/myauth/controller/AuthController.java:72-124 | runs the service flow as written and keeps the tables it writes; the body is the service's, with the refresh token removed for a browser; 200 iff the email finds a row whose password matches and whose account is enabled; bad credentials iff the row's password does not match, inactive iff it matches on a disabled account, and the catch-all refusal exactly for an unknown email; a refusal is 400 without a cookie; a browser gets the HttpOnly, non-Secure, path "/", 604800-second refreshToken cookie and no refresh token in the body; an app gets it in the body and no cookie |
| AuthController.ChannelOnlyMovesRefreshToken | src/main/java/com/example/myauth/controller/AuthController.java:98-119 | web and app replies agree on status, access token and user; only where the refresh token travels differs |
| AuthController.FindCookie | src/main/java/com/example/myauth/controller/AuthController.java:157-166 | the first cookie with the name: no earlier cookie carries it; none iff no cookie has it |
| AuthController.FirstCookieWins | src/main/java/com/example/myauth/controller/AuthController.java:157-166 | when several cookies share the name, the earliest one's value is used, whatever follows |
| AuthController.Refresh | src/main/java/com/example/myauth/controller/AuthController.java:139-203 | a browser's token is the first refreshToken cookie; a browser without the cookie gets 401 and an app with a null or blank token gets 400, both without calling the service; once called, 200 iff the service succeeds, else 401 |
| AuthController.CookieRoundTrip | src/main/java/com/example/myauth/controller/AuthController.java:154-174 | the cookie a browser sends back is the token the service is called with |
| ImageStorage.ValidateFile | src/main/java/com/example/myauth/service/LocalImageStorageService.java:149-173 | accepted iff non-empty, at most 10 MiB, an allowed type (any case) and a name without ".."; each refusal comes exactly when its own check fails and every earlier one passes |
| ImageStorage.SizeLimitIsInclusive | src/main/java/com/example/myauth/service/LocalImageStorageService.java:156-160 | one byte over 10 MiB is too large whatever the type and name; exactly 10 MiB passes the size check and gets the verdict of a one-byte file |
| ImageStorage.GetFileExtension | src/main/java/com/example/myauth/service/LocalImageStorageService.java:181-192 | "" or a suffix starting at the last dot, which is neither the first nor the last character |
| ImageStorage.ExtensionRoundTrip | src/main/java/com/example/myauth/service/LocalImageStorageService.java:181-192 | the extension of "stem.e" is ".e" |
| ImageStorage.Store | src/main/java/com/example/myauth/service/LocalImageStorageService.java:80-115 | fails with the validation error or a storage failure; on success the name is the random part plus the extension, the URL is the base URL, "/" and the name, and the original name, size and type are echoed |
| ImageStorage.StoredNameHasNoParentStep | src/main/java/com/example/myauth/service/LocalImageStorageService.java:87-89 | a stored name never contains ".." |
| ImageStorage.NormalizeIdempotent | src/main/java/com/example/myauth/service/LocalImageStorageService.java:126 | normalising a path twice is normalising it once |
| ImageStorage.Delete | src/main/java/com/example/myauth/service/LocalImageStorageService.java:124-141 | refused with INVALID_PATH iff the normalised path is not under the upload directory; otherwise it succeeds iff the removal raises no IO fault, and removes exactly the normalised target |
| ImageStorage.DeletePlainName | src/main/java/com/example/myauth/service/LocalImageStorageService.java:124-141 | a plain stored name deletes exactly that file in the upload directory |
| ImageStorage.DeleteParentEscapeRefused | src/main/java/com/example/myauth/service/LocalImageStorageService.java:126-132 | "../sibling" is refused |
| ImageStorage.DeleteAbsoluteOutsideRefused | src/main/java/com/example/myauth/service/LocalImageStorageService.java:126-132 | an absolute name outside the upload directory is refused |
| Listing.ListNewestFirst | src/main/java/com/example/myauth/repository/FollowRepository.java:88-92 | lists exactly the given keys, each once, by creation time descending |
| Follows.CountsAfterAdd | src/main/java/com/example/myauth/repository/FollowRepository.java:130-138 | a new row adds one to the matching follower or following count and leaves the others alone |
| Follows.CountsAfterRemove | src/main/java/com/example/myauth/repository/FollowRepository.java:130-138 | removing a row takes one from the matching count and leaves the others alone |
| Follows.Follow | src/main/java/com/example/myauth/service/FollowService.java:51-81 | self-follow, a missing target and a duplicate are refused in that order, writing nothing; success adds exactly the pair and reports the target's counts after the change with following = true |
| Follows.Unfollow | src/main/java/com/example/myauth/service/FollowService.java:90-108 | not-found iff the pair is absent; otherwise removes exactly the pair and reports the counts after the change with following = false |
| Follows.FollowThenUnfollowRestores | src/main/java/com/example/myauth/service/FollowService.java:51-108 | follow then unfollow restores the table |
| Follows.FollowTwiceIsDuplicate | src/main/java/com/example/myauth/service/FollowService.java:64-67 | a second follow of the same pair is a duplicate |
| Follows.MutualIffBothWays | src/main/java/com/example/myauth/repository/FollowRepository.java:167-170 | mutual iff two different users each follow the other |
| Follows.FollowedAmong | src/main/java/com/example/myauth/repository/FollowRepository.java:150-155 | exactly those given ids the follower follows |
| Follows.FollowFlagIsFollowing | src/main/java/com/example/myauth/service/FollowService.java:133-146 | the batched flag is true iff the current user follows the listed user; all false when anonymous |
| Follows.ListedEdges | src/main/java/com/example/myauth/repository/FollowRepository.java:88-120 | exactly the rows into (followers) or out of (followings) the user |
| Follows.ListFollows | src/main/java/com/example/myauth/service/FollowService.java:120-186 | not-found for a missing user; otherwise one item per listed row, newest first, each carrying the listed user's name, email and profile image and flagged by whether the caller follows that user; the items' (user id, follow time) pairs are exactly those of the listed rows |
| Follows.GetFollowCounts | src/main/java/com/example/myauth/service/FollowService.java:210-223 | not-found for a missing user; otherwise the numbers of rows into and out of the user |
| Bookmarks.Bookmark | src/main/java/com/example/myauth/service/BookmarkService.java:48-69 | succeeds iff the post exists, is not deleted, and is not yet bookmarked; otherwise post-not-found, then duplicate; success adds exactly the pair |
| Bookmarks.Unbookmark | src/main/java/com/example/myauth/service/BookmarkService.java:78-92 | not-found iff the pair is absent; otherwise removes exactly the pair |
| Bookmarks.BookmarkThenUnbookmarkRestores | src/main/java/com/example/myauth/service/BookmarkService.java:48-92 | bookmark then unbookmark restores the store |
| Bookmarks.UnbookmarkIgnoresDeletion | src/main/java/com/example/myauth/service/BookmarkService.java:83-84 | a bookmark on a deleted post can still be removed |
| Bookmarks.CountAfterBookmark | src/main/java/com/example/myauth/repository/BookmarkRepository.java:97 | bookmarking adds one to that user's count only |
| Bookmarks.CountAfterUnbookmark | src/main/java/com/example/myauth/repository/BookmarkRepository.java:97 | unbookmarking takes one from that user's count only |
| Bookmarks.BookmarkedPostIds | src/main/java/com/example/myauth/repository/BookmarkRepository.java:117-122 | exactly those given post ids the user has bookmarked, each once |
| Bookmarks.ListedRows | src/main/java/com/example/myauth/repository/BookmarkRepository.java:81-87 | the user's bookmarks whose post exists and is not deleted |
| Bookmarks.ListingWithinCount | src/main/java/com/example/myauth/service/BookmarkService.java:103-137 | the listing never exceeds the count, and equals it when none of the user's bookmarked posts is deleted |
| Bookmarks.Preview | src/main/java/com/example/myauth/dto/bookmark/BookmarkedPostResponse.java:84-87 | null stays null; up to 100 characters unchanged; longer content becomes its first 100 characters and "..." |
| Bookmarks.PreviewKeepsPrefix | src/main/java/com/example/myauth/dto/bookmark/BookmarkedPostResponse.java:84-87 | the preview starts with the first (up to 100) characters of the content |
| Bookmarks.Thumbnail | src/main/java/com/example/myauth/dto/bookmark/BookmarkedPostResponse.java:90-96 | the first image's thumbnail, falling back to its image URL, none without images |
| Bookmarks.From | src/main/java/com/example/myauth/dto/bookmark/BookmarkedPostResponse.java:80-115 | bookmark id and time from the bookmark; post id, visibility, counts, author and creation time copied; the image count is the number of images; the preview is at most 103 characters |
| Bookmarks.GetBookmarkedPosts | src/main/java/com/example/myauth/service/BookmarkService.java:103-110 | one item per listed bookmark, by bookmark time descending; the items are exactly the responses built from the listed bookmarks |
| Profiles.MergeUser | src/main/java/com/example/myauth/service/UserService.java:46-54 | a non-null name or image replaces the stored one, a null leaves it; id, email, provider, password, role and status are untouched |
| Profiles.MergeProfile | src/main/java/com/example/myauth/service/UserService.java:70-100 | each non-null profile field replaces the stored one, each null leaves it |
| Profiles.NewProfile | src/main/java/com/example/myauth/service/UserService.java:60-67 | a created profile belongs to the user, has country 1, and every other field null |
| Profiles.UpdateUserProfile | src/main/java/com/example/myauth/service/UserService.java:35-126 | fails iff the user is missing; otherwise the user row is merged and the profile found or created, then merged with the request and stored under the user; other users and profiles are unchanged; the answer reports the saved values |
| Profiles.UpdateKeepsWellFormed | src/main/java/com/example/myauth/service/UserService.java:39-57 | the update keeps ids and emails unique |
| Profiles.UpdateKeepsEmailAndProvider | src/main/java/com/example/myauth/service/UserService.java:45-57 | no account's email or provider changes |
| Profiles.UpdateIsIdempotent | src/main/java/com/example/myauth/service/UserService.java:35-126 | sending the same request again changes nothing further |
| Profiles.EmptyRequestChangesNothing | src/main/java/com/example/myauth/service/UserService.java:46-100 | an all-null request leaves user and profile as they were |
| Profiles.MissingProfileIsCreated | src/main/java/com/example/myauth/service/UserService.java:60-84 | a missing profile is created with country 1 unless the request names one |
| Sessions.RegisterThenLogin | src/main/java/com/example/myauth/service/AuthService.java:44-169 | a fresh account logs in with its sign-up password under any spelling of the email that normalises alike |
| Sessions.LoginThenGateAuthenticates | src/main/java/com/example/myauth/security/JwtAuthenticationFilter.java:46-125 | the login's access token authenticates as that account until it expires |
| Sessions.LoginThenExpiredAccessRejected | src/main/java/com/example/myauth/security/JwtAuthenticationFilter.java:96-100 | after expiry the same token gets 401 with TOKEN_EXPIRED |
| Sessions.RefreshTokenIsNoBearer | src/main/java/com/example/myauth/security/JwtAuthenticationFilter.java:64-72 | the login's refresh token used as a bearer token continues anonymously |
| Sessions.LoginIssuesTo | src/main/java/com/example/myauth/service/AuthService.java:85-168 | with unique emails, a successful login was for the account holding the normalised email, which is enabled and is issued the tokens |
| Sessions.LoginThenRefresh | src/main/java/com/example/myauth/service/AuthService.java:286-332 | the login's refresh token buys a new access token for the same account while token and record are live |

## Left out

- JWT cryptography (the HMAC key, signing and parsing in jjwt) is abstracted as `Jwt.Codec`. Key and lifetimes are a fixed `Jwt.Config` passed to every call.
- BCrypt is abstracted as the caller-supplied `encode` and `matches`.
- Wall clock, `Date`/`LocalDateTime` and time zones are explicit integer instants. Instants are milliseconds, and seconds-precision truncation of JWT claims is not modelled.
- The gate reads the clock once for all of its parses. The source parses the token three times and could cross the expiry between parses.
- JPA, transactions and constraint atomicity are not modelled. A duplicate email is decided up front rather than by a failing insert. The acting user of `follow` and `bookmark` is assumed to exist (`getReferenceById`).
- Paging, the page-size clamp to 50 in the thin controllers, and bean validation of request bodies are not modelled. Listings return the whole result.
- Servlet, cookie and JSON I/O, `SecurityContextHolder` and logging are not modelled. The gate's outcome and the controllers' replies are values.
- A failure while generating or saving tokens in `loginEx` is not modelled. The catch-all refusal is reached only through the unknown-email path described under Findings.
- ImageStorage.Store: a missing file part (`f` is `None`) is answered as an empty file, as `validateFile` would. In the source the log line at the top of `store` dereferences the file first, so a null file would fail with a NullPointerException before that check.
- The `LoginResponse` success text and the refresh-token expiry of the login response body are not modelled.
- Case mapping and whitespace cover ASCII only. Java's full Unicode `toLowerCase` and UTF-16 code units are not modelled.
- The filesystem, UUID generation, directory creation and deletion of the upload directory itself are not modelled. `Path` parsing of name strings is modelled as already-split segments.
- The author projection (`PostAuthorResponse`) is represented by the author id. Profile and bookmark timestamps are not modelled.
- Several refresh records holding the same token string are not modelled beyond the first match.
- The Kakao OAuth controller, S3 storage stub, configuration classes and `GlobalExceptionHandler` are not part of this model. Neither are the `User`, `RefreshToken`, `Post`, `LoginResponse` and `ApiResponse` entity and DTO sources, whose fields are taken as the services use them.

## Findings

| source | as written | input that shows it | evidently intended | confidence | as-written member | corrected member |
|---|---|---|---|---|---|---|
| src/main/java/com/example/myauth/service/AuthService.java:202-208 | `loadUserByUsername` throws for an unknown email, so the null check that would answer "wrong email or password" is dead, and the catch-all answers instead | a login whose email no row holds, compared with a known email and a wrong password | both refused with the same bad-credentials text, as `login` does | not executed | AuthService.LoginExAsWrittenRevealsUnknownEmail | AuthService.LoginExHidesUnknownEmail |

`AuthController.LoginEx` runs the flow as written, so its contract shows the catch-all refusal for an unknown email. `AuthService.LoginEx` states the intended behaviour, and `AuthService.LoginExAgreesWithLogin` relates it to `login`.
