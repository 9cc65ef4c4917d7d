# Movie catalogue GraphQL back end — a Dafny model

The system is a GraphQL server for a small movie catalogue. Users register and log in, and they get a signed token
that they send back as a `Bearer` authorization header. With it they list movies one cursor page at a time, read
one movie, add or update movies they own, delete their own movies, and rate any movie from 0 to 5; each new
rating is announced to subscribers. This project models the decision logic of that server:

- **Header parsing** (`AuthHeader`): how the caller's identity is read from the header. The token is the text
  after the first `"Bearer "`, up to the next one or the end. There are three distinct failures.
- **Input validators** (`MoviesValidator`, `AuthValidators`, `EmailPattern`): they build field-to-message error
  records. The registration e-mail pattern is written out as a predicate.
- **Accounts** (`Authentication`): register, login and current-user over a user collection (`UserStore`). Token
  generation is modelled by which claims are signed.
- **Catalogue** (`Movies`): cursor pagination and the listing with its defaults. The movie collection is a class
  (`MovieStore`) whose methods create, update, delete and rate movies. Publishing a new rating is returned as an
  event value instead of being sent.
- **Field resolvers** (`FieldResolvers`): the computed `ratingCount` and `avg` fields.
- **JavaScript library behaviour** (`JsString`, `JsArray`): only what the code relies on. That is `trim`,
  `indexOf`/`split`, `findIndex`/`find`, `filter` and the in-place `reverse`.

The database, the token library, the password hashing library and the date library are not modelled. Each one is
a parameter of the operations that use it:

- `verify` returns `None` where the token library would throw.
- `sign` and `hash` are plain functions.
- `compare` checks a password against a stored hash.
- `DateOracle` answers two questions: "strict ISO 8601?" and "after now?".
- `SortFn` is the database's ordering.
- The id and timestamp of a newly created document are also parameters.

Each store operation takes the outcome of header parsing, so every operation's authentication failure is part of
its contract.

Where the code and the API's documented intent diverge, the model follows the code. These quirks are kept as
written, and lemmas pin each one down:

- The movie validator's `valid` is the number of error keys minus one, so an input is refused only when it has
  exactly one error. No errors gives -1 and two errors give 1, and both count as true.
- The duplicate-cast branch sits inside the "no actors" branch, so it can never run.
- The validator reads `duration`, while the schema's movie input carries `runtime`. So a well-formed input without
  `duration` has exactly one error and is refused.
- Updating an owned title answers the store's acknowledgement of the update, not the movie.
- `avg` keeps only the last score (`sum = rating.score`) and divides it by the stored count.
- The token is taken from `split("Bearer ")[1]`. Text before `"Bearer "` is accepted, and a second `"Bearer "`
  ends the token, instead of the header having to be exactly `Bearer <token>`.
- Pages are found by cursor (the id of the last movie seen), not by page number. There is no `grade` field; the
  stored and resolved field is `avg`.
- A page that comes out empty makes `getMovies` fail while reading the last movie's id (`EmptyPage`), instead of
  answering an empty page.

## Model

| member | source | states |
|---|---|---|
| JsString.TrimStart | src/resolvers/Movies/moviesValidator.ts:14 | the result is a suffix of the input, what was cut is white space, and the result does not start with white space |
| JsString.TrimEnd | src/resolvers/Movies/moviesValidator.ts:14 | the result is a prefix of the input, what was cut is white space, and the result does not end with white space |
| JsString.TrimIsEmptyIffBlank | src/resolvers/Movies/moviesValidator.ts:14 | `trim()` gives "" exactly when every character is white space |
| JsString.IndexOf | src/auth.ts:9 | the first occurrence of the pattern at or after the start position, or None when there is none from there on |
| JsString.IndexOfInSuffix | src/auth.ts:9 | searching a suffix finds the same occurrences as searching the whole string from that offset, shifted |
| JsString.Split | src/auth.ts:9 | splitting on a non-empty separator gives at least one piece, and joining the pieces back with the separator gives the input |
| JsString.SplitUnfolds | src/auth.ts:9 | without the separator the split is the whole string; otherwise it is the text before the first separator followed by the split of the rest |
| JsArray.FirstIndex | src/resolvers/Movies/movies.ts:38-44 | the index of the first element satisfying the test, or None when no element does |
| JsArray.Filter | src/resolvers/Movies/movies.ts:194 | every kept element satisfies the test and comes from the input, every input element that satisfies it is kept, and the result is no longer than the input |
| JsArray.FilterConcat | src/resolvers/Movies/movies.ts:194-195 | filtering a concatenation is concatenating the filtered parts |
| JsArray.FilterIdempotent | src/resolvers/Movies/movies.ts:194 | filtering twice with the same test is filtering once |
| JsArray.FilterKeepsAll | src/resolvers/Movies/movies.ts:194 | when every element passes, the filter returns the input unchanged |
| JsArray.FilterKeepsNone | src/resolvers/Movies/movies.ts:194 | when no element passes, the filter returns the empty list |
| JsArray.Reversed | src/resolvers/Movies/movies.ts:84 | the reversal has the input's length; element i is the input's element counted i from the end |
| JsArray.ReversedTwice | src/resolvers/Movies/movies.ts:84 | reversing twice gives the input back |
| JsArray.Reverse | src/resolvers/Movies/movies.ts:84 | the array's new contents are its old contents reversed, in place |
| EmailPattern.AcceptedAddressHasOneAt | src/resolvers/Authentication/authValidators.ts:25 | every address the registration pattern accepts contains exactly one '@' |
| EmailPattern.AcceptedAddressEndsWithTopLevel | src/resolvers/Authentication/authValidators.ts:25 | every accepted address ends with '.' followed by 2 to 9 ASCII letters |
| EmailPattern.LocalAtDomainMatches | src/resolvers/Authentication/authValidators.ts:25 | a local part, an '@' and a domain, in that order, form an accepted address |
| EmailPattern.SampleAddressMatches | src/resolvers/Authentication/authValidators.ts:25 | "johndoe@fakemail.com" is accepted |
| EmailPattern.DoubleAtIsRejected | src/resolvers/Authentication/authValidators.ts:25 | "john@doe@mail.com", with two @, is rejected |
| AuthHeader.TokenEnd | src/auth.ts:9 | the token ends at the next "Bearer " after its start, or at the end of the header |
| AuthHeader.BearerTokenIsFirstPieceAfterBearer | src/auth.ts:9 | without "Bearer " there is no second piece; otherwise the second piece is the first piece of the text after the first "Bearer " |
| AuthHeader.BearerTokenFollowsFirstBearer | src/auth.ts:9 | `split("Bearer ")[1]` exists exactly when the header contains "Bearer ", and it is the text after the first occurrence up to the next occurrence or the end |
| AuthHeader.GetUserInfo | src/auth.ts:6-22 | an absent or empty header fails "Authorization header required"; no "Bearer " or nothing after it fails "Authentication token must be 'Bearer [token]"; a token the verifier rejects fails "Invalid/Expired Token"; otherwise the decoded claims are returned unchanged |
| AuthHeader.PrefixBeforeBearerIsIgnored | src/auth.ts:9 | "xBearer t" is read as the token "t" |
| AuthHeader.SecondBearerEndsTheToken | src/auth.ts:9 | in "Bearer a Bearer b" the token is "a " |
| AuthHeader.EmptyTokenIsMalformed | src/auth.ts:10-18 | "Bearer " alone fails as malformed |
| MoviesValidator.MovieInputErrors | src/resolvers/Movies/moviesValidator.ts:11-43 | each key depends only on its own field: a title error iff the title is blank; an actors error iff the cast is empty, always "Movie requires actors"; blank, non-ISO and future release dates each give their own message, and a valid past date none; a duration error iff duration is absent or 0 |
| MoviesValidator.AddMovieValidator | src/resolvers/Movies/moviesValidator.ts:11-48 | the record built check by check is that error record, and `valid` is its number of keys minus one |
| MoviesValidator.FlawlessInputIsAccepted | src/resolvers/Movies/moviesValidator.ts:45-48 | an input without problems has no error keys and `valid` is -1 |
| MoviesValidator.BlankTitleAndNoActorsIsAccepted | src/resolvers/Movies/moviesValidator.ts:47 | two problems give `valid` 1, which is truthy, so the input is not refused |
| MoviesValidator.MissingDurationAloneIsRefused | src/resolvers/Movies/moviesValidator.ts:41-47 | a well-formed input without duration has exactly the duration error, so `valid` is 0 |
| MoviesValidator.DuplicateCastPasses | src/resolvers/Movies/moviesValidator.ts:17-25 | a cast with a repeated name never gets an actors error |
| AuthValidators.RegisterErrors | src/resolvers/Authentication/authValidators.ts:16-34 | a username error iff the username is blank; a blank e-mail gives "Email must not be empty", otherwise failing the pattern (tried on the untrimmed text) gives "Email must have a valid email format"; a blank password sets only the password error; otherwise a mismatched confirmation gives "Passwords must match" |
| AuthValidators.RegisterFieldsValidator | src/resolvers/Authentication/authValidators.ts:16-40 | the record built check by check is that error record; `valid` holds iff no key is set, iff the input is acceptable |
| AuthValidators.LoginErrors | src/resolvers/Authentication/authValidators.ts:42-52 | username and password errors each iff that field is blank, independently; `general` is never set |
| AuthValidators.LoginFieldsValidator | src/resolvers/Authentication/authValidators.ts:42-59 | the record built check by check is that error record; `valid` holds iff no key is set, iff both fields are non-blank |
| Authentication.IssuedTokenIdentifiesItsUser | src/resolvers/Authentication/auth.ts:24-34 | a token generated for a user (signing exactly id, username and e-mail) and sent back as "Bearer <token>" authenticates as that user's id, username and e-mail |
| Authentication.FindByUsername | src/resolvers/Authentication/auth.ts:83 | the first user with that username, or None when there is none |
| Authentication.FindById | src/resolvers/Authentication/auth.ts:111 | the first user with that id, or None when there is none |
| Authentication.EmailTaken | src/resolvers/Authentication/auth.ts:46 | true exactly when some stored user has that e-mail |
| Authentication.AppendFreshUser | src/resolvers/Authentication/auth.ts:56-62 | adding a user whose id, username and e-mail are new keeps them unique across the collection |
| Authentication.UserStore.Register | src/resolvers/Authentication/auth.ts:36-71 | invalid input fails "Registration Input Errors" with the validator's record; a taken username fails "Username already used" before the e-mail is considered; a free username with a taken e-mail fails "Email already used"; these leave the store unchanged; otherwise exactly one user is appended, with the hashed password, and its id, username, e-mail and token are answered |
| Authentication.UserStore.Login | src/resolvers/Authentication/auth.ts:73-104 | blank fields fail "Login Input Errors" with the validator's record; an unknown user and a wrong password fail with the same record, `general` = "Username or password are incorrect"; success iff the user exists and the password matches, answering that user's identity and token |
| Authentication.UserStore.CurrentUser | src/resolvers/Authentication/auth.ts:106-120 | fails "Not authenticated!" unless an identity is present and its id is stored; then answers the stored user's id, username and e-mail |
| Movies.CursorIndex | src/resolvers/Movies/movies.ts:38-44 | the first item with a non-empty id equal to the cursor, or None when no item matches |
| Movies.PageStart | src/resolvers/Movies/movies.ts:37-53 | a page starts just after the cursor's item, or at the front when there is no cursor or no match |
| Movies.PaginateResults | src/resolvers/Movies/movies.ts:30-54 | a page size below 1 gives nothing; otherwise the page is the contiguous run of at most pageSize items starting at PageStart |
| Movies.PageWithoutCursorIsTheFirstItems | src/resolvers/Movies/movies.ts:37-53 | with no cursor, or one that matches nothing, the page is the first pageSize items |
| Movies.PageFollowsCursor | src/resolvers/Movies/movies.ts:46-52 | with a cursor first matched at i, the page is the items after i, at most pageSize of them, and nothing when i is last |
| Movies.PageExcludesCursorItem | src/resolvers/Movies/movies.ts:46-52 | with unique ids the cursor's item is never on the page |
| Movies.NextPageStartsWhereThisOneEnds | src/resolvers/Movies/movies.ts:85-93 | with unique, present ids, passing back the returned cursor starts the next page right after this one |
| Movies.LastIdDiffersIffPageStopsShort | src/resolvers/Movies/movies.ts:96-99 | the page's last id differs from the listing's last id exactly when the page stops before the end |
| Movies.OrderFlag | src/resolvers/Movies/movies.ts:78 | "asc" is 1 and any other order is -1 |
| Movies.Listing | src/resolvers/Movies/movies.ts:75-84 | without the owner filter and without both a field and an order, the listing is the stored movies reversed |
| Movies.OnlyMineListsTheCallersMovies | src/resolvers/Movies/movies.ts:75-77 | with userMovies set, and a sort that only reorders, every listed movie belongs to the caller |
| Movies.MissingOrZeroPageSizeMeansTwenty | src/resolvers/Movies/movies.ts:61-72 | an absent or zero page size, or no arguments at all, means 20 |
| Movies.FillDefaults | src/resolvers/Movies/movies.ts:61-72 | the `let` defaults, overwritten by truthy arguments, are exactly the request with defaults filled in |
| Movies.MoviesPage | src/resolvers/Movies/movies.ts:85-100 | fails exactly when the page is empty; otherwise answers the page cut from the reversed listing, with the last movie's id as cursor |
| Movies.NegativePageSizeFails | src/resolvers/Movies/movies.ts:35-93 | a negative page size fails instead of answering an empty page |
| Movies.HasMoreIffListingContinues | src/resolvers/Movies/movies.ts:96-99 | with unique ids, hasMore is true exactly when more of the listing follows the page |
| Movies.WithoutIsNotRatedBy | src/resolvers/Movies/movies.ts:194 | after the removal no rating is the caller's |
| Movies.WithoutUnratedIsIdentity | src/resolvers/Movies/movies.ts:204-209 | when the caller has not rated, removing the caller's ratings changes nothing |
| Movies.RatingsByAfterRemoval | src/resolvers/Movies/movies.ts:194-199 | after the removal, the caller's ratings are only what is appended |
| Movies.PositiveScoreReplacesTheUsersRating | src/resolvers/Movies/movies.ts:192-199 | a positive score leaves the caller exactly one rating, the new one, and it is last |
| Movies.ZeroScoreRetracts | src/resolvers/Movies/movies.ts:200-225 | a zero score over an existing rating removes the caller's ratings and publishes nothing |
| Movies.FirstZeroScoreIsStored | src/resolvers/Movies/movies.ts:204-231 | a zero score from a user who has not rated is appended like any first rating, and is published |
| Movies.OtherUsersRatingsUntouched | src/resolvers/Movies/movies.ts:190-210 | the other users' ratings are the same list, in the same order, before and after |
| Movies.WithoutKeepsDistinct | src/resolvers/Movies/movies.ts:194 | removing the caller's ratings keeps at most one rating per user |
| Movies.RatingKeepsMovieConsistent | src/resolvers/Movies/movies.ts:190-212 | after rating, ratingCount is the number of ratings and no user has rated twice |
| Movies.EventCarriesTheNewestRating | src/resolvers/Movies/movies.ts:225-231 | an event is published exactly when a rating was added or updated, and it carries the movie's last rating and its title |
| Movies.FindByTitle | src/resolvers/Movies/movies.ts:137 | the first movie with exactly that title, or None when there is none |
| Movies.FindById | src/resolvers/Movies/movies.ts:113 | the first movie with that id, or None when there is none |
| Movies.AppendKeepsCatalog | src/resolvers/Movies/movies.ts:138-149 | adding a movie with a fresh id and an untaken title keeps ids and titles unique |
| Movies.ReplaceKeepsCatalog | src/resolvers/Movies/movies.ts:152-155 | saving a movie back with the same id and title keeps the catalogue invariant |
| Movies.RemoveKeepsCatalog | src/resolvers/Movies/movies.ts:171 | removing a movie keeps the catalogue invariant |
| Movies.DeletionRemovesOnlyThatMovie | src/resolvers/Movies/movies.ts:170-172 | removing one movie leaves exactly the movies with other ids |
| Movies.ReversedInPlace | src/resolvers/Movies/movies.ts:83-84 | reversing the query's array in place gives the reversed list |
| Movies.MovieStore.GetMovies | src/resolvers/Movies/movies.ts:56-104 | an authentication failure is answered as is; otherwise the answer is the page for the request with its defaults filled in (20, the default filter, no cursor) |
| Movies.MovieStore.GetMovie | src/resolvers/Movies/movies.ts:106-123 | an authentication failure first; the movie with that id if one exists, otherwise "Movie not found" |
| Movies.MovieStore.AddMovie | src/resolvers/Movies/movies.ts:126-160 | rejects with "Add Movie Input Errors" exactly when the validator found one error; a new title appends exactly one movie, with no ratings, a count and avg of 0, and the caller as owner; the caller's own title is updated with the input's fields in place; someone else's title fails "Movie already exist"; failures leave the store unchanged |
| Movies.MovieStore.DeleteMovie | src/resolvers/Movies/movies.ts:162-179 | removes the movie only when it exists and the caller owns it, answering "Movie deleted successfully"; a missing movie and someone else's movie both fail "Not allowed." and leave the store unchanged |
| Movies.MovieStore.AddRating | src/resolvers/Movies/movies.ts:181-240 | a score outside 0..5 fails "Invalid rating value" and an unknown id "Movie not found", leaving the store unchanged; otherwise that movie alone becomes the rated movie (old rating removed, new one last unless retracted, count recomputed), and the event is the one described above |
| FieldResolvers.RatingCountIgnoresStoredField | src/resolvers/index.ts:8 | the resolved ratingCount is the length of the ratings list, whatever is stored |
| FieldResolvers.ResolvedCountMatchesStoredAfterRating | src/resolvers/index.ts:8 | after a rating, the resolved count and the stored count agree |
| FieldResolvers.Avg | src/resolvers/index.ts:10-21 | 0 when the stored count is not positive; otherwise the last rating's score (0 with no ratings) over the stored count |
| FieldResolvers.AvgIgnoresEarlierScores | src/resolvers/index.ts:13-15 | movies that agree on the stored count and the last score have the same avg, whatever the earlier scores |
| FieldResolvers.AvgIsNotTheMean | src/resolvers/index.ts:13-16 | scores 5 then 1 give avg 0.5, where the mean is 3 |
| FieldResolvers.SumOfEqualScores | src/resolvers/index.ts:13-15 | n equal scores c sum to n times c |
| FieldResolvers.AvgIsTheMeanOnlyForOneRating | src/resolvers/index.ts:13-16 | with a repeated non-zero score c, the mean is c and avg is c over the count, so the two agree exactly when there is one rating |

## Left out

- Database, server start-up, configuration and schema: the collections are sequences in store order. The
  database's queries become first-match searches, its sort is the `SortFn` parameter, and ids and timestamps are
  parameters.
- Publish/subscribe (`getNewestRating`, the `NEW_RATING` channel): this is transport. `AddRating` returns the
  event it would publish.
- Concurrency: the read-modify-write race between two `addRating` calls is not modelled; each operation is atomic.
- The `throw new Error(err)` re-wrapping in `getMovies`, `getMovie` and `deleteMovie`: it changes only the text
  of the message. The model gives the error kind, and `Message()` gives the inner message.
- Movies.MovieError.Message: for `EmptyPage` it does not give the runtime's own text, which depends on the
  JavaScript engine.
- An id that is not a well-formed database id makes `findById` throw a cast error. Here such an id simply
  matches no movie.
- Token signing, verification and expiry, password hashing and comparison, and the date library: these are
  uninterpreted parameters. `verify` yields `None` where the library throws.
- JavaScript's `trim` is modelled as removing ASCII white space (space and tab through carriage return). Unicode
  white space is not modelled.
- JavaScript numbers: scores, runtimes and counts are unbounded integers. `avg` is exact `real` division with no
  IEEE rounding.
- `currentUser` reads the identity from a server context whose set-up is commented out in the source. The model
  takes that identity as an optional parameter.
- The spread of the stored document into the register and login answers: only the id, username, e-mail and token
  are modelled.
- The schema's argument names differ from what the code reads (`filterObject` against `filterObj`, and `after`
  commented out). The model takes the code's names.
