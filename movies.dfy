/** The movie resolvers (src/resolvers/Movies/movies.ts): cursor pagination, the listing with
    its defaults, and the store operations addMovie, deleteMovie, getMovie and addRating.
    The collection is a sequence in store order; publishing a new rating is returned as an
    event instead of being sent. */
module Movies {
  import opened Wrappers
  import opened JsArray
  import opened Models
  import opened AuthHeader
  import opened MoviesValidator

  datatype FilterObj = FilterObj(userMovies: bool, field: string, order: string)

  /** The optional listing arguments; an absent field is None. */
  datatype PaginationParams = PaginationParams(pageSize: Option<int>, after: Option<string>, filterObj: Option<FilterObj>)

  /** The listing arguments once the defaults are filled in. */
  datatype ListingRequest = ListingRequest(pageSize: int, filter: FilterObj, after: string)

  datatype MoviesConnection = MoviesConnection(movies: seq<Movie>, cursor: string, hasMore: bool)

  datatype AddRatingInput = AddRatingInput(movieId: string, score: int)

  /** The payload published on the "NEW_RATING" channel. */
  datatype NewestRating = NewestRating(rating: Rating, movie: string)

  /** What addRating answers, with the event it publishes, if any. */
  datatype RatingOutcome = RatingOutcome(movie: Movie, published: Option<NewestRating>)

  /** addMovie answers the new document, or, on the update path, the store's acknowledgement
      of the update rather than the movie. */
  datatype AddMovieOutcome = Created(movie: Movie) | UpdateAcknowledged

  datatype MovieError =
    | Unauthenticated(cause: AuthError)
    | AddMovieInputErrors(errors: AddMovieValidationError)
    | MovieAlreadyExists
    | NotAllowed
    | MovieNotFound
    | InvalidRatingValue
    | EmptyPage   // reading the id of the last movie of an empty page
  {
    function Message(): string {
      match this
      case Unauthenticated(cause) => cause.Message()
      case AddMovieInputErrors(_) => "Add Movie Input Errors"
      case MovieAlreadyExists => "Movie already exist"
      case NotAllowed => "Not allowed."
      case MovieNotFound => "Movie not found"
      case InvalidRatingValue => "Invalid rating value"
      case EmptyPage => ""   // the runtime's own TypeError text, not modelled
    }
  }

  /** The store's ordering for `.sort({ [field]: order })`. */
  type SortFn = (seq<Movie>, string, int) -> seq<Movie>

  const DEFAULT_PAGE_SIZE := 20
  const DEFAULT_FILTER := FilterObj(false, "", "desc")
  const MOVIE_DELETED := "Movie deleted successfully"

  function Min(a: int, b: int): int {
    if a <= b then a else b
  }

  function Last<T>(s: seq<T>): T
    requires s != []
  {
    s[|s| - 1]
  }

  predicate UniqueIds(ms: seq<Movie>) {
    forall i, j :: 0 <= i < j < |ms| ==> ms[i].id != ms[j].id
  }

  // ------------------------------------------------------------------ pagination

  /** An item is the cursor's item when it has an id and the id is the cursor. */
  predicate MatchesCursor(m: Movie, cursor: string) {
    m.id != "" && m.id == cursor
  }

  /** results.findIndex(...) on the cursor. */
  function CursorIndex(cursor: string, results: seq<Movie>): (r: Option<nat>)
    ensures r.Some? ==> r.value < |results| && MatchesCursor(results[r.value], cursor)
    ensures r.Some? ==> forall j :: 0 <= j < r.value ==> !MatchesCursor(results[j], cursor)
    ensures r.None? ==> forall j :: 0 <= j < |results| ==> !MatchesCursor(results[j], cursor)
  {
    FirstIndex(results, (m: Movie) => MatchesCursor(m, cursor))
  }

  /** Where a page begins: just after the cursor's item, or at the front when there is no
      cursor or no item matches it. */
  function PageStart(cursor: string, results: seq<Movie>): (start: nat)
    ensures start <= |results|
  {
    if cursor == "" then 0
    else match CursorIndex(cursor, results)
      case None => 0
      case Some(i) => i + 1
  }

  /** paginateResults: nothing for a page size below 1; otherwise the run of at most
      pageSize items that starts at PageStart. */
  function PaginateResults(cursor: string, pageSize: int, results: seq<Movie>): (page: seq<Movie>)
    ensures pageSize < 1 ==> page == []
    ensures pageSize >= 1 ==>
              var start := PageStart(cursor, results);
              page == results[start..start + Min(pageSize, |results| - start)]
  {
    if pageSize < 1 then []
    else if cursor == "" then results[..Min(|results|, pageSize)]
    else
      match CursorIndex(cursor, results)
      case Some(i) =>
        if i == |results| - 1 then []
        else results[i + 1..Min(|results|, i + 1 + pageSize)]
      case None => results[..Min(|results|, pageSize)]
  }

  /** With no cursor, or a cursor that no item matches, the page is the first pageSize items. */
  lemma PageWithoutCursorIsTheFirstItems(cursor: string, pageSize: int, results: seq<Movie>)
    requires pageSize >= 1
    requires cursor == "" || CursorIndex(cursor, results).None?
    ensures PaginateResults(cursor, pageSize, results) == results[..Min(pageSize, |results|)]
  {
  }

  /** With a cursor first matched at i, the page is what follows i; after the last item it is empty. */
  lemma PageFollowsCursor(cursor: string, pageSize: int, results: seq<Movie>, i: nat)
    requires pageSize >= 1 && CursorIndex(cursor, results) == Some(i)
    ensures PaginateResults(cursor, pageSize, results) == results[i + 1..Min(|results|, i + 1 + pageSize)]
    ensures i == |results| - 1 ==> PaginateResults(cursor, pageSize, results) == []
  {
  }

  /** When ids are unique the cursor's own item is never on the page. */
  lemma PageExcludesCursorItem(cursor: string, pageSize: int, results: seq<Movie>)
    requires UniqueIds(results)
    ensures forall m :: m in PaginateResults(cursor, pageSize, results) ==> !MatchesCursor(m, cursor)
  {
    var page := PaginateResults(cursor, pageSize, results);
    if pageSize >= 1 && cursor != "" && CursorIndex(cursor, results).Some? {
      var i := CursorIndex(cursor, results).value;
      forall m | m in page ensures !MatchesCursor(m, cursor) {
        var k :| 0 <= k < |page| && page[k] == m;
        assert m == results[i + 1 + k];
      }
    }
  }

  /** Passing the returned cursor back continues exactly where the page stopped: consecutive
      pages are adjacent runs of the listing. */
  lemma {:induction false} NextPageStartsWhereThisOneEnds(cursor: string, pageSize: int, results: seq<Movie>)
    requires UniqueIds(results)
    requires forall i :: 0 <= i < |results| ==> results[i].id != ""
    requires PaginateResults(cursor, pageSize, results) != []
    ensures var page := PaginateResults(cursor, pageSize, results);
            PageStart(Last(page).id, results) == PageStart(cursor, results) + |page|
  {
    var page := PaginateResults(cursor, pageSize, results);
    var k := PageStart(cursor, results) + |page| - 1;
    assert Last(page) == results[k];
    assert MatchesCursor(results[k], results[k].id);
  }

  /** The page's last id differs from the listing's last id exactly when the page stops
      before the end of the listing. */
  lemma {:induction false} LastIdDiffersIffPageStopsShort(cursor: string, pageSize: int, results: seq<Movie>)
    requires UniqueIds(results)
    requires PaginateResults(cursor, pageSize, results) != []
    ensures var page := PaginateResults(cursor, pageSize, results);
            (Last(page).id != Last(results).id) <==> PageStart(cursor, results) + |page| < |results|
  {
    var page := PaginateResults(cursor, pageSize, results);
    assert Last(page) == results[PageStart(cursor, results) + |page| - 1];
  }

  // ------------------------------------------------------------------ getMovies

  /** order "asc" is 1 and anything else -1. */
  function OrderFlag(order: string): (flag: int)
    ensures flag == 1 <==> order == "asc"
    ensures flag == 1 || flag == -1
  {
    if order != "" then (if order == "asc" then 1 else -1) else -1
  }

  predicate OwnedBy(m: Movie, username: string) {
    m.username == username
  }

  /** find(where): all movies, or only the caller's when userMovies is set. */
  function Matching(ms: seq<Movie>, caller: UserInfo, f: FilterObj): seq<Movie> {
    if f.userMovies then Filter(ms, (m: Movie) => OwnedBy(m, caller.username)) else ms
  }

  /** .sort(sortParam): sorted only when both a field and an order are given. */
  function Ordered(ms: seq<Movie>, f: FilterObj, sortBy: SortFn): seq<Movie> {
    if f.field != "" && f.order != "" then sortBy(ms, f.field, OrderFlag(f.order)) else ms
  }

  /** The full list a page is cut from: matched, ordered, then reversed. */
  function Listing(ms: seq<Movie>, caller: UserInfo, f: FilterObj, sortBy: SortFn): (all: seq<Movie>)
    ensures !f.userMovies && (f.field == "" || f.order == "") ==> all == Reversed(ms)
  {
    Reversed(Ordered(Matching(ms, caller, f), f, sortBy))
  }

  /** The store's sort only reorders. */
  ghost predicate Reorders(sortBy: SortFn) {
    forall ms, field, order :: multiset(sortBy(ms, field, order)) == multiset(ms)
  }

  /** With userMovies set, every listed movie belongs to the caller. */
  lemma OnlyMineListsTheCallersMovies(ms: seq<Movie>, caller: UserInfo, f: FilterObj, sortBy: SortFn)
    requires f.userMovies && Reorders(sortBy)
    ensures forall m :: m in Listing(ms, caller, f, sortBy) ==> m.username == caller.username
  {
    var matched := Matching(ms, caller, f);
    var ordered := Ordered(matched, f, sortBy);
    forall m | m in Listing(ms, caller, f, sortBy) ensures m.username == caller.username {
      var k :| 0 <= k < |ordered| && Reversed(ordered)[k] == m;
      assert m in ordered;
      assert m in multiset(ordered);
      assert m in matched;
    }
  }

  /** The defaulting of lines 61-72: pageSize 20 when absent or 0, the default filter when
      absent, no cursor when absent or empty. */
  function Effective(params: Option<PaginationParams>): ListingRequest {
    match params
    case None => ListingRequest(DEFAULT_PAGE_SIZE, DEFAULT_FILTER, "")
    case Some(p) =>
      ListingRequest(
        if p.pageSize.Some? && p.pageSize.value != 0 then p.pageSize.value else DEFAULT_PAGE_SIZE,
        if p.filterObj.Some? then p.filterObj.value else DEFAULT_FILTER,
        if p.after.Some? then p.after.value else "")
  }

  /** What getMovies answers for a request with its defaults filled in. */
  function MoviesPage(ms: seq<Movie>, caller: UserInfo, q: ListingRequest, sortBy: SortFn): (r: Result<MoviesConnection, MovieError>)
    ensures r.Failure? <==> PaginateResults(q.after, q.pageSize, Listing(ms, caller, q.filter, sortBy)) == []
    ensures r.Failure? ==> r.error == EmptyPage
    ensures r.Success? ==>
              r.value.movies == PaginateResults(q.after, q.pageSize, Listing(ms, caller, q.filter, sortBy)) &&
              r.value.cursor == Last(r.value.movies).id
  {
    var all := Listing(ms, caller, q.filter, sortBy);
    var page := PaginateResults(q.after, q.pageSize, all);
    if page == [] then Failure(EmptyPage)
    else Success(MoviesConnection(page, Last(page).id, Last(page).id != Last(all).id))
  }

  /** A page size of 0 or none at all means 20. */
  lemma MissingOrZeroPageSizeMeansTwenty(p: PaginationParams)
    requires p.pageSize.None? || p.pageSize == Some(0)
    ensures Effective(Some(p)).pageSize == DEFAULT_PAGE_SIZE
    ensures Effective(None).pageSize == DEFAULT_PAGE_SIZE
  {
  }

  /** A negative page size always fails instead of answering an empty page. */
  lemma NegativePageSizeFails(ms: seq<Movie>, caller: UserInfo, q: ListingRequest, sortBy: SortFn)
    requires q.pageSize < 0
    ensures MoviesPage(ms, caller, q, sortBy) == Failure(EmptyPage)
  {
  }

  /** hasMore is true exactly when the page stops before the end of the listing. */
  lemma HasMoreIffListingContinues(ms: seq<Movie>, caller: UserInfo, q: ListingRequest, sortBy: SortFn)
    requires UniqueIds(Listing(ms, caller, q.filter, sortBy))
    ensures var r := MoviesPage(ms, caller, q, sortBy);
            var all := Listing(ms, caller, q.filter, sortBy);
            r.Success? ==> (r.value.hasMore <==> PageStart(q.after, all) + |r.value.movies| < |all|)
  {
    var all := Listing(ms, caller, q.filter, sortBy);
    if PaginateResults(q.after, q.pageSize, all) != [] {
      LastIdDiffersIffPageStopsShort(q.after, q.pageSize, all);
    }
  }

  // ------------------------------------------------------------------ ratings

  predicate RatedBy(r: Rating, username: string) {
    r.username == username
  }

  predicate NotRatedBy(r: Rating, username: string) {
    r.username != username
  }

  /** movie.ratings.find(...) on the caller's name. */
  function FindRating(rs: seq<Rating>, username: string): Option<nat> {
    FirstIndex(rs, (r: Rating) => RatedBy(r, username))
  }

  /** movie.ratings.filter(...) keeping the other users' ratings. */
  function RatingsWithout(rs: seq<Rating>, username: string): seq<Rating> {
    Filter(rs, (r: Rating) => NotRatedBy(r, username))
  }

  /** The ratings one user holds on a movie. */
  function RatingsBy(rs: seq<Rating>, username: string): seq<Rating> {
    Filter(rs, (r: Rating) => RatedBy(r, username))
  }

  /** At most one rating per user. */
  predicate DistinctRaters(rs: seq<Rating>) {
    forall i, j :: 0 <= i < j < |rs| ==> rs[i].username != rs[j].username
  }

  /** The stored count is the length of the list and no user rates twice. */
  predicate RatingsConsistent(m: Movie) {
    m.ratingCount == |m.ratings| && DistinctRaters(m.ratings)
  }

  /** Whether rating adds a new rating (and publishes it): a positive score, or a first rating
      of any score. Only a zero score on an existing rating retracts. */
  predicate AddsRating(m: Movie, username: string, score: int) {
    score > 0 || FindRating(m.ratings, username).None?
  }

  /** The movie after `username` rates it `score` at time `now`: the user's old ratings go,
      the other ratings stay in order, the new rating goes last unless this is a retraction,
      and the count is recomputed. */
  function RatedMovie(m: Movie, username: string, score: int, now: string): Movie {
    var ratings := RatingsWithout(m.ratings, username) +
                   (if AddsRating(m, username, score) then [Rating(username, score, now)] else []);
    m.(ratings := ratings, ratingCount := |ratings|)
  }

  /** The event addRating publishes. */
  function RatingEvent(m: Movie, username: string, score: int, now: string): Option<NewestRating> {
    if AddsRating(m, username, score) then Some(NewestRating(Rating(username, score, now), m.title)) else None
  }

  lemma WithoutIsNotRatedBy(rs: seq<Rating>, username: string)
    ensures forall i :: 0 <= i < |RatingsWithout(rs, username)| ==> RatingsWithout(rs, username)[i].username != username
  {
  }

  /** Without a rating by the user, removing the user's ratings changes nothing. */
  lemma WithoutUnratedIsIdentity(rs: seq<Rating>, username: string)
    requires FindRating(rs, username).None?
    ensures RatingsWithout(rs, username) == rs
  {
    FilterKeepsAll(rs, (r: Rating) => NotRatedBy(r, username));
  }

  /** What is left after the removal holds nothing by the user. */
  lemma RatingsByAfterRemoval(rs: seq<Rating>, username: string, tail: seq<Rating>)
    ensures RatingsBy(RatingsWithout(rs, username) + tail, username) == RatingsBy(tail, username)
  {
    var without := RatingsWithout(rs, username);
    FilterConcat(without, tail, (r: Rating) => RatedBy(r, username));
    FilterKeepsNone(without, (r: Rating) => RatedBy(r, username));
  }

  /** A positive score leaves the user with exactly one rating, the new one, placed last. */
  lemma PositiveScoreReplacesTheUsersRating(m: Movie, username: string, score: int, now: string)
    requires score > 0
    ensures RatingsBy(RatedMovie(m, username, score, now).ratings, username) == [Rating(username, score, now)]
    ensures Last(RatedMovie(m, username, score, now).ratings) == Rating(username, score, now)
  {
    RatingsByAfterRemoval(m.ratings, username, [Rating(username, score, now)]);
  }

  /** A zero score on an existing rating removes the user's rating and publishes nothing. */
  lemma ZeroScoreRetracts(m: Movie, username: string, now: string)
    requires FindRating(m.ratings, username).Some?
    ensures RatingsBy(RatedMovie(m, username, 0, now).ratings, username) == []
    ensures RatingEvent(m, username, 0, now) == None
  {
    RatingsByAfterRemoval(m.ratings, username, []);
    assert RatingsBy([], username) == [];
  }

  /** A zero score from a user who has not rated is stored like any other first rating. */
  lemma FirstZeroScoreIsStored(m: Movie, username: string, now: string)
    requires FindRating(m.ratings, username).None?
    ensures RatedMovie(m, username, 0, now).ratings == m.ratings + [Rating(username, 0, now)]
    ensures RatingEvent(m, username, 0, now) == Some(NewestRating(Rating(username, 0, now), m.title))
  {
    WithoutUnratedIsIdentity(m.ratings, username);
  }

  /** The other users' ratings are the same list, in the same order, before and after. */
  lemma {:induction false} OtherUsersRatingsUntouched(m: Movie, username: string, score: int, now: string)
    ensures RatingsWithout(RatedMovie(m, username, score, now).ratings, username) == RatingsWithout(m.ratings, username)
  {
    var p := (r: Rating) => NotRatedBy(r, username);
    var added := if AddsRating(m, username, score) then [Rating(username, score, now)] else [];
    FilterConcat(RatingsWithout(m.ratings, username), added, p);
    FilterIdempotent(m.ratings, p);
    FilterKeepsNone(added, p);
  }

  /** A rating by someone new in front of distinct raters keeps them distinct. */
  lemma ConsKeepsDistinct(x: Rating, ys: seq<Rating>)
    requires DistinctRaters(ys)
    requires forall k :: 0 <= k < |ys| ==> ys[k].username != x.username
    ensures DistinctRaters([x] + ys)
  {
    var s := [x] + ys;
    assert forall k :: 1 <= k < |s| ==> s[k] == ys[k - 1];
  }

  /** The filter keeps at most one rating per user. */
  lemma {:induction false} WithoutKeepsDistinct(rs: seq<Rating>, username: string)
    requires DistinctRaters(rs)
    ensures DistinctRaters(RatingsWithout(rs, username))
  {
    if rs != [] {
      var tail := rs[1..];
      assert DistinctRaters(tail) by {
        assert forall k :: 0 <= k < |tail| ==> tail[k] == rs[k + 1];
      }
      WithoutKeepsDistinct(tail, username);
      var rest := RatingsWithout(tail, username);
      if NotRatedBy(rs[0], username) {
        assert RatingsWithout(rs, username) == [rs[0]] + rest;
        forall k | 0 <= k < |rest| ensures rest[k].username != rs[0].username {
          var j :| 0 <= j < |tail| && tail[j] == rest[k];
          assert rs[j + 1] == rest[k];
        }
        ConsKeepsDistinct(rs[0], rest);
      } else {
        assert RatingsWithout(rs, username) == rest;
      }
    }
  }

  /** Rating keeps the movie's count and its one-rating-per-user rule intact. */
  lemma RatingKeepsMovieConsistent(m: Movie, username: string, score: int, now: string)
    requires DistinctRaters(m.ratings)
    ensures RatingsConsistent(RatedMovie(m, username, score, now))
  {
    WithoutKeepsDistinct(m.ratings, username);
    WithoutIsNotRatedBy(m.ratings, username);
  }

  /** An event is published exactly when a rating was added; it carries the movie's last
      rating and title. */
  lemma EventCarriesTheNewestRating(m: Movie, username: string, score: int, now: string)
    ensures RatingEvent(m, username, score, now).Some? <==> AddsRating(m, username, score)
    ensures RatingEvent(m, username, score, now).Some? ==>
              var rated := RatedMovie(m, username, score, now);
              rated.ratings != [] &&
              RatingEvent(m, username, score, now).value == NewestRating(Last(rated.ratings), m.title)
  {
  }

  // ------------------------------------------------------------------ the store

  predicate HasTitle(m: Movie, title: string) {
    m.title == title
  }

  predicate HasId(m: Movie, id: string) {
    m.id == id
  }

  /** find({ title }): the first movie with exactly this title. */
  function FindByTitle(ms: seq<Movie>, title: string): (r: Option<nat>)
    ensures r.Some? ==> r.value < |ms| && ms[r.value].title == title
    ensures r.None? ==> forall i :: 0 <= i < |ms| ==> ms[i].title != title
  {
    FirstIndex(ms, (m: Movie) => HasTitle(m, title))
  }

  /** findById */
  function FindById(ms: seq<Movie>, id: string): (r: Option<nat>)
    ensures r.Some? ==> r.value < |ms| && ms[r.value].id == id
    ensures r.None? ==> forall i :: 0 <= i < |ms| ==> ms[i].id != id
  {
    FirstIndex(ms, (m: Movie) => HasId(m, id))
  }

  /** The document addMovie creates. */
  function NewMovie(input: AddMovieInput, caller: UserInfo, id: string, now: string): Movie {
    Movie(id, input.title, input.runtime, input.releaseDate, input.actors, now, [], 0, 0.0, caller.username, caller.id)
  }

  /** `{ ...existingMovie, ...addMovieInput }`: the input's fields over the stored ones. */
  function WithInput(m: Movie, input: AddMovieInput): Movie {
    m.(title := input.title, runtime := input.runtime, releaseDate := input.releaseDate, actors := input.actors)
  }

  /** Ids and titles are unique and present, and every movie's ratings are consistent. */
  ghost predicate CatalogInvariant(ms: seq<Movie>) {
    UniqueIds(ms) &&
    (forall i, j :: 0 <= i < j < |ms| ==> ms[i].title != ms[j].title) &&
    (forall i :: 0 <= i < |ms| ==> ms[i].id != "" && RatingsConsistent(ms[i]))
  }

  /** Adding a movie with a fresh id and a title not yet taken keeps the catalogue invariant. */
  lemma AppendKeepsCatalog(ms: seq<Movie>, m: Movie)
    requires CatalogInvariant(ms) && RatingsConsistent(m) && m.id != ""
    requires forall i :: 0 <= i < |ms| ==> ms[i].id != m.id && ms[i].title != m.title
    ensures CatalogInvariant(ms + [m])
  {
  }

  /** Replacing a movie by one with the same id and title and consistent ratings keeps the
      catalogue invariant. */
  lemma ReplaceKeepsCatalog(ms: seq<Movie>, i: nat, m: Movie)
    requires CatalogInvariant(ms) && i < |ms| && RatingsConsistent(m)
    requires m.id == ms[i].id && m.title == ms[i].title
    ensures CatalogInvariant(ms[i := m])
  {
  }

  /** Removing a movie keeps the catalogue invariant. */
  lemma RemoveKeepsCatalog(ms: seq<Movie>, i: nat)
    requires CatalogInvariant(ms) && i < |ms|
    ensures CatalogInvariant(ms[..i] + ms[i + 1..])
  {
    var rest := ms[..i] + ms[i + 1..];
    assert forall k :: 0 <= k < |rest| ==> rest[k] == ms[if k < i then k else k + 1];
  }

  /** Deleting one movie of a catalogue with unique ids removes that id and nothing else. */
  lemma DeletionRemovesOnlyThatMovie(ms: seq<Movie>, i: nat)
    requires UniqueIds(ms) && i < |ms|
    ensures forall m :: m in ms[..i] + ms[i + 1..] <==> m in ms && m.id != ms[i].id
  {
    var rest := ms[..i] + ms[i + 1..];
    forall m | m in ms && m.id != ms[i].id ensures m in rest {
      var k :| 0 <= k < |ms| && ms[k] == m;
      if k < i {
        assert rest[k] == m;
      } else {
        assert rest[k - 1] == m;
      }
    }
    forall m | m in rest ensures m in ms && m.id != ms[i].id {
      var k :| 0 <= k < |rest| && rest[k] == m;
      if k < i {
        assert ms[k] == m;
      } else {
        assert ms[k + 1] == m;
      }
    }
  }

  /** The `let` defaults of getMovies, each replaced by the argument when that is truthy. */
  method FillDefaults(params: Option<PaginationParams>) returns (pageSize: int, filterObj: FilterObj, after: string)
    ensures ListingRequest(pageSize, filterObj, after) == Effective(params)
  {
    pageSize := DEFAULT_PAGE_SIZE;
    filterObj := DEFAULT_FILTER;
    after := "";
    if params.Some? {
      var p := params.value;
      filterObj := if p.filterObj.Some? then p.filterObj.value else filterObj;
      pageSize := if p.pageSize.Some? && p.pageSize.value != 0 then p.pageSize.value else pageSize;
      after := if p.after.Some? && p.after.value != "" then p.after.value else after;
    }
  }

  /** `found.reverse()` on the array the query answered. */
  method ReversedInPlace(found: seq<Movie>) returns (all: seq<Movie>)
    ensures all == Reversed(found)
  {
    var allMovies := new Movie[|found|](i requires 0 <= i < |found| => found[i]);
    assert allMovies[..] == found;
    Reverse(allMovies);
    all := allMovies[..];
  }

  class MovieStore {
    var movies: seq<Movie>

    ghost predicate Valid()
      reads this
    {
      CatalogInvariant(movies)
    }

    constructor ()
      ensures Valid() && movies == []
    {
      movies := [];
    }

    /** getMovies: the defaults are filled in, the matches are ordered and reversed in place,
        and a page is cut after the cursor. */
    method GetMovies(auth: Result<UserInfo, AuthError>, params: Option<PaginationParams>, sortBy: SortFn)
      returns (r: Result<MoviesConnection, MovieError>)
      ensures auth.Failure? ==> r == Failure(Unauthenticated(auth.error))
      ensures auth.Success? ==> r == MoviesPage(movies, auth.value, Effective(params), sortBy)
    {
      var pageSize, filterObj, after := FillDefaults(params);
      if auth.Failure? {
        return Failure(Unauthenticated(auth.error));
      }
      var user := auth.value;
      var matched := Matching(movies, user, filterObj);
      var found := Ordered(matched, filterObj, sortBy);
      var all := ReversedInPlace(found);
      assert all == Listing(movies, user, filterObj, sortBy);
      var page := PaginateResults(after, pageSize, all);
      if page == [] {
        return Failure(EmptyPage);
      }
      var last := page[|page| - 1];
      r := Success(MoviesConnection(page, last.id, last.id != all[|all| - 1].id));
    }

    /** getMovie */
    method GetMovie(auth: Result<UserInfo, AuthError>, movieId: string) returns (r: Result<Movie, MovieError>)
      ensures auth.Failure? ==> r == Failure(Unauthenticated(auth.error))
      ensures auth.Success? ==>
                (r.Success? <==> exists i :: 0 <= i < |movies| && movies[i].id == movieId)
      ensures auth.Success? && r.Failure? ==> r.error == MovieNotFound
      ensures r.Success? ==> r.value in movies && r.value.id == movieId
    {
      if auth.Failure? {
        return Failure(Unauthenticated(auth.error));
      }
      var found := FindById(movies, movieId);
      if found.Some? {
        r := Success(movies[found.value]);
      } else {
        r := Failure(MovieNotFound);
      }
    }

    /** addMovie: create by title, or update the caller's own movie of that title.
        `newId` and `now` are the id and timestamp the store gives a new document. */
    method AddMovie(auth: Result<UserInfo, AuthError>, input: AddMovieInput, dates: DateOracle, newId: string, now: string)
      returns (r: Result<AddMovieOutcome, MovieError>)
      requires Valid()
      requires newId != "" && forall i :: 0 <= i < |movies| ==> movies[i].id != newId
      modifies this
      ensures Valid()
      ensures auth.Failure? ==> r == Failure(Unauthenticated(auth.error)) && movies == old(movies)
      ensures auth.Success? && MovieInputErrors(input, dates).KeyCount() == 1 ==>
                r == Failure(AddMovieInputErrors(MovieInputErrors(input, dates))) && movies == old(movies)
      ensures auth.Success? && MovieInputErrors(input, dates).KeyCount() != 1 ==>
                match FindByTitle(old(movies), input.title)
                case None =>
                  var m := NewMovie(input, auth.value, newId, now);
                  r == Success(Created(m)) && movies == old(movies) + [m]
                case Some(i) =>
                  if old(movies)[i].username == auth.value.username then
                    r == Success(UpdateAcknowledged) && movies == old(movies)[i := WithInput(old(movies)[i], input)]
                  else
                    r == Failure(MovieAlreadyExists) && movies == old(movies)
    {
      if auth.Failure? {
        return Failure(Unauthenticated(auth.error));
      }
      var user := auth.value;
      var v := AddMovieValidator(input, dates);
      if v.valid == 0 {
        return Failure(AddMovieInputErrors(v.errors));
      }
      var fetched := FindByTitle(movies, input.title);
      if fetched.None? {
        var newMovie := NewMovie(input, user, newId, now);
        AppendKeepsCatalog(movies, newMovie);
        movies := movies + [newMovie];
        r := Success(Created(newMovie));
      } else {
        var existingMovie := movies[fetched.value];
        if existingMovie.username == user.username {
          ReplaceKeepsCatalog(movies, fetched.value, WithInput(existingMovie, input));
          movies := movies[fetched.value := WithInput(existingMovie, input)];
          r := Success(UpdateAcknowledged);
        } else {
          r := Failure(MovieAlreadyExists);
        }
      }
    }

    /** deleteMovie: only the owner may delete; a missing movie is refused the same way. */
    method DeleteMovie(auth: Result<UserInfo, AuthError>, movieId: string) returns (r: Result<string, MovieError>)
      requires Valid()
      modifies this
      ensures Valid()
      ensures auth.Failure? ==> r == Failure(Unauthenticated(auth.error)) && movies == old(movies)
      ensures auth.Success? ==>
                match FindById(old(movies), movieId)
                case Some(i) =>
                  if old(movies)[i].username == auth.value.username then
                    r == Success(MOVIE_DELETED) && movies == old(movies)[..i] + old(movies)[i + 1..]
                  else
                    r == Failure(NotAllowed) && movies == old(movies)
                case None => r == Failure(NotAllowed) && movies == old(movies)
    {
      if auth.Failure? {
        return Failure(Unauthenticated(auth.error));
      }
      var user := auth.value;
      var found := FindById(movies, movieId);
      if found.Some? && user.username == movies[found.value].username {
        var i := found.value;
        RemoveKeepsCatalog(movies, i);
        movies := movies[..i] + movies[i + 1..];
        r := Success(MOVIE_DELETED);
      } else {
        r := Failure(NotAllowed);
      }
    }

    /** addRating: check the score, find the movie, upsert or retract the caller's rating,
        recompute the count, save, and say what to publish. */
    method AddRating(auth: Result<UserInfo, AuthError>, input: AddRatingInput, now: string)
      returns (r: Result<RatingOutcome, MovieError>)
      requires Valid()
      modifies this
      ensures Valid()
      ensures auth.Failure? ==> r == Failure(Unauthenticated(auth.error)) && movies == old(movies)
      ensures auth.Success? && !(0 <= input.score <= 5) ==> r == Failure(InvalidRatingValue) && movies == old(movies)
      ensures auth.Success? && 0 <= input.score <= 5 ==>
                match FindById(old(movies), input.movieId)
                case None => r == Failure(MovieNotFound) && movies == old(movies)
                case Some(i) =>
                  var rated := RatedMovie(old(movies)[i], auth.value.username, input.score, now);
                  movies == old(movies)[i := rated] &&
                  r == Success(RatingOutcome(rated, RatingEvent(old(movies)[i], auth.value.username, input.score, now)))
    {
      if auth.Failure? {
        return Failure(Unauthenticated(auth.error));
      }
      var user := auth.value;
      if !(input.score >= 0 && input.score <= 5) {
        return Failure(InvalidRatingValue);
      }
      var found := FindById(movies, input.movieId);
      if found.None? {
        return Failure(MovieNotFound);
      }
      var i := found.value;
      var original := movies[i];
      var movie := original;
      var existingRating := FindRating(movie.ratings, user.username);
      var newOrUpdatedRating := true;
      if existingRating.Some? {
        if input.score > 0 {
          movie := movie.(ratings := RatingsWithout(movie.ratings, user.username));
          movie := movie.(ratings := movie.ratings + [Rating(user.username, input.score, now)]);
        } else {
          newOrUpdatedRating := false;
          movie := movie.(ratings := RatingsWithout(movie.ratings, user.username));
        }
      } else {
        WithoutUnratedIsIdentity(movie.ratings, user.username);
        movie := movie.(ratings := movie.ratings + [Rating(user.username, input.score, now)]);
      }
      movie := movie.(ratingCount := |movie.ratings|);
      assert movie == RatedMovie(original, user.username, input.score, now);
      RatingKeepsMovieConsistent(original, user.username, input.score, now);
      ReplaceKeepsCatalog(movies, i, movie);
      movies := movies[i := movie];
      var published := None;
      if newOrUpdatedRating && |movie.ratings| > 0 {
        published := Some(NewestRating(movie.ratings[|movie.ratings| - 1], movie.title));
      }
      r := Success(RatingOutcome(movie, published));
    }
  }
}
