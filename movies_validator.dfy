/** addMovieValidator (src/resolvers/Movies/moviesValidator.ts): a field-to-message record
    filled by four independent checks, and a `valid` number derived from how many keys it has. */
module MoviesValidator {
  import opened Wrappers
  import opened JsString
  import opened Models

  /** The error record; a field is Some exactly when the key was set. */
  datatype AddMovieValidationError = AddMovieValidationError(
    title: Option<string>,
    actors: Option<string>,
    releaseDate: Option<string>,
    duration: Option<string>)
  {
    /** Object.keys(errors).length */
    function KeyCount(): nat {
      (if title.Some? then 1 else 0) + (if actors.Some? then 1 else 0) +
      (if releaseDate.Some? then 1 else 0) + (if duration.Some? then 1 else 0)
    }
  }

  const NO_ERRORS := AddMovieValidationError(None, None, None, None)

  /** What the validator returns: the record and `valid`, which is a number, not a flag. */
  datatype AddMovieValidation = AddMovieValidation(errors: AddMovieValidationError, valid: int)

  /** The two questions put to the date library: does the string parse as strict ISO 8601,
      and is the date it denotes later than the current instant. */
  datatype DateOracle = DateOracle(isStrictIso8601: string -> bool, isAfterNow: string -> bool)

  const TITLE_EMPTY := "Title must not be empty"
  const ACTORS_REQUIRED := "Movie requires actors"
  const DUPLICATE_ACTORS := "Duplicate actors in cast"
  const RELEASE_DATE_EMPTY := "Release date must not be empty"
  const RELEASE_DATE_AFTER_TODAY := "Release date must be before today"
  const RELEASE_DATE_INVALID := "Release date must be a valid date"
  const DURATION_MISSING := "Movie must have a duration"

  /** Some name appears twice in the cast. */
  predicate HasDuplicate(actors: seq<string>) {
    exists i, j :: 0 <= i < j < |actors| && actors[i] == actors[j]
  }

  /** JavaScript's falsiness for the optional number `duration`: absent or zero. */
  predicate IsFalsy(n: Option<int>) {
    n.None? || n.value == 0
  }

  /** The error record for an input, as the four checks leave it. Each key depends on its own
      field alone; the cast check can only ever say that actors are required. */
  function MovieInputErrors(input: AddMovieInput, dates: DateOracle): (e: AddMovieValidationError)
    ensures e.title == if Blank(input.title) then Some(TITLE_EMPTY) else None
    ensures e.actors == if input.actors == [] then Some(ACTORS_REQUIRED) else None
    ensures Blank(input.releaseDate) ==> e.releaseDate == Some(RELEASE_DATE_EMPTY)
    ensures !Blank(input.releaseDate) && !dates.isStrictIso8601(input.releaseDate) ==>
              e.releaseDate == Some(RELEASE_DATE_INVALID)
    ensures !Blank(input.releaseDate) && dates.isStrictIso8601(input.releaseDate) ==>
              e.releaseDate == if dates.isAfterNow(input.releaseDate) then Some(RELEASE_DATE_AFTER_TODAY) else None
    ensures e.duration.Some? <==> IsFalsy(input.duration)
    ensures e.duration.Some? ==> e.duration.value == DURATION_MISSING
  {
    TrimIsEmptyIffBlank(input.title);
    TrimIsEmptyIffBlank(input.releaseDate);
    var actors := input.actors;
    var date := input.releaseDate;
    AddMovieValidationError(
      title := if Trim(input.title) == "" then Some(TITLE_EMPTY) else None,
      actors :=
        if |actors| < 1 then
          (if |actors| > 1 && HasDuplicate(actors) then Some(DUPLICATE_ACTORS) else Some(ACTORS_REQUIRED))
        else None,
      releaseDate :=
        if Trim(date) == "" then Some(RELEASE_DATE_EMPTY)
        else if dates.isStrictIso8601(date) then
          (if dates.isAfterNow(date) then Some(RELEASE_DATE_AFTER_TODAY) else None)
        else Some(RELEASE_DATE_INVALID),
      duration := if IsFalsy(input.duration) then Some(DURATION_MISSING) else None)
  }

  /** addMovieValidator, check by check. */
  method AddMovieValidator(input: AddMovieInput, dates: DateOracle) returns (r: AddMovieValidation)
    ensures r.errors == MovieInputErrors(input, dates)
    ensures r.valid == r.errors.KeyCount() - 1
  {
    var errors := NO_ERRORS;
    if Trim(input.title) == "" {
      errors := errors.(title := Some(TITLE_EMPTY));
    }
    if |input.actors| < 1 {
      errors := errors.(actors := Some(ACTORS_REQUIRED));
      if |input.actors| > 1 {
        var hasDuplicate := HasDuplicate(input.actors);
        if hasDuplicate {
          errors := errors.(actors := Some(DUPLICATE_ACTORS));
        }
      }
    }
    if Trim(input.releaseDate) == "" {
      errors := errors.(releaseDate := Some(RELEASE_DATE_EMPTY));
    } else {
      var validIsoDate := dates.isStrictIso8601(input.releaseDate);
      if validIsoDate {
        if dates.isAfterNow(input.releaseDate) {
          errors := errors.(releaseDate := Some(RELEASE_DATE_AFTER_TODAY));
        }
      } else {
        errors := errors.(releaseDate := Some(RELEASE_DATE_INVALID));
      }
    }
    if IsFalsy(input.duration) {
      errors := errors.(duration := Some(DURATION_MISSING));
    }
    r := AddMovieValidation(errors, errors.KeyCount() - 1);
  }

  /** An input with no problem at all gets `valid == -1`, which JavaScript treats as true. */
  lemma FlawlessInputIsAccepted(input: AddMovieInput, dates: DateOracle)
    requires !Blank(input.title) && input.actors != [] && !IsFalsy(input.duration)
    requires !Blank(input.releaseDate) && dates.isStrictIso8601(input.releaseDate) && !dates.isAfterNow(input.releaseDate)
    ensures MovieInputErrors(input, dates) == NO_ERRORS
    ensures MovieInputErrors(input, dates).KeyCount() - 1 == -1
  {
  }

  /** Two problems give `valid == 1`, also true: only a single problem makes `valid` falsy. */
  lemma BlankTitleAndNoActorsIsAccepted(input: AddMovieInput, dates: DateOracle)
    requires Blank(input.title) && input.actors == [] && !IsFalsy(input.duration)
    requires !Blank(input.releaseDate) && dates.isStrictIso8601(input.releaseDate) && !dates.isAfterNow(input.releaseDate)
    ensures MovieInputErrors(input, dates).KeyCount() - 1 == 1
  {
  }

  /** A well-formed input without `duration` (the schema sends `runtime` instead) has exactly
      one problem, so `valid` is 0 and the input is refused. */
  lemma MissingDurationAloneIsRefused(input: AddMovieInput, dates: DateOracle)
    requires !Blank(input.title) && input.actors != [] && input.duration.None?
    requires !Blank(input.releaseDate) && dates.isStrictIso8601(input.releaseDate) && !dates.isAfterNow(input.releaseDate)
    ensures MovieInputErrors(input, dates) == NO_ERRORS.(duration := Some(DURATION_MISSING))
    ensures MovieInputErrors(input, dates).KeyCount() - 1 == 0
  {
  }

  /** A cast with a repeated name passes the actors check. */
  lemma DuplicateCastPasses(input: AddMovieInput, dates: DateOracle)
    requires HasDuplicate(input.actors)
    ensures MovieInputErrors(input, dates).actors.None?
  {
  }
}
