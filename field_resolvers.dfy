/** The Movie field resolvers of src/resolvers/index.ts: ratingCount is computed from the
    ratings list on every read, and avg from the loop over the ratings. The loop assigns
    each score instead of adding it, so avg is the LAST score divided by the stored count. */
module FieldResolvers {
  import opened Models
  import Movies

  /** The resolved ratingCount: the length of the ratings list, whatever is stored. */
  function RatingCount(m: Movie): nat {
    |m.ratings|
  }

  /** The stored ratingCount is not consulted: only the ratings list decides the count. */
  lemma RatingCountIgnoresStoredField(m: Movie, stored: int)
    ensures RatingCount(m.(ratingCount := stored)) == RatingCount(m)
    ensures RatingCount(m) == 0 <==> m.ratings == []
  {
  }

  /** After addRating, the resolved count and the stored one agree. */
  lemma ResolvedCountMatchesStoredAfterRating(m: Movie, username: string, score: int, now: string)
    ensures var rated := Movies.RatedMovie(m, username, score, now);
            RatingCount(rated) == rated.ratingCount
  {
  }

  /** The value the avg resolver answers: 0 when the stored count is not positive; otherwise
      the score of the last rating (0 when there is none) over the stored count. */
  function AvgOf(m: Movie): real {
    if m.ratingCount <= 0 then 0.0
    else (if m.ratings == [] then 0.0 else (m.ratings[|m.ratings| - 1].score as real)) / (m.ratingCount as real)
  }

  /** The avg resolver, with its loop. */
  method Avg(m: Movie) returns (avg: real)
    ensures avg == AvgOf(m)
  {
    var sum := 0;
    if m.ratingCount > 0 {
      for i := 0 to |m.ratings|
        invariant sum == if i == 0 then 0 else m.ratings[i - 1].score
      {
        sum := m.ratings[i].score;
      }
      return (sum as real) / (m.ratingCount as real);
    } else {
      return 0.0;
    }
  }

  function SumOfScores(rs: seq<Rating>): int {
    if rs == [] then 0 else rs[0].score + SumOfScores(rs[1..])
  }

  /** The arithmetic mean of the scores, which a reader of the field name would expect. */
  function MeanScore(rs: seq<Rating>): real {
    if rs == [] then 0.0 else (SumOfScores(rs) as real) / (|rs| as real)
  }

  /** Two movies that agree on the stored count and on the last rating have the same avg:
      every earlier score is ignored. */
  lemma AvgIgnoresEarlierScores(m: Movie, n: Movie)
    requires m.ratingCount == n.ratingCount
    requires m.ratings != [] && n.ratings != []
    requires m.ratings[|m.ratings| - 1].score == n.ratings[|n.ratings| - 1].score
    ensures AvgOf(m) == AvgOf(n)
  {
  }

  /** Ratings of 5 and then 1 give an avg of 0.5 where the mean is 3. */
  lemma AvgIsNotTheMean(m: Movie)
    requires m.ratings == [Rating("a", 5, ""), Rating("b", 1, "")] && m.ratingCount == 2
    ensures AvgOf(m) == 0.5
    ensures MeanScore(m.ratings) == 3.0
  {
    assert SumOfScores(m.ratings) == 5 + SumOfScores(m.ratings[1..]);
    assert SumOfScores(m.ratings[1..]) == 1 + SumOfScores(m.ratings[2..]);
  }

  lemma {:induction false} SumOfEqualScores(rs: seq<Rating>, c: int)
    requires forall i :: 0 <= i < |rs| ==> rs[i].score == c
    ensures SumOfScores(rs) == |rs| * c
  {
    if rs != [] {
      SumOfEqualScores(rs[1..], c);
    }
  }

  /** With one score c repeated over a list whose length is the stored count, the mean is c
      while avg is c over the count: the two agree, for a score that is not 0, exactly
      when there is one rating. */
  lemma AvgIsTheMeanOnlyForOneRating(m: Movie, c: int)
    requires m.ratings != [] && m.ratingCount == |m.ratings|
    requires forall i :: 0 <= i < |m.ratings| ==> m.ratings[i].score == c
    requires c != 0
    ensures MeanScore(m.ratings) == c as real
    ensures AvgOf(m) == (c as real) / (|m.ratings| as real)
    ensures AvgOf(m) == MeanScore(m.ratings) <==> |m.ratings| == 1
  {
    SumOfEqualScores(m.ratings, c);
    var n := |m.ratings| as real;
    var x := c as real;
    assert (SumOfScores(m.ratings) as real) == n * x;
    assert MeanScore(m.ratings) == (n * x) / n;
    assert (n * x) / n == x;
    if x / n == x {
      assert x == x * n;
      assert x * (n - 1.0) == 0.0;
    }
  }
}
