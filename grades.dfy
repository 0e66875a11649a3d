/**
 * One grade as the parent dashboard holds it (the GradeItem record), the
 * tooltip shown on its badge, and the per-subject average printed on the
 * subject card.
 */
module Grades {
  import opened Wrappers

  /** A single grade: its integer score and the teacher's comment, which may be NULL. */
  datatype GradeItem = GradeItem(score: int, comment: Option<string>)

  /** The tooltip text used when a grade carries no comment. */
  const NO_COMMENT: string := "No comment"

  /**
   * The tooltip of a grade badge: the comment when there is one, otherwise
   * the fixed text. An empty tooltip only ever comes from a comment that is
   * present but empty.
   */
  function Tooltip(g: GradeItem): (t: string)
    ensures g.comment.Some? ==> t == g.comment.value
    ensures g.comment.None? ==> t == NO_COMMENT
    ensures t == [] <==> g.comment == Some([])
  {
    match g.comment
    case Some(c) => c
    case None => NO_COMMENT
  }

  /** The sum of the scores of a list of grades: 0 for none, the score itself for one. */
  function ScoreSum(grades: seq<GradeItem>): (sum: int)
    ensures grades == [] ==> sum == 0
    ensures |grades| == 1 ==> sum == grades[0].score
  {
    if grades == [] then 0 else grades[0].score + ScoreSum(grades[1..])
  }

  /**
   * The sum of two lists put together is the sum of their sums, so summing
   * from the front agrees with the stream's running total from the left.
   */
  lemma {:induction false} ScoreSumAppend(a: seq<GradeItem>, b: seq<GradeItem>)
    ensures ScoreSum(a + b) == ScoreSum(a) + ScoreSum(b)
  {
    if a == [] {
      assert a + b == b;
    } else {
      assert (a + b)[1..] == a[1..] + b;
      ScoreSumAppend(a[1..], b);
    }
  }

  /**
   * The average shown on a subject card: the arithmetic mean of the scores,
   * taken exactly, and 0 for a list with no grades.
   */
  function Average(grades: seq<GradeItem>): (avg: real)
    ensures grades == [] ==> avg == 0.0
    ensures grades != [] ==> avg * (|grades| as real) == ScoreSum(grades) as real
  {
    if grades == [] then 0.0 else ScoreSum(grades) as real / (|grades| as real)
  }

  /** Every score of the list lies between lo and hi. */
  predicate ScoresWithin(grades: seq<GradeItem>, lo: int, hi: int)
  {
    forall i :: 0 <= i < |grades| ==> lo <= grades[i].score <= hi
  }

  /** A sum of n scores that each lie in [lo, hi] lies in [n * lo, n * hi]. */
  lemma {:induction false} ScoreSumBounds(grades: seq<GradeItem>, lo: int, hi: int)
    requires ScoresWithin(grades, lo, hi)
    ensures |grades| * lo <= ScoreSum(grades) <= |grades| * hi
  {
    if grades != [] {
      var n := |grades| - 1;
      ScoreSumBounds(grades[1..], lo, hi);
      assert lo <= grades[0].score <= hi;
      assert |grades| * lo == lo + n * lo && |grades| * hi == hi + n * hi;
    }
  }

  /**
   * The average of a non-empty list lies between any bounds on its scores:
   * in particular it never leaves the range of the scores it averages.
   */
  lemma AverageWithin(grades: seq<GradeItem>, lo: int, hi: int)
    requires grades != []
    requires ScoresWithin(grades, lo, hi)
    ensures lo as real <= Average(grades) <= hi as real
  {
    ScoreSumBounds(grades, lo, hi);
    IntMeanWithin(|grades|, ScoreSum(grades), Average(grades), lo, hi);
  }

  /** The integer form of MeanWithin: bounds on an integer sum bound its exact mean. */
  lemma IntMeanWithin(n: int, sum: int, avg: real, lo: int, hi: int)
    requires n > 0
    requires avg * (n as real) == sum as real
    requires n * lo <= sum <= n * hi
    ensures lo as real <= avg <= hi as real
  {
    CastMul(n, lo);
    CastMul(n, hi);
    MeanWithin(n as real, sum as real, avg, lo as real, hi as real);
  }

  lemma CastMul(a: int, b: int)
    ensures (a * b) as real == (a as real) * (b as real)
  {
  }

  /** A mean of values bounded by lo and hi is bounded by lo and hi. */
  lemma MeanWithin(n: real, sum: real, avg: real, lo: real, hi: real)
    requires n > 0.0
    requires avg * n == sum
    requires n * lo <= sum <= n * hi
    ensures lo <= avg <= hi
  {
  }
}
