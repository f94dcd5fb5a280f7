/** M1.py `similarity_label`: a total step function from a similarity score
    to one of five buckets. */
module Labels {

  datatype SimilarityLabel =
    | FullyIdentical
    | HighlySimilar
    | ModeratelySimilar
    | SlightlySimilar
    | DistinctContent
  {
    /** The text the report prints for the bucket. */
    function Text(): string {
      match this
      case FullyIdentical => "Fully Identical"
      case HighlySimilar => "Highly Similar"
      case ModeratelySimilar => "Moderately Similar"
      case SlightlySimilar => "Slightly Similar"
      case DistinctContent => "Distinct Content"
    }

    /** Buckets ranked from least to most similar. */
    function Rank(): nat {
      match this
      case DistinctContent => 0
      case SlightlySimilar => 1
      case ModeratelySimilar => 2
      case HighlySimilar => 3
      case FullyIdentical => 4
    }
  }

  /** The value of the literal `0.30` once Python has read it as an IEEE 754
      double: the nearest double lies just below 3/10, so a score equal to it
      already passes the `>= 0.30` test. */
  const SlightCut: real := 0.299999999999999988897769753748434595763683319091796875

  /** The cut-off at which bucket `rank` begins (rank 0 has none). 0.50 and
      0.75 are doubles exactly, and no double lies between 0.90 and the double
      nearest it, so only the first cut-off needs its double value. */
  function CutOff(rank: nat): real
    requires 1 <= rank <= 4
  {
    [SlightCut, 0.50, 0.75, 0.90][rank - 1]
  }

  /** The half-open score interval of each bucket: at or above its own
      cut-off, below the next one. Negative scores fall in the lowest bucket. */
  predicate InBucket(score: real, l: SimilarityLabel) {
    && (l.Rank() == 0 || score >= CutOff(l.Rank()))
    && (l.Rank() == 4 || score < CutOff(l.Rank() + 1))
  }

  /** M1.py:117-127. */
  function LabelOf(score: real): (l: SimilarityLabel)
    ensures InBucket(score, l)
  {
    if score >= 0.90 then FullyIdentical
    else if score >= 0.75 then HighlySimilar
    else if score >= 0.50 then ModeratelySimilar
    else if score >= SlightCut then SlightlySimilar
    else DistinctContent
  }

  /** The buckets do not overlap, so a score's bucket is exactly its label. */
  lemma LabelIffBucket(score: real, l: SimilarityLabel)
    ensures LabelOf(score) == l <==> InBucket(score, l)
  {
  }

  /** A higher score never gets a less similar label. */
  lemma LabelMonotone(s1: real, s2: real)
    requires s1 <= s2
    ensures LabelOf(s1).Rank() <= LabelOf(s2).Rank()
  {
  }

  /** The labels on both sides of each cut-off. */
  lemma LabelBoundaries()
    ensures LabelOf(0.90) == FullyIdentical && LabelOf(0.8999) == HighlySimilar
    ensures LabelOf(0.75) == HighlySimilar && LabelOf(0.7499) == ModeratelySimilar
    ensures LabelOf(0.50) == ModeratelySimilar && LabelOf(0.30) == SlightlySimilar
    ensures LabelOf(SlightCut) == SlightlySimilar && LabelOf(0.2999) == DistinctContent
    ensures LabelOf(0.0) == DistinctContent && LabelOf(-0.5) == DistinctContent
    ensures LabelOf(1.0).Text() == "Fully Identical"
  {
  }
}
