/** `analyze_sentiment` and its inner `get_sentiment`: label each `Clean_Text` from the
    analyzer's compound score. The analyzer (VADER's `polarity_scores(...)['compound']`) is
    a parameter: any function from text to a real number. */
module Sentiment {
  import opened Wrappers
  import opened Reviews

  /** What `get_sentiment` returns: the label and the compound score it was derived from. */
  datatype Scored = Scored(sentiment: Label, score: real)

  /** `get_sentiment(text)`: Positive from 0.05 up, Negative from -0.05 down, Neutral between. */
  function GetSentiment(compound: string -> real, text: string): (r: Scored)
    ensures r.score == compound(text)
    ensures r.sentiment == Positive <==> r.score >= 0.05
    ensures r.sentiment == Negative <==> r.score <= -0.05
    ensures r.sentiment == Neutral <==> -0.05 < r.score < 0.05
  {
    var c := compound(text);
    if c >= 0.05 then Scored(Positive, c)
    else if c <= -0.05 then Scored(Negative, c)
    else Scored(Neutral, c)
  }

  /** Negative < Neutral < Positive. */
  function Rank(l: Label): int {
    match l
    case Negative => 0
    case Neutral => 1
    case Positive => 2
  }

  /** A higher score never gets a lower label. */
  lemma LabelMonotone(compound: string -> real, a: string, b: string)
    requires compound(a) <= compound(b)
    ensures Rank(GetSentiment(compound, a).sentiment) <= Rank(GetSentiment(compound, b).sentiment)
  {
  }

  /** `analyze_sentiment(df)`: adds `Sentiment` and `Sentiment_Score`, one entry per row, each
      computed from that row's `Clean_Text` alone; every other column is left as it was. */
  method AnalyzeSentiment(df: ReviewFrame, compound: string -> real)
    requires df.Valid() && df.cleanText.Some?
    modifies df
    ensures df.Valid()
    ensures df.reviewId == old(df.reviewId) && df.reviewText == old(df.reviewText)
    ensures df.rating == old(df.rating) && df.cleanText == old(df.cleanText)
    ensures df.sentiment.Some? && df.sentimentScore.Some?
    ensures forall i :: 0 <= i < |df.reviewId| ==>
      var r := GetSentiment(compound, df.cleanText.value[i]);
      df.sentiment.value[i] == r.sentiment && df.sentimentScore.value[i] == r.score
  {
    var texts := df.cleanText.value;
    var scored := seq(|texts|, i requires 0 <= i < |texts| => GetSentiment(compound, texts[i]));
    df.sentiment := Some(seq(|scored|, i requires 0 <= i < |scored| => scored[i].sentiment));
    df.sentimentScore := Some(seq(|scored|, i requires 0 <= i < |scored| => scored[i].score));
  }
}
