/** The review table: one row per review, held column by column as a pandas DataFrame is. */
module Reviews {
  import opened Wrappers

  /** The three sentiment labels the scorer assigns. */
  datatype Label = Positive | Negative | Neutral

  /** One generated row: `Review_ID`, `Review_Text` (possibly missing), `Rating` (possibly missing). */
  datatype Review = Review(id: int, text: Option<string>, rating: Option<int>)

  /** The DataFrame the pipeline passes from stage to stage. `clean_data` and
      `analyze_sentiment` assign its columns in place; a column not yet added is None. */
  class ReviewFrame {
    var reviewId: seq<int>
    var reviewText: seq<Option<string>>
    var rating: seq<Option<int>>
    var cleanText: Option<seq<string>>
    var sentiment: Option<seq<Label>>
    var sentimentScore: Option<seq<real>>

    /** Every column present has one entry per row. */
    ghost predicate Valid()
      reads this
    {
      && |reviewText| == |reviewId|
      && |rating| == |reviewId|
      && (cleanText.Some? ==> |cleanText.value| == |reviewId|)
      && (sentiment.Some? ==> |sentiment.value| == |reviewId|)
      && (sentimentScore.Some? ==> |sentimentScore.value| == |reviewId|)
    }

    /** `pd.DataFrame(data, columns=['Review_ID', 'Review_Text', 'Rating'])`. */
    constructor (data: seq<Review>)
      ensures Valid()
      ensures |reviewId| == |data|
      ensures forall i :: 0 <= i < |data| ==>
        reviewId[i] == data[i].id && reviewText[i] == data[i].text && rating[i] == data[i].rating
      ensures cleanText == None && sentiment == None && sentimentScore == None
    {
      reviewId := seq(|data|, i requires 0 <= i < |data| => data[i].id);
      reviewText := seq(|data|, i requires 0 <= i < |data| => data[i].text);
      rating := seq(|data|, i requires 0 <= i < |data| => data[i].rating);
      cleanText := None;
      sentiment := None;
      sentimentScore := None;
    }
  }
}
