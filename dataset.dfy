/** `generate_dataset`: synthetic reviews with injected noise. Every random draw the code
    makes for a row is an explicit input here (a `Draw`): the index picked from the rating
    list, the template and each filler, and the two coin flips for the typo and for the
    missing value. */
module Dataset {
  import opened Wrappers
  import opened Strings
  import opened Reviews
  import opened Cleaning

  /** The `str.format` placeholders of the templates. */
  datatype Slot = ProductSlot | FeatureSlot | DefectSlot | TimePeriodSlot

  /** A template is literal text interleaved with placeholders. */
  datatype Piece = Lit(text: string) | Hole(slot: Slot)
  type Template = seq<Piece>

  const PositiveTemplates: seq<Template> := [
    [Lit("Amazing "), Hole(ProductSlot), Lit("! Battery lasts all day and performance is incredible.")],
    [Lit("Best "), Hole(ProductSlot), Lit(" I've ever owned. Fast, reliable, and great value.")],
    [Lit("Excellent build quality. The "), Hole(FeatureSlot), Lit(" feature is outstanding!")]
  ]

  const NegativeTemplates: seq<Template> := [
    [Lit("Terrible "), Hole(ProductSlot), Lit(". Battery dies quickly and constantly crashes.")],
    [Lit("Worst purchase ever! "), Hole(ProductSlot), Lit(" broke after just "), Hole(TimePeriodSlot), Lit(".")],
    [Lit("Poor quality control. Multiple defects including "), Hole(DefectSlot), Lit(".")]
  ]

  const NeutralTemplates: seq<Template> := [
    [Lit("Decent "), Hole(ProductSlot), Lit(" for the price. Nothing special but works okay.")],
    [Lit("Average performance. Some good features but also some issues.")],
    [Lit("It's fine I guess. Does what it's supposed to do.")]
  ]

  const Products: seq<string> := ["smartphone", "laptop", "tablet", "smartwatch", "headphones"]
  const Features: seq<string> := ["camera", "display", "audio", "connectivity", "design"]
  const Defects: seq<string> := ["screen bleeding", "button sticking", "charging issues"]
  const TimePeriods: seq<string> := ["one week", "two days", "a month"]

  /** The lists `generate_dataset` picks from: the three template pools and the four filler
      lists. */
  datatype Vocabulary = Vocabulary(positive: seq<Template>, negative: seq<Template>,
                                   neutral: seq<Template>, products: seq<string>,
                                   features: seq<string>, defects: seq<string>,
                                   timePeriods: seq<string>)

  /** The lists as the generator defines them. */
  const Source: Vocabulary := Vocabulary(PositiveTemplates, NegativeTemplates, NeutralTemplates,
                                         Products, Features, Defects, TimePeriods)

  /** The values `np.random.choice` picks the rating from. */
  const RatingValues: seq<int> := [1, 2, 3, 4, 5]

  /** The draws behind one row: indices into the rating list, the template pool and the four
      filler lists, then `random.random() < 0.2` (typo) and `random.random() < 0.08` (missing). */
  datatype Draw = Draw(rating: nat, template: nat, product: nat, feature: nat, defect: nat,
                       timePeriod: nat, typo: bool, missing: bool)

  /** The pool a rating draws its template from: positive from 4 up, negative up to 2,
      neutral otherwise. */
  function TemplatesFor(v: Vocabulary, rating: int): seq<Template> {
    if rating >= 4 then v.positive
    else if rating <= 2 then v.negative
    else v.neutral
  }

  /** `random.choice` and `np.random.choice` only return elements of their list. */
  predicate ValidDraw(v: Vocabulary, d: Draw) {
    && d.rating < |RatingValues|
    && d.template < |TemplatesFor(v, RatingValues[d.rating])|
    && d.product < |v.products|
    && d.feature < |v.features|
    && d.defect < |v.defects|
    && d.timePeriod < |v.timePeriods|
  }

  /** The value `format` puts in a placeholder. */
  function SlotValue(v: Vocabulary, slot: Slot, d: Draw): string
    requires ValidDraw(v, d)
  {
    match slot
    case ProductSlot => v.products[d.product]
    case FeatureSlot => v.features[d.feature]
    case DefectSlot => v.defects[d.defect]
    case TimePeriodSlot => v.timePeriods[d.timePeriod]
  }

  /** `template.format(product=..., feature=..., defect=..., time_period=...)`. */
  function Fill(v: Vocabulary, t: Template, d: Draw): string
    requires ValidDraw(v, d)
    decreases |t|
  {
    if |t| == 0 then ""
    else
      (match t[0] case Lit(s) => s case Hole(slot) => SlotValue(v, slot, d)) + Fill(v, t[1..], d)
  }

  /** `format` fills a template piece by piece, left to right: filling a concatenation of
      templates concatenates the fillings. */
  lemma {:induction false} FillAppend(v: Vocabulary, t1: Template, t2: Template, d: Draw)
    requires ValidDraw(v, d)
    ensures Fill(v, t1 + t2, d) == Fill(v, t1, d) + Fill(v, t2, d)
    decreases |t1|
  {
    if |t1| == 0 {
      assert t1 + t2 == t2;
    } else {
      var first := match t1[0] case Lit(s) => s case Hole(slot) => SlotValue(v, slot, d);
      assert (t1 + t2)[0] == t1[0];
      assert (t1 + t2)[1..] == t1[1..] + t2;
      FillAppend(v, t1[1..], t2, d);
      assert Fill(v, t1 + t2, d) == first + (Fill(v, t1[1..], d) + Fill(v, t2, d));
    }
  }

  /** `review_text.replace('the', 'teh').replace('great', 'gerat')`. */
  function InjectTypos(text: string): string {
    ReplaceAll(ReplaceAll(text, "the", "teh"), "great", "gerat")
  }

  /** The text a draw produces before the missing-value draw: the filled template, with the
      typos injected when the typo draw fired. */
  function DrawnText(v: Vocabulary, d: Draw): string
    requires ValidDraw(v, d)
  {
    var body := Fill(v, TemplatesFor(v, RatingValues[d.rating])[d.template], d);
    if d.typo then InjectTypos(body) else body
  }

  /** The row for id `id`. The typo draw is applied first; a missing draw then discards the
      text whichever way the typo draw went. */
  function MakeReview(v: Vocabulary, id: int, d: Draw): (r: Review)
    requires ValidDraw(v, d)
    ensures r.id == id
    ensures r.rating.Some? && r.rating.value in RatingValues && 1 <= r.rating.value <= 5
    ensures r.text.None? <==> d.missing
    ensures r.text.Some? ==> r.text.value == DrawnText(v, d)
  {
    Review(id, if d.missing then None else Some(DrawnText(v, d)), Some(RatingValues[d.rating]))
  }

  /** The loop of `generate_dataset(n)`: `for i in range(1, n + 1)` appends row i, built from
      the i-th draw. No rows come out when n <= 0. */
  method GenerateRows(v: Vocabulary, n: int, draws: seq<Draw>) returns (data: seq<Review>)
    requires n <= |draws|
    requires forall k :: 0 <= k < n ==> ValidDraw(v, draws[k])
    ensures |data| == if n > 0 then n else 0
    ensures forall k :: 0 <= k < |data| ==> data[k] == MakeReview(v, k + 1, draws[k])
  {
    data := [];
    var i := 1;
    while i <= n
      invariant 1 <= i <= if n > 0 then n + 1 else 1
      invariant |data| == i - 1
      invariant forall k :: 0 <= k < |data| ==> data[k] == MakeReview(v, k + 1, draws[k])
    {
      data := data + [MakeReview(v, i, draws[i - 1])];
      i := i + 1;
    }
  }

  /** `generate_dataset(n)`: the rows, as a fresh table, with ids 1..n, ratings in 1..5 and
      a text missing exactly where its draw says so. */
  method GenerateDataset(n: int, draws: seq<Draw>) returns (df: ReviewFrame)
    requires n <= |draws|
    requires forall k :: 0 <= k < n ==> ValidDraw(Source, draws[k])
    ensures fresh(df) && df.Valid()
    ensures |df.reviewId| == if n > 0 then n else 0
    ensures forall k :: 0 <= k < |df.reviewId| ==>
      df.reviewId[k] == k + 1 && df.rating[k].Some? && 1 <= df.rating[k].value <= 5
      && (df.reviewText[k].None? <==> draws[k].missing)
    ensures forall k :: 0 <= k < |df.reviewId| ==>
      var r := MakeReview(Source, k + 1, draws[k]);
      df.reviewText[k] == r.text && df.rating[k] == r.rating
    ensures df.cleanText == None && df.sentiment == None && df.sentimentScore == None
  {
    var data := GenerateRows(Source, n, draws);
    df := new ReviewFrame(data);
  }

  // ---------------------------------------------------------------------------
  // The noise the generator injects is the noise the cleaner repairs

  lemma SuffixHasNoTypos(t: string, j: nat)
    requires j <= |t| && !Contains(t, "teh") && !Contains(t, "gerat")
    ensures !Contains(t[j..], "teh") && !Contains(t[j..], "gerat")
  {
    assert t == t[..j] + t[j..];
    if Contains(t[j..], "teh") {
      ContainsSuffix(t[..j], t[j..], "teh");
      assert false;
    }
    if Contains(t[j..], "gerat") {
      ContainsSuffix(t[..j], t[j..], "gerat");
      assert false;
    }
  }

  /** A leading `the` becomes `teh` and is turned back. */
  lemma RepairStepThe(s: string)
    requires FixTypos(InjectTypos(s)) == s
    ensures FixTypos(InjectTypos("the" + s)) == "the" + s
  {
    ReplaceAllHit("the", s, "teh");
    var u := ReplaceAll(s, "the", "teh");
    ReplaceAllCopyPrefix("teh", u, "great", "gerat");
    var y := ReplaceAll(u, "great", "gerat");
    ReplaceAllHit("teh", y, "the");
    var v := ReplaceAll(y, "teh", "the");
    ReplaceAllCopyPrefix("the", v, "gerat", "great");
  }

  lemma InjectTheInGreathe(s: string)
    ensures ReplaceAll("greathe" + s, "the", "teh") == "greateh" + ReplaceAll(s, "the", "teh")
  {
    assert "greathe" + s == "grea" + ("the" + s);
    ReplaceAllCopyPrefix("grea", "the" + s, "the", "teh");
    ReplaceAllHit("the", s, "teh");
    assert "grea" + ("teh" + ReplaceAll(s, "the", "teh")) == "greateh" + ReplaceAll(s, "the", "teh");
  }

  lemma InjectGreatInGreateh(u: string)
    ensures ReplaceAll("greateh" + u, "great", "gerat") == "gerateh" + ReplaceAll(u, "great", "gerat")
  {
    assert "greateh" + u == "great" + ("eh" + u);
    ReplaceAllHit("great", "eh" + u, "gerat");
    ReplaceAllCopyPrefix("eh", u, "great", "gerat");
    assert "gerat" + ("eh" + ReplaceAll(u, "great", "gerat")) == "gerateh" + ReplaceAll(u, "great", "gerat");
  }

  lemma FixTehInGerateh(y: string)
    ensures ReplaceAll("gerateh" + y, "teh", "the") == "gerathe" + ReplaceAll(y, "teh", "the")
  {
    assert "gerateh" + y == "gera" + ("teh" + y);
    ReplaceAllCopyPrefix("gera", "teh" + y, "teh", "the");
    ReplaceAllHit("teh", y, "the");
    assert "gera" + ("the" + ReplaceAll(y, "teh", "the")) == "gerathe" + ReplaceAll(y, "teh", "the");
  }

  lemma FixGeratInGerathe(v: string)
    ensures ReplaceAll("gerathe" + v, "gerat", "great") == "greathe" + ReplaceAll(v, "gerat", "great")
  {
    assert "gerathe" + v == "gerat" + ("he" + v);
    ReplaceAllHit("gerat", "he" + v, "great");
    ReplaceAllCopyPrefix("he", v, "gerat", "great");
    assert "great" + ("he" + ReplaceAll(v, "gerat", "great")) == "greathe" + ReplaceAll(v, "gerat", "great");
  }

  /** A leading `greathe` holds both typos, overlapping in its `t`, and both are turned back. */
  lemma RepairStepGreatThe(s: string)
    requires FixTypos(InjectTypos(s)) == s
    ensures FixTypos(InjectTypos("greathe" + s)) == "greathe" + s
  {
    InjectTheInGreathe(s);
    var u := ReplaceAll(s, "the", "teh");
    InjectGreatInGreateh(u);
    var y := ReplaceAll(u, "great", "gerat");
    FixTehInGerateh(y);
    FixGeratInGerathe(ReplaceAll(y, "teh", "the"));
  }

  lemma InjectTheInGreat(s: string)
    requires !StartsWith(s, "he")
    ensures ReplaceAll("great" + s, "the", "teh") == "great" + ReplaceAll(s, "the", "teh")
  {
    assert "great" + s == "grea" + (['t'] + s);
    ReplaceAllCopyPrefix("grea", ['t'] + s, "the", "teh");
    StartsWithCons('t', s, "the");
    ReplaceAllCopy('t', s, "the", "teh");
    assert "grea" + (['t'] + ReplaceAll(s, "the", "teh")) == "great" + ReplaceAll(s, "the", "teh");
  }

  lemma FixTehInGerat(y: string)
    requires !StartsWith(y, "eh")
    ensures ReplaceAll("gerat" + y, "teh", "the") == "gerat" + ReplaceAll(y, "teh", "the")
  {
    assert "gerat" + y == "gera" + (['t'] + y);
    ReplaceAllCopyPrefix("gera", ['t'] + y, "teh", "the");
    StartsWithCons('t', y, "teh");
    ReplaceAllCopy('t', y, "teh", "the");
    assert "gera" + (['t'] + ReplaceAll(y, "teh", "the")) == "gerat" + ReplaceAll(y, "teh", "the");
  }

  /** A leading `great` not followed by `he` (nor, as the text has no `teh`, by `eh`)
      becomes `gerat` and is turned back. */
  lemma RepairStepGreat(s: string)
    requires FixTypos(InjectTypos(s)) == s
    requires !StartsWith(s, "he") && !StartsWith(s, "eh")
    ensures FixTypos(InjectTypos("great" + s)) == "great" + s
  {
    InjectTheInGreat(s);
    var u := ReplaceAll(s, "the", "teh");
    ReplaceAllHit("great", u, "gerat");
    var y := ReplaceAll(u, "great", "gerat");
    if StartsWith(y, "eh") {
      ReplacedPrefix(u, "great", "gerat", "eh");
      ReplacedPrefix(s, "the", "teh", "eh");
      assert false;
    }
    FixTehInGerat(y);
    ReplaceAllHit("gerat", ReplaceAll(y, "teh", "the"), "great");
  }

  /** A leading character that begins none of the four patterns passes all four
      replacements unchanged. */
  lemma RepairStepOther(c: char, s: string)
    requires FixTypos(InjectTypos(s)) == s
    requires !StartsWith([c] + s, "the") && !StartsWith([c] + s, "great")
    requires !StartsWith([c] + s, "teh") && !StartsWith([c] + s, "gerat")
    ensures FixTypos(InjectTypos([c] + s)) == [c] + s
  {
    ReplaceAllCopy(c, s, "the", "teh");
    var u := ReplaceAll(s, "the", "teh");
    StartsWithCons(c, u, "great");
    StartsWithCons(c, s, "great");
    if c == 'g' && StartsWith(u, "reat") {
      ReplacedPrefixSameHead(s, "the", "teh", "reat");
      assert false;
    }
    ReplaceAllCopy(c, u, "great", "gerat");
    var y := ReplaceAll(u, "great", "gerat");
    StartsWithCons(c, y, "teh");
    StartsWithCons(c, s, "teh");
    if c == 't' && StartsWith(y, "eh") {
      ReplacedPrefix(u, "great", "gerat", "eh");
      ReplacedPrefix(s, "the", "teh", "eh");
      assert false;
    }
    ReplaceAllCopy(c, y, "teh", "the");
    var v := ReplaceAll(y, "teh", "the");
    StartsWithCons(c, v, "gerat");
    StartsWithCons(c, s, "gerat");
    if c == 'g' && StartsWith(v, "erat") {
      ReplacedPrefixSameHead(y, "teh", "the", "erat");
      ReplacedPrefix(u, "great", "gerat", "erat");
      ReplacedPrefixSameHead(s, "the", "teh", "erat");
      assert false;
    }
    ReplaceAllCopy(c, v, "gerat", "great");
  }

  /** For a text that has neither typo of its own, `clean_data`'s two replacements exactly
      undo the two the generator applies. */
  lemma {:induction false} RepairUndoesTypos(t: string)
    requires !Contains(t, "teh") && !Contains(t, "gerat")
    ensures FixTypos(InjectTypos(t)) == t
    decreases |t|
  {
    if |t| == 0 {
    } else if StartsWith(t, "the") {
      assert t == "the" + t[3..];
      SuffixHasNoTypos(t, 3);
      RepairUndoesTypos(t[3..]);
      RepairStepThe(t[3..]);
    } else if StartsWith(t, "great") && StartsWith(t[5..], "he") {
      assert |t| >= 7 && t[..5] == "great" && t[5..][..2] == "he";
      assert t[..7] == t[..5] + t[5..][..2] == "greathe";
      assert t == "greathe" + t[7..];
      SuffixHasNoTypos(t, 7);
      RepairUndoesTypos(t[7..]);
      RepairStepGreatThe(t[7..]);
    } else if StartsWith(t, "great") {
      var s := t[5..];
      assert |t| >= 5 && t[..5] == "great";
      assert t == t[..5] + s;
      if StartsWith(s, "eh") {
        assert t[4..] == ['t'] + s;
        StartsWithCons('t', s, "teh");
        ContainsAt(t, 4, "teh");
        assert false;
      }
      SuffixHasNoTypos(t, 5);
      RepairUndoesTypos(s);
      RepairStepGreat(s);
    } else {
      assert t == [t[0]] + t[1..];
      assert !StartsWith(t, "teh") && !StartsWith(t, "gerat");
      SuffixHasNoTypos(t, 1);
      RepairUndoesTypos(t[1..]);
      RepairStepOther(t[0], t[1..]);
    }
  }

  /** Injecting typos keeps a text within the allowlist and free of edge whitespace. */
  lemma InjectTyposKeepsShape(t: string)
    requires AllAllowed(t) && NoEdgeSpace(t)
    ensures AllAllowed(InjectTypos(t)) && NoEdgeSpace(InjectTypos(t))
  {
    var u := ReplaceAll(t, "the", "teh");
    ReplaceAllChars(t, "the", "teh");
    ReplaceAllChars(u, "great", "gerat");
    ReplaceAllEnds(t, "the", "teh");
    ReplaceAllEnds(u, "great", "gerat");
  }

  /** A typo-injected review whose original text is of clean shape comes out of
      `clean_data` exactly as it was generated before the typos. */
  lemma CleaningRestoresTypoText(t: string)
    requires AllAllowed(t) && NoEdgeSpace(t) && !Contains(t, "teh") && !Contains(t, "gerat")
    ensures CleanText(InjectTypos(t)) == t
  {
    InjectTyposKeepsShape(t);
    var x := InjectTypos(t);
    assert RemoveDisallowed(x) == x;
    assert Strip(x) == x;
    RepairUndoesTypos(t);
  }
}
