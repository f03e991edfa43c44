/** `clean_data`: fill the missing values, then derive `Clean_Text` from `Review_Text`. */
module Cleaning {
  import opened Wrappers
  import opened Strings
  import opened Reviews

  /** What `fillna` puts in place of a missing review text. */
  const MissingText: string := "No review provided"

  /** What `fillna` puts in place of a missing rating. */
  const DefaultRating: int := 3

  /** The characters the pattern `[^a-zA-Z0-9\s.,!?'-]` does not match: ASCII letters and
      digits, whitespace, and the six punctuation marks. */
  predicate Allowed(c: char) {
    ('a' <= c <= 'z') || ('A' <= c <= 'Z') || ('0' <= c <= '9') || IsSpace(c)
    || c == '.' || c == ',' || c == '!' || c == '?' || c == '\'' || c == '-'
  }

  predicate AllAllowed(s: string) {
    forall c :: c in s ==> Allowed(c)
  }

  /** `re.sub(r'[^a-zA-Z0-9\s.,!?\'-]', '', s)`: every character outside the allowlist is
      deleted, every allowed one is kept with its multiplicity. */
  function RemoveDisallowed(s: string): (r: string)
    ensures AllAllowed(r)
    ensures forall c {:trigger multiset(r)[c]} :: multiset(r)[c] == if Allowed(c) then multiset(s)[c] else 0
    ensures AllAllowed(s) ==> r == s
    decreases |s|
  {
    if |s| == 0 then []
    else
      assert s == [s[0]] + s[1..];
      (if Allowed(s[0]) then [s[0]] else []) + RemoveDisallowed(s[1..])
  }

  /** The filter keeps the surviving characters in their original order: it distributes
      over concatenation. */
  lemma {:induction false} RemoveDisallowedAppend(a: string, b: string)
    ensures RemoveDisallowed(a + b) == RemoveDisallowed(a) + RemoveDisallowed(b)
    decreases |a|
  {
    if |a| == 0 {
      assert a + b == b;
      assert RemoveDisallowed(a) == [];
    } else {
      var head := if Allowed(a[0]) then [a[0]] else [];
      RemoveDisallowedAppendStep(a, b);
      RemoveDisallowedAppend(a[1..], b);
      RemoveDisallowedFirst(a);
      ConcatAssociative(head, RemoveDisallowed(a[1..]), RemoveDisallowed(b));
    }
  }

  /** RemoveDisallowedFirst on a + b, with the tail written as a[1..] + b. */
  lemma RemoveDisallowedAppendStep(a: string, b: string)
    requires |a| > 0
    ensures RemoveDisallowed(a + b) == (if Allowed(a[0]) then [a[0]] else []) + RemoveDisallowed(a[1..] + b)
  {
    RemoveDisallowedFirst(a + b);
    assert (a + b)[0] == a[0];
    assert (a + b)[1..] == a[1..] + b;
  }

  /** Concatenation regroups freely. */
  lemma ConcatAssociative(x: string, y: string, z: string)
    ensures x + (y + z) == (x + y) + z
  {
  }

  /** One unfolding of RemoveDisallowed: the first character is kept exactly when allowed. */
  lemma RemoveDisallowedFirst(s: string)
    requires |s| > 0
    ensures RemoveDisallowed(s) == (if Allowed(s[0]) then [s[0]] else []) + RemoveDisallowed(s[1..])
  {
  }

  /** The two typo repairs, in the order the code applies them (both case-sensitive). */
  function FixTypos(s: string): string {
    ReplaceAll(ReplaceAll(s, "teh", "the"), "gerat", "great")
  }

  /** The text that ends up in `Clean_Text` for one (already filled) `Review_Text`. */
  function CleanText(raw: string): string {
    FixTypos(Strip(RemoveDisallowed(raw)))
  }

  /** `fillna("No review provided")` on one entry of `Review_Text`. */
  function FillText(t: Option<string>): (r: string)
    ensures t.Some? ==> r == t.value
    ensures t.None? ==> r == MissingText
  {
    match t
    case Some(s) => s
    case None => MissingText
  }

  /** `fillna(3)` on one entry of `Rating`. */
  function FillRating(r: Option<int>): (v: int)
    ensures r.Some? ==> v == r.value
    ensures r.None? ==> v == DefaultRating
  {
    match r
    case Some(x) => x
    case None => DefaultRating
  }

  /** `clean_data(df)`: fills both columns in place and adds `Clean_Text`; the id column
      and any sentiment columns are left as they were. */
  method CleanData(df: ReviewFrame)
    requires df.Valid()
    modifies df
    ensures df.Valid()
    ensures df.reviewId == old(df.reviewId)
    ensures |df.reviewText| == |old(df.reviewText)| && |df.rating| == |old(df.rating)|
    ensures forall i :: 0 <= i < |df.reviewText| ==>
      df.reviewText[i] == Some(FillText(old(df.reviewText[i])))
    ensures forall i :: 0 <= i < |df.rating| ==>
      df.rating[i] == Some(FillRating(old(df.rating[i])))
    ensures df.cleanText.Some? && |df.cleanText.value| == |df.reviewId|
    ensures forall i :: 0 <= i < |df.reviewId| ==>
      df.cleanText.value[i] == CleanText(FillText(old(df.reviewText[i])))
    ensures df.sentiment == old(df.sentiment) && df.sentimentScore == old(df.sentimentScore)
  {
    var texts := df.reviewText;
    var ratings := df.rating;
    var filled := seq(|texts|, i requires 0 <= i < |texts| => FillText(texts[i]));
    df.reviewText := seq(|filled|, i requires 0 <= i < |filled| => Some(filled[i]));
    df.rating := seq(|ratings|, i requires 0 <= i < |ratings| => Some(FillRating(ratings[i])));
    df.cleanText := Some(seq(|filled|, i requires 0 <= i < |filled| => CleanText(filled[i])));
  }

  // ---------------------------------------------------------------------------
  // The typo repairs leave no typo behind

  /** After `replace('teh', 'the')` no `teh` is left, not even one the replacement could
      have formed with its neighbours. */
  lemma {:induction false} RepairLeavesNoTeh(x: string)
    ensures !Contains(ReplaceAll(x, "teh", "the"), "teh")
    decreases |x|
  {
    var q := "teh";
    if |x| == 0 {
    } else if StartsWith(x, q) {
      var y := ReplaceAll(x[3..], q, "the");
      RepairLeavesNoTeh(x[3..]);
      forall j | 0 <= j < 3 ensures !StartsWith("the"[j..] + y, q) {
        if j == 0 {
          MismatchAt("the"[j..], y, q, 1);
        } else {
          MismatchAt("the"[j..], y, q, 0);
        }
      }
      NotContainsAppend("the", y, q);
    } else {
      var y := ReplaceAll(x[1..], q, "the");
      RepairLeavesNoTeh(x[1..]);
      assert x == [x[0]] + x[1..];
      assert q[1..] == "eh";
      StartsWithCons(x[0], x[1..], q);
      StartsWithCons(x[0], y, q);
      if StartsWith(y, "eh") {
        ReplacedPrefix(x[1..], q, "the", "eh");
      }
      assert [x[0]][0..] == [x[0]];
      NotContainsAppend([x[0]], y, q);
    }
  }

  /** `replace('gerat', 'great')` cannot bring a `teh` into a text that has none. */
  lemma {:induction false} GreatRepairAddsNoTeh(x: string)
    requires !Contains(x, "teh")
    ensures !Contains(ReplaceAll(x, "gerat", "great"), "teh")
    decreases |x|
  {
    var q := "teh";
    if |x| == 0 {
    } else if StartsWith(x, "gerat") {
      var t := x[5..];
      var y := ReplaceAll(t, "gerat", "great");
      assert x == x[..5] + t;
      if Contains(t, q) {
        ContainsSuffix(x[..5], t, q);
      }
      GreatRepairAddsNoTeh(t);
      forall j | 0 <= j < 5 ensures !StartsWith("great"[j..] + y, q) {
        if j < 4 {
          MismatchAt("great"[j..], y, q, 0);
        } else {
          assert "great"[j..] == ['t'];
          assert q[1..] == "eh";
          StartsWithCons('t', y, q);
          if StartsWith(y, "eh") {
            ReplacedPrefix(t, "gerat", "great", "eh");
            assert x[4] == x[..5][4] == 't';
            assert x[4..] == ['t'] + t;
            StartsWithCons('t', t, q);
            ContainsAt(x, 4, q);
            assert false;
          }
        }
      }
      NotContainsAppend("great", y, q);
    } else {
      var t := x[1..];
      var y := ReplaceAll(t, "gerat", "great");
      assert x == [x[0]] + t;
      GreatRepairAddsNoTeh(t);
      assert q[1..] == "eh";
      StartsWithCons(x[0], t, q);
      StartsWithCons(x[0], y, q);
      if StartsWith(y, "eh") {
        ReplacedPrefix(t, "gerat", "great", "eh");
      }
      assert [x[0]][0..] == [x[0]];
      NotContainsAppend([x[0]], y, q);
    }
  }

  /** After `replace('gerat', 'great')` no `gerat` is left. */
  lemma {:induction false} RepairLeavesNoGerat(x: string)
    ensures !Contains(ReplaceAll(x, "gerat", "great"), "gerat")
    decreases |x|
  {
    var q := "gerat";
    if |x| == 0 {
    } else if StartsWith(x, q) {
      var y := ReplaceAll(x[5..], q, "great");
      RepairLeavesNoGerat(x[5..]);
      forall j | 0 <= j < 5 ensures !StartsWith("great"[j..] + y, q) {
        if j == 0 {
          MismatchAt("great"[j..], y, q, 1);
        } else {
          MismatchAt("great"[j..], y, q, 0);
        }
      }
      NotContainsAppend("great", y, q);
    } else {
      var y := ReplaceAll(x[1..], q, "great");
      RepairLeavesNoGerat(x[1..]);
      assert x == [x[0]] + x[1..];
      assert q[1..] == "erat";
      StartsWithCons(x[0], x[1..], q);
      StartsWithCons(x[0], y, q);
      if StartsWith(y, "erat") {
        ReplacedPrefix(x[1..], q, "great", "erat");
      }
      assert [x[0]][0..] == [x[0]];
      NotContainsAppend([x[0]], y, q);
    }
  }

  /** The repaired text contains neither typo. */
  lemma FixTyposRemovesTypos(s: string)
    ensures !Contains(FixTypos(s), "teh") && !Contains(FixTypos(s), "gerat")
  {
    var u := ReplaceAll(s, "teh", "the");
    RepairLeavesNoTeh(s);
    GreatRepairAddsNoTeh(u);
    RepairLeavesNoGerat(u);
  }

  /** The repairs bring in only letters, and never whitespace at either end. */
  lemma FixTyposKeepsShape(s: string)
    ensures AllAllowed(s) ==> AllAllowed(FixTypos(s))
    ensures NoEdgeSpace(s) ==> NoEdgeSpace(FixTypos(s))
  {
    var u := ReplaceAll(s, "teh", "the");
    ReplaceAllChars(s, "teh", "the");
    ReplaceAllChars(u, "gerat", "great");
    ReplaceAllEnds(s, "teh", "the");
    ReplaceAllEnds(u, "gerat", "great");
  }

  /** A text with neither typo is left as it is. */
  lemma FixTyposNoTypos(s: string)
    requires !Contains(s, "teh") && !Contains(s, "gerat")
    ensures FixTypos(s) == s
  {
    ReplaceAllNoMatch(s, "teh", "the");
    ReplaceAllNoMatch(s, "gerat", "great");
  }

  // ---------------------------------------------------------------------------
  // What every Clean_Text satisfies

  /** `Clean_Text` holds only allowlisted characters, has no whitespace at either end and
      contains no lowercase `teh` and no `gerat`. */
  lemma CleanTextWellFormed(raw: string)
    ensures var c := CleanText(raw);
      AllAllowed(c) && NoEdgeSpace(c) && !Contains(c, "teh") && !Contains(c, "gerat")
  {
    var t := Strip(RemoveDisallowed(raw));
    assert AllAllowed(t);
    FixTyposKeepsShape(t);
    FixTyposRemovesTypos(t);
  }

  /** A text of the shape every `Clean_Text` has is its own cleaning. */
  lemma CleanShapeIsFixpoint(c: string)
    requires AllAllowed(c) && NoEdgeSpace(c) && !Contains(c, "teh") && !Contains(c, "gerat")
    ensures CleanText(c) == c
  {
    assert RemoveDisallowed(c) == c;
    assert Strip(c) == c;
    FixTyposNoTypos(c);
  }

  /** Cleaning an already cleaned text changes nothing. */
  lemma CleanTextIdempotent(raw: string)
    ensures CleanText(CleanText(raw)) == CleanText(raw)
  {
    var c := CleanText(raw);
    CleanTextWellFormed(raw);
    assert RemoveDisallowed(c) == c;
    assert Strip(c) == c;
    FixTyposNoTypos(c);
  }

  lemma MissingTextHasNoTeh()
    ensures !Contains(MissingText, "teh")
  {
    MissingCharNotContains(MissingText, "teh", 'h');
  }

  lemma MissingTextHasNoGerat()
    ensures !Contains(MissingText, "gerat")
  {
    MissingCharNotContains(MissingText, "gerat", 'g');
  }

  /** The placeholder for a missing text passes through cleaning unchanged. */
  lemma MissingTextIsClean()
    ensures CleanText(MissingText) == MissingText
  {
    assert AllAllowed(MissingText) by {}
    assert NoEdgeSpace(MissingText) by {}
    MissingTextHasNoTeh();
    MissingTextHasNoGerat();
    CleanShapeIsFixpoint(MissingText);
  }

  /** The repair is case-sensitive: a capitalised `Teh` is not repaired. */
  lemma CapitalTehNotRepaired()
    ensures CleanText("Teh") == "Teh"
  {
    var t := "Teh";
    assert AllAllowed(t);
    MissingCharNotContains(t, "teh", 't');
    MissingCharNotContains(t, "gerat", 'g');
    CleanShapeIsFixpoint(t);
  }
}
