/** `find_top_complaints`: everything after the TF-IDF vectorizer. The vectorizer's output is
    an input here: the `(term, weight)` pairs in the order `get_feature_names_out` lists
    them, each weight the term's column sum over the negative texts. */
module Complaints {
  import opened Strings
  import opened Reviews

  /** One vocabulary entry of the fitted vectorizer, with its summed TF-IDF weight. */
  datatype TermWeight = TermWeight(term: string, weight: real)

  /** One entry of the result: `(term, count, score)`. */
  datatype Complaint = Complaint(term: string, count: nat, weight: real)

  /** `complaint_indicators`. */
  const Indicators: seq<string> :=
    ["terrible", "awful", "bad", "poor", "broken", "slow", "battery", "crash", "problem", "issue", "fail"]

  /** How many complaints the function returns at most (`[:3]`). */
  const TopCount: nat := 3

  /** `df[df['Sentiment'] == 'Negative']['Clean_Text']`: the texts of the Negative rows, in
      row order. There are as many as there are Negative labels. */
  function NegativeTexts(labels: seq<Label>, texts: seq<string>): (neg: seq<string>)
    requires |labels| == |texts|
    ensures |neg| == multiset(labels)[Negative]
    ensures forall t :: t in neg ==> exists i :: 0 <= i < |texts| && labels[i] == Negative && texts[i] == t
    decreases |labels|
  {
    if |labels| == 0 then []
    else
      var n := |labels| - 1;
      assert labels == labels[..n] + [labels[n]];
      NegativeTexts(labels[..n], texts[..n]) + (if labels[n] == Negative then [texts[n]] else [])
  }

  /** `term.lower() in str(review).lower()`. */
  predicate Mentions(review: string, term: string) {
    Contains(Lower(review), Lower(term))
  }

  /** `sum(1 for review in negative_reviews if term.lower() in str(review).lower())`. */
  function CountMentions(docs: seq<string>, term: string): (n: nat)
    ensures n <= |docs|
    decreases |docs|
  {
    if |docs| == 0 then 0
    else CountMentions(docs[..|docs| - 1], term) + (if Mentions(docs[|docs| - 1], term) then 1 else 0)
  }

  /** `any(indicator in term.lower() for indicator in complaint_indicators)`. */
  predicate IsComplaintTerm(term: string) {
    exists k | 0 <= k < |Indicators| :: Contains(Lower(term), Indicators[k])
  }

  /** The complaint a vocabulary entry gives rise to. */
  function ComplaintOf(f: TermWeight, docs: seq<string>): Complaint {
    Complaint(f.term, CountMentions(docs, f.term), f.weight)
  }

  /** The list `complaints` the loop builds: one entry per complaint term, in vocabulary
      order. */
  function Candidates(features: seq<TermWeight>, docs: seq<string>): (cs: seq<Complaint>)
    ensures |cs| <= |features|
    decreases |features|
  {
    if |features| == 0 then []
    else
      var n := |features| - 1;
      Candidates(features[..n], docs)
      + (if IsComplaintTerm(features[n].term) then [ComplaintOf(features[n], docs)] else [])
  }

  // ---------------------------------------------------------------------------
  // sorted(complaints, key=lambda x: x[2], reverse=True): a stable sort, descending by weight

  predicate NonIncreasing(s: seq<Complaint>) {
    forall i, j :: 0 <= i < j < |s| ==> s[i].weight >= s[j].weight
  }

  /** The entries of s with weight w, in their order in s. A sort is stable when this is the
      same before and after, for every w. */
  function WithWeight(s: seq<Complaint>, w: real): seq<Complaint>
    decreases |s|
  {
    if |s| == 0 then []
    else (if s[0].weight == w then [s[0]] else []) + WithWeight(s[1..], w)
  }

  /** Inserts x after every entry whose weight is at least x's. */
  function InsertByWeight(x: Complaint, s: seq<Complaint>): seq<Complaint>
    decreases |s|
  {
    if |s| == 0 then [x]
    else if s[0].weight >= x.weight then [s[0]] + InsertByWeight(x, s[1..])
    else [x] + s
  }

  /** Insertion sort, taking the entries in input order. */
  function SortByWeight(s: seq<Complaint>): seq<Complaint>
    decreases |s|
  {
    if |s| == 0 then []
    else InsertByWeight(s[|s| - 1], SortByWeight(s[..|s| - 1]))
  }

  /** `[:n]`. */
  function Take(s: seq<Complaint>, n: nat): (r: seq<Complaint>)
    ensures |r| == if |s| < n then |s| else n
    ensures r <= s
  {
    if |s| <= n then s else s[..n]
  }

  /** `find_top_complaints(df)`, the vectorizer's vocabulary given. */
  function TopComplaints(labels: seq<Label>, texts: seq<string>, features: seq<TermWeight>): seq<Complaint>
    requires |labels| == |texts|
  {
    var neg := NegativeTexts(labels, texts);
    if |neg| == 0 then []
    else Take(SortByWeight(Candidates(features, neg)), TopCount)
  }

  // ---------------------------------------------------------------------------
  // Lemmas

  lemma {:induction false} WithWeightAppend(a: seq<Complaint>, b: seq<Complaint>, w: real)
    ensures WithWeight(a + b, w) == WithWeight(a, w) + WithWeight(b, w)
    decreases |a|
  {
    if |a| == 0 {
      assert a + b == b;
    } else {
      assert (a + b)[1..] == a[1..] + b;
      WithWeightAppend(a[1..], b, w);
    }
  }

  lemma {:induction false} WithWeightNone(s: seq<Complaint>, w: real)
    requires forall k :: 0 <= k < |s| ==> s[k].weight != w
    ensures WithWeight(s, w) == []
    decreases |s|
  {
    if |s| > 0 {
      WithWeightNone(s[1..], w);
    }
  }

  /** Inserting adds exactly x. */
  lemma {:induction false} InsertByWeightPermutes(x: Complaint, s: seq<Complaint>)
    ensures multiset(InsertByWeight(x, s)) == multiset(s) + multiset{x}
    decreases |s|
  {
    if |s| > 0 && s[0].weight >= x.weight {
      InsertByWeightPermutes(x, s[1..]);
      assert s == [s[0]] + s[1..];
    }
  }

  /** Inserting into a sorted list keeps it sorted. */
  lemma {:induction false} InsertByWeightSorted(x: Complaint, s: seq<Complaint>)
    requires NonIncreasing(s)
    ensures NonIncreasing(InsertByWeight(x, s))
    decreases |s|
  {
    if |s| > 0 && s[0].weight >= x.weight {
      var t := InsertByWeight(x, s[1..]);
      InsertByWeightSorted(x, s[1..]);
      InsertByWeightPermutes(x, s[1..]);
      forall k | 0 <= k < |t| ensures s[0].weight >= t[k].weight {
        assert t[k] in multiset(t);
        if t[k] != x {
          assert t[k] in multiset(s[1..]);
          assert t[k] in s[1..];
        }
      }
      assert InsertByWeight(x, s) == [s[0]] + t;
    }
  }

  /** Inserting into a sorted list puts x after every entry of equal weight. */
  lemma {:induction false} InsertByWeightStable(x: Complaint, s: seq<Complaint>, w: real)
    requires NonIncreasing(s)
    ensures WithWeight(InsertByWeight(x, s), w) == WithWeight(s, w) + WithWeight([x], w)
    decreases |s|
  {
    if |s| == 0 {
    } else if s[0].weight >= x.weight {
      var t := InsertByWeight(x, s[1..]);
      InsertByWeightStable(x, s[1..], w);
      assert s == [s[0]] + s[1..];
      WithWeightAppend([s[0]], t, w);
      WithWeightAppend([s[0]], s[1..], w);
    } else {
      WithWeightAppend([x], s, w);
      if x.weight == w {
        WithWeightNone(s, w);
      }
    }
  }

  /** The sort is sorted, a permutation, and stable. */
  lemma {:induction false} SortByWeightCorrect(s: seq<Complaint>)
    ensures NonIncreasing(SortByWeight(s))
    ensures multiset(SortByWeight(s)) == multiset(s)
    ensures forall w :: WithWeight(SortByWeight(s), w) == WithWeight(s, w)
    decreases |s|
  {
    if |s| > 0 {
      var n := |s| - 1;
      var t := SortByWeight(s[..n]);
      SortByWeightCorrect(s[..n]);
      InsertByWeightSorted(s[n], t);
      InsertByWeightPermutes(s[n], t);
      assert s == s[..n] + [s[n]];
      forall w ensures WithWeight(SortByWeight(s), w) == WithWeight(s, w) {
        InsertByWeightStable(s[n], t, w);
        WithWeightAppend(s[..n], [s[n]], w);
      }
    }
  }

  /** Every candidate is the complaint of a complaint term of the vocabulary, with its
      weight and its mention count. */
  lemma {:induction false} CandidatesSound(features: seq<TermWeight>, docs: seq<string>, k: nat)
    requires k < |Candidates(features, docs)|
    ensures exists i :: 0 <= i < |features| && IsComplaintTerm(features[i].term)
                        && Candidates(features, docs)[k] == ComplaintOf(features[i], docs)
    decreases |features|
  {
    var n := |features| - 1;
    var init := Candidates(features[..n], docs);
    var cs := Candidates(features, docs);
    assert cs == init + (if IsComplaintTerm(features[n].term) then [ComplaintOf(features[n], docs)] else []);
    if k < |init| {
      CandidatesSound(features[..n], docs, k);
      var i :| 0 <= i < n && IsComplaintTerm(features[..n][i].term)
               && init[k] == ComplaintOf(features[..n][i], docs);
      assert features[..n][i] == features[i];
    } else {
      assert cs[k] == ComplaintOf(features[n], docs);
    }
  }

  /** Every complaint term of the vocabulary gives a candidate. */
  lemma {:induction false} CandidatesComplete(features: seq<TermWeight>, docs: seq<string>, i: nat)
    requires i < |features| && IsComplaintTerm(features[i].term)
    ensures ComplaintOf(features[i], docs) in Candidates(features, docs)
    decreases |features|
  {
    var n := |features| - 1;
    var init := Candidates(features[..n], docs);
    var cs := Candidates(features, docs);
    assert cs == init + (if IsComplaintTerm(features[n].term) then [ComplaintOf(features[n], docs)] else []);
    if i < n {
      CandidatesComplete(features[..n], docs, i);
      assert features[..n][i] == features[i];
    } else {
      assert cs == init + [ComplaintOf(features[n], docs)];
    }
  }

  /** Each count is the number of negative texts that mention the term. */
  lemma {:induction false} CountMentionsIsCardinality(docs: seq<string>, term: string)
    ensures CountMentions(docs, term) == |set i | 0 <= i < |docs| && Mentions(docs[i], term)|
    decreases |docs|
  {
    var all := set i | 0 <= i < |docs| && Mentions(docs[i], term);
    if |docs| == 0 {
      assert all == {};
    } else {
      var n := |docs| - 1;
      var hit := (i: int) => 0 <= i < |docs| && Mentions(docs[i], term);
      CountMentionsIsCardinality(docs[..n], term);
      assert (set i | 0 <= i < n && Mentions(docs[..n][i], term)) == (set i | 0 <= i < n && hit(i));
      assert all == (set i | 0 <= i < |docs| && hit(i));
      IndexCountLast(hit, |docs|);
    }
  }

  /** Counting over a concatenation adds the counts of the parts. */
  lemma {:induction false} CountMentionsAppend(a: seq<string>, b: seq<string>, term: string)
    ensures CountMentions(a + b, term) == CountMentions(a, term) + CountMentions(b, term)
    decreases |b|
  {
    if |b| == 0 {
      assert a + b == a;
    } else {
      var n := |b| - 1;
      assert (a + b)[..|a + b| - 1] == a + b[..n];
      assert (a + b)[|a + b| - 1] == b[n];
      CountMentionsAppend(a, b[..n], term);
    }
  }

  /** One unfolding of NegativeTexts: the last row is selected or not on its own label. */
  lemma NegativeTextsLast(labels: seq<Label>, texts: seq<string>)
    requires |labels| == |texts| > 0
    ensures var n := |labels| - 1;
      NegativeTexts(labels, texts)
      == NegativeTexts(labels[..n], texts[..n]) + (if labels[n] == Negative then [texts[n]] else [])
  {
  }

  /** `negative_reviews` keeps the Negative rows' texts in row order: on a concatenation
      of tables it is the concatenation of the parts' selections. */
  lemma {:induction false} NegativeTextsAppend(l1: seq<Label>, t1: seq<string>, l2: seq<Label>, t2: seq<string>)
    requires |l1| == |t1| && |l2| == |t2|
    ensures NegativeTexts(l1 + l2, t1 + t2) == NegativeTexts(l1, t1) + NegativeTexts(l2, t2)
    decreases |l2|
  {
    if |l2| == 0 {
      assert l1 + l2 == l1 && t1 + t2 == t1;
    } else {
      var n := |l2| - 1;
      var ls, ts := l1 + l2, t1 + t2;
      var m := |ls| - 1;
      assert ls[..m] == l1 + l2[..n] && ts[..m] == t1 + t2[..n];
      assert ls[m] == l2[n] && ts[m] == t2[n];
      var tail: seq<string> := if l2[n] == Negative then [t2[n]] else [];
      NegativeTextsLast(ls, ts);
      NegativeTextsLast(l2, t2);
      calc {
        NegativeTexts(ls, ts);
        NegativeTexts(l1 + l2[..n], t1 + t2[..n]) + tail;
        { NegativeTextsAppend(l1, t1, l2[..n], t2[..n]); }
        NegativeTexts(l1, t1) + NegativeTexts(l2[..n], t2[..n]) + tail;
        NegativeTexts(l1, t1) + NegativeTexts(l2, t2);
      }
    }
  }

  /** Each Negative row contributes its own text exactly once: the count for a term over
      `negative_reviews` is the number of Negative rows whose text mentions it. */
  lemma NegativeTextsMentions(labels: seq<Label>, texts: seq<string>, term: string)
    requires |labels| == |texts|
    ensures CountMentions(NegativeTexts(labels, texts), term)
            == |set i | 0 <= i < |labels| && labels[i] == Negative && Mentions(texts[i], term)|
  {
    var hit := (i: int) => 0 <= i < |labels| && labels[i] == Negative && Mentions(texts[i], term);
    NegativeRowsMentioning(labels, texts, term, hit, |labels|);
    assert labels[..|labels|] == labels && texts[..|texts|] == texts;
    assert (set i | 0 <= i < |labels| && hit(i))
        == (set i | 0 <= i < |labels| && labels[i] == Negative && Mentions(texts[i], term));
  }

  /** NegativeTextsMentions for the first m rows, with the rows that count given by hit. */
  lemma {:induction false} NegativeRowsMentioning(labels: seq<Label>, texts: seq<string>, term: string,
                                                  hit: int -> bool, m: nat)
    requires |labels| == |texts| && m <= |labels|
    requires forall i :: 0 <= i < |labels| ==> (hit(i) <==> labels[i] == Negative && Mentions(texts[i], term))
    ensures CountMentions(NegativeTexts(labels[..m], texts[..m]), term) == |set i | 0 <= i < m && hit(i)|
    decreases m
  {
    var all := set i | 0 <= i < m && hit(i);
    if m == 0 {
      assert all == {};
    } else {
      var n := m - 1;
      NegativeRowsStep(labels, texts, term, m);
      NegativeRowsMentioning(labels, texts, term, hit, n);
      IndexCountLast(hit, m);
    }
  }

  /** Row m - 1 adds one to the count when it is Negative and mentions the term. */
  lemma NegativeRowsStep(labels: seq<Label>, texts: seq<string>, term: string, m: nat)
    requires |labels| == |texts| && 0 < m <= |labels|
    ensures CountMentions(NegativeTexts(labels[..m], texts[..m]), term)
            == CountMentions(NegativeTexts(labels[..m - 1], texts[..m - 1]), term)
               + (if labels[m - 1] == Negative && Mentions(texts[m - 1], term) then 1 else 0)
  {
    var n := m - 1;
    var ls, ts := labels[..m], texts[..m];
    var prev := NegativeTexts(labels[..n], texts[..n]);
    var last: seq<string> := if labels[n] == Negative then [texts[n]] else [];
    assert CountMentions(NegativeTexts(ls, ts), term) == CountMentions(prev, term) + CountMentions(last, term) by {
      assert ls[..n] == labels[..n] && ts[..n] == texts[..n];
      assert ls[n] == labels[n] && ts[n] == texts[n];
      NegativeTextsLast(ls, ts);
      CountMentionsAppend(prev, last, term);
    }
    if labels[n] == Negative {
      CountMentionsSingle(texts[n], term);
    }
  }

  /** Counting the indices below m that satisfy p splits off the last one. */
  lemma IndexCountLast(p: int -> bool, m: nat)
    requires m > 0
    ensures |set i | 0 <= i < m && p(i)| == |set i | 0 <= i < m - 1 && p(i)| + (if p(m - 1) then 1 else 0)
  {
    var all := set i | 0 <= i < m && p(i);
    var init := set i | 0 <= i < m - 1 && p(i);
    if p(m - 1) {
      assert all == init + {m - 1};
    } else {
      assert all == init;
    }
  }

  /** The count over a single text. */
  lemma CountMentionsSingle(d: string, term: string)
    ensures CountMentions([d], term) == if Mentions(d, term) then 1 else 0
  {
    assert [d][..0] == [];
  }

  /** Candidates keep vocabulary order: on a concatenated vocabulary they are the
      concatenation of the parts' candidates. */
  lemma {:induction false} CandidatesAppend(a: seq<TermWeight>, b: seq<TermWeight>, docs: seq<string>)
    ensures Candidates(a + b, docs) == Candidates(a, docs) + Candidates(b, docs)
    decreases |b|
  {
    if |b| == 0 {
      assert a + b == a;
    } else {
      var n := |b| - 1;
      assert (a + b)[..|a + b| - 1] == a + b[..n];
      assert (a + b)[|a + b| - 1] == b[n];
      CandidatesAppend(a, b[..n], docs);
    }
  }

  /** The returned list has at most three entries, and none when there is no Negative row;
      otherwise it is the first min(3, |candidates|) entries of the stable descending sort
      of the candidates. */
  lemma TopComplaintsShape(labels: seq<Label>, texts: seq<string>, features: seq<TermWeight>)
    requires |labels| == |texts|
    ensures var top := TopComplaints(labels, texts, features);
      var cands := Candidates(features, NegativeTexts(labels, texts));
      && |top| <= TopCount
      && (Negative !in labels ==> top == [])
      && (Negative in labels ==> |top| == (if |cands| < TopCount then |cands| else TopCount))
      && (Negative in labels ==> top <= SortByWeight(cands))
  {
    var neg := NegativeTexts(labels, texts);
    assert Negative in labels <==> |neg| > 0 by {
      assert Negative in labels <==> multiset(labels)[Negative] > 0;
    }
    if |neg| > 0 {
      var cands := Candidates(features, neg);
      var sorted := SortByWeight(cands);
      SortByWeightCorrect(cands);
      assert |sorted| == |cands| by {
        assert |multiset(sorted)| == |multiset(cands)|;
      }
    }
  }

  /** Each returned entry is a complaint term, counted over the negative texts; the weights
      do not increase along the list, and entries of equal weight keep their vocabulary
      order. */
  lemma TopComplaintsOrdered(labels: seq<Label>, texts: seq<string>, features: seq<TermWeight>)
    requires |labels| == |texts|
    ensures var top := TopComplaints(labels, texts, features);
      var neg := NegativeTexts(labels, texts);
      var cands := Candidates(features, neg);
      && NonIncreasing(top)
      && (forall k :: 0 <= k < |top| ==>
            IsComplaintTerm(top[k].term) && top[k].count == CountMentions(neg, top[k].term)
            && top[k].count <= |neg|)
      && (forall w :: WithWeight(top, w) <= WithWeight(cands, w))
  {
    var top := TopComplaints(labels, texts, features);
    var neg := NegativeTexts(labels, texts);
    var cands := Candidates(features, neg);
    if |neg| > 0 {
      var sorted := SortByWeight(cands);
      SortByWeightCorrect(cands);
      assert sorted == top + sorted[|top|..];
      forall k | 0 <= k < |top|
        ensures IsComplaintTerm(top[k].term) && top[k].count == CountMentions(neg, top[k].term)
      {
        assert top[k] == sorted[k];
        assert top[k] in multiset(cands);
        var m :| 0 <= m < |cands| && cands[m] == top[k];
        CandidatesSound(features, neg, m);
      }
      forall w ensures WithWeight(top, w) <= WithWeight(cands, w) {
        WithWeightAppend(top, sorted[|top|..], w);
      }
    }
  }

  /** The returned entries are candidates, and every candidate left out weighs no more than
      any returned entry: these are the heaviest complaints. */
  lemma TopComplaintsAreHeaviest(labels: seq<Label>, texts: seq<string>, features: seq<TermWeight>)
    requires |labels| == |texts|
    ensures var top := TopComplaints(labels, texts, features);
      var cands := Candidates(features, NegativeTexts(labels, texts));
      && multiset(top) <= multiset(cands)
      && (forall c: Complaint, k :: c in multiset(cands) - multiset(top) && 0 <= k < |top| ==>
            c.weight <= top[k].weight)
  {
    var top := TopComplaints(labels, texts, features);
    var neg := NegativeTexts(labels, texts);
    var cands := Candidates(features, neg);
    if |neg| > 0 {
      var sorted := SortByWeight(cands);
      SortByWeightCorrect(cands);
      var rest := sorted[|top|..];
      assert sorted == top + rest;
      assert multiset(cands) == multiset(top) + multiset(rest);
      forall c: Complaint, k | c in multiset(cands) - multiset(top) && 0 <= k < |top|
        ensures c.weight <= top[k].weight
      {
        assert c in multiset(rest);
        var j :| 0 <= j < |rest| && rest[j] == c;
        assert sorted[|top| + j] == c && sorted[k] == top[k];
      }
    }
  }

  /** `find_top_complaints(df)`, given the fitted vectorizer's vocabulary with weights. */
  method FindTopComplaints(df: ReviewFrame, features: seq<TermWeight>) returns (top: seq<Complaint>)
    requires df.Valid() && df.sentiment.Some? && df.cleanText.Some?
    ensures top == TopComplaints(df.sentiment.value, df.cleanText.value, features)
  {
    var negatives := NegativeTexts(df.sentiment.value, df.cleanText.value);
    if |negatives| == 0 {
      return [];
    }
    var complaints: seq<Complaint> := [];
    var i := 0;
    while i < |features|
      invariant 0 <= i <= |features|
      invariant complaints == Candidates(features[..i], negatives)
    {
      var term := features[i].term;
      if IsComplaintTerm(term) {
        var count := 0;
        var j := 0;
        while j < |negatives|
          invariant 0 <= j <= |negatives|
          invariant count == CountMentions(negatives[..j], term)
        {
          if Mentions(negatives[j], term) {
            count := count + 1;
          }
          assert negatives[..j + 1][..j] == negatives[..j];
          j := j + 1;
        }
        assert negatives[..j] == negatives;
        complaints := complaints + [Complaint(term, count, features[i].weight)];
      }
      assert features[..i + 1][..i] == features[..i];
      i := i + 1;
    }
    assert features[..i] == features;
    top := Take(SortByWeight(complaints), TopCount);
  }
}
