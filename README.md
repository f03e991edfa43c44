# Customer review analysis, modelled in Dafny

This project models the analysis pipeline of
`Unstopable_sentiment/customer_review_analysis.py`. The pipeline has four stages:

1. **Generating the reviews (`generate_dataset`).** It builds a table of synthetic tech-product
   reviews. For each row it draws a rating, then picks a template from the positive, negative
   or neutral pool according to that rating, and fills in a product, feature, defect and time
   period. With some probability it then injects the typos `the`→`teh` and `great`→`gerat`,
   and with some probability it replaces the text by a missing value.
2. **Cleaning (`clean_data`).**
   - A missing text becomes `"No review provided"` and a missing rating becomes 3.
   - It then derives `Clean_Text`:
     - it deletes every character outside `[a-zA-Z0-9\s.,!?'-]`;
     - it strips whitespace from both ends;
     - it repairs the two typos.
3. **Sentiment (`analyze_sentiment` / `get_sentiment`).** Each `Clean_Text` gets a label.
   - The label is `Positive` at a compound score of 0.05 or more.
   - It is `Negative` at -0.05 or less.
   - It is `Neutral` otherwise.
   - The score is kept alongside the label.
4. **Complaints (`find_top_complaints`).**
   - It returns nothing when there are no Negative rows.
   - Otherwise it takes each term of the TF-IDF vocabulary that contains one of eleven
     complaint indicators.
   - For each such term it counts how many negative texts mention it, ignoring case.
   - It returns at most three terms, those with the highest summed TF-IDF weight (fewer when
     fewer than three terms contain an indicator). The sort is stable and descending.

Modules, one per stage plus shared pieces:

- `Wrappers`: the missing-value marker `Option`.
- `Strings`: models these Python string operations on `seq<char>`:
  - `isspace`;
  - ASCII `lower`;
  - `in`;
  - `replace`;
  - `strip`.
- `Reviews`: the review record, the `Label` type, and the DataFrame as a class `ReviewFrame`.
  The class holds one field per column. The pipeline steps update these fields in place.
- `Dataset`: `generate_dataset`, with every random draw an explicit input (a `Draw`). It also
  proves that the cleaner's repairs undo the generator's typos, for texts that contain no
  `teh` or `gerat` of their own.
- `Cleaning`: `clean_data`.
- `Sentiment`: `analyze_sentiment`. The VADER compound score is a function parameter.
- `Complaints`: `find_top_complaints` after the vectorizer. The vectorizer's
  `(term, summed weight)` list, in vocabulary order, is an input.

Behaviour the model follows as the code has it:

- The typo repair is case-sensitive: a capitalised `Teh` stays as it is.
  `Cleaning.CapitalTehNotRepaired` states this.
- `generate_dataset(n)` with `n <= 0` returns an empty table rather than failing, since
  `range(1, n + 1)` is then empty.

## Model

| member | source | states |
|---|---|---|
| Strings.IsSpace | Unstopable_sentiment/customer_review_analysis.py:83 | no contract of its own: the characters `\s` matches and `strip()` removes (space, tab, newline, vertical tab, form feed, carriage return, the separators 0x1c-0x1f, 0x85, 0xa0 and the Unicode spaces); `Strings.Strip` and `Cleaning.RemoveDisallowed` are specified in terms of it |
| Strings.Lower | Unstopable_sentiment/customer_review_analysis.py:141-142 | `lower()` keeps the length; every capital A-Z becomes the character 32 code points above it; every other character is kept; no capital is left |
| Strings.LowerIdempotent | Unstopable_sentiment/customer_review_analysis.py:141-142 | lowercasing a lowercased text changes nothing |
| Strings.Contains | Unstopable_sentiment/customer_review_analysis.py:141-142 | no contract of its own (Python's `q in s`); `Strings.ContainsIff` states that it holds exactly when q occurs in s at some offset |
| Strings.ContainsIff | Unstopable_sentiment/customer_review_analysis.py:141-142 | `q in s` holds if and only if s[j..j + |q|] == q for some offset j |
| Strings.ContainsAt | Unstopable_sentiment/customer_review_analysis.py:141-142 | an occurrence of q at any offset of s makes `q in s` true |
| Strings.ContainsOccurrence | Unstopable_sentiment/customer_review_analysis.py:141-142 | when `q in s` is true, q occurs in s at some offset |
| Strings.FirstNonSpace | Unstopable_sentiment/customer_review_analysis.py:83 | where `lstrip` cuts: everything before the returned index is whitespace, and the character at it is not (or it is the end) |
| Strings.EndOfText | Unstopable_sentiment/customer_review_analysis.py:83 | where `rstrip` cuts: everything from the returned index to the end is whitespace, and the character before it is not (or it is the start) |
| Strings.Strip | Unstopable_sentiment/customer_review_analysis.py:83 | `strip()` returns a contiguous slice of its input with only whitespace outside it, no whitespace at either end of the slice, and no character the input lacks; a text with no edge whitespace comes back unchanged |
| Strings.ReplaceAll | Unstopable_sentiment/customer_review_analysis.py:64 | no contract of its own (`str.replace`, left to right, non-overlapping); specified by `Strings.ReplaceAllNoMatch`, `Strings.ReplaceAllChars`, `Strings.ReplaceAllEnds`, `Strings.ReplacedPrefix` and the repair lemmas of `Cleaning` and `Dataset` |
| Strings.ReplaceAllNoMatch | Unstopable_sentiment/customer_review_analysis.py:87 | `replace` changes nothing in a text that does not contain the pattern |
| Strings.ReplaceAllChars | Unstopable_sentiment/customer_review_analysis.py:87 | every character of `replace`'s result comes from the text or from the replacement |
| Strings.ReplaceAllEnds | Unstopable_sentiment/customer_review_analysis.py:87 | with a non-empty replacement, the result is empty exactly when the text is; its first and last characters come from the text's ends or the replacement's |
| Strings.ReplacedPrefix | Unstopable_sentiment/customer_review_analysis.py:87 | a prefix of `replace`'s result that avoids the replacement's first character was already a prefix of the text |
| Reviews.ReviewFrame.constructor | Unstopable_sentiment/customer_review_analysis.py:72 | `pd.DataFrame(data, columns=[...])`: one column per field, entry i from row i, columns of equal length, no derived columns yet |
| Cleaning.FillText | Unstopable_sentiment/customer_review_analysis.py:78 | a present text is kept; a missing one becomes `"No review provided"` |
| Cleaning.FillRating | Unstopable_sentiment/customer_review_analysis.py:79 | a present rating is kept; a missing one becomes 3 |
| Cleaning.Allowed | Unstopable_sentiment/customer_review_analysis.py:83 | no contract of its own: the allowlist `[a-zA-Z0-9\s.,!?'-]`; `Cleaning.RemoveDisallowed` is specified in terms of it |
| Cleaning.RemoveDisallowed | Unstopable_sentiment/customer_review_analysis.py:83 | the `re.sub` result has only allowlisted characters; each allowlisted character keeps its count and every other character is gone; an all-allowlisted text is unchanged |
| Cleaning.RemoveDisallowedAppend | Unstopable_sentiment/customer_review_analysis.py:83 | `re.sub` keeps the surviving characters in their original order: filtering a concatenation concatenates the filtered parts |
| Cleaning.FixTypos | Unstopable_sentiment/customer_review_analysis.py:87 | no contract of its own (the two chained `str.replace` calls); specified by `Cleaning.FixTyposRemovesTypos`, `Cleaning.FixTyposKeepsShape`, `Cleaning.FixTyposNoTypos` and `Cleaning.CapitalTehNotRepaired` |
| Cleaning.CleanText | Unstopable_sentiment/customer_review_analysis.py:82-87 | no contract of its own (one row's `Clean_Text`); specified by `Cleaning.CleanTextWellFormed`, `Cleaning.CleanShapeIsFixpoint`, `Cleaning.CleanTextIdempotent` and `Cleaning.MissingTextIsClean` |
| Cleaning.CleanData | Unstopable_sentiment/customer_review_analysis.py:74-89 | `clean_data` fills both columns in place. Every `Clean_Text` entry is the cleaning of that row's filled text. Ids and any sentiment columns are unchanged. |
| Cleaning.RepairLeavesNoTeh | Unstopable_sentiment/customer_review_analysis.py:87 | after `replace('teh', 'the')` no `teh` is left, including none formed across a replacement's boundary |
| Cleaning.GreatRepairAddsNoTeh | Unstopable_sentiment/customer_review_analysis.py:87 | the second repair, `replace('gerat', 'great')`, cannot create a `teh` |
| Cleaning.RepairLeavesNoGerat | Unstopable_sentiment/customer_review_analysis.py:87 | after `replace('gerat', 'great')` no `gerat` is left |
| Cleaning.FixTyposRemovesTypos | Unstopable_sentiment/customer_review_analysis.py:87 | after both repairs the text contains neither `teh` nor `gerat` |
| Cleaning.FixTyposKeepsShape | Unstopable_sentiment/customer_review_analysis.py:82-87 | the repairs keep a text within the allowlist and free of edge whitespace |
| Cleaning.FixTyposNoTypos | Unstopable_sentiment/customer_review_analysis.py:87 | the repairs leave a text without typos unchanged |
| Cleaning.CleanTextWellFormed | Unstopable_sentiment/customer_review_analysis.py:82-87 | every `Clean_Text`: only allowlisted characters, no edge whitespace, no `teh`, no `gerat` |
| Cleaning.CleanShapeIsFixpoint | Unstopable_sentiment/customer_review_analysis.py:82-87 | a text of that shape is its own cleaning |
| Cleaning.CleanTextIdempotent | Unstopable_sentiment/customer_review_analysis.py:82-87 | cleaning a cleaned text changes nothing |
| Cleaning.MissingTextIsClean | Unstopable_sentiment/customer_review_analysis.py:78-87 | the placeholder `"No review provided"` comes through cleaning unchanged |
| Cleaning.CapitalTehNotRepaired | Unstopable_sentiment/customer_review_analysis.py:87 | the repair is case-sensitive: `Teh` is cleaned to `Teh` |
| Sentiment.GetSentiment | Unstopable_sentiment/customer_review_analysis.py:96-105 | the score is the compound score. Positive holds iff score >= 0.05. Negative holds iff score <= -0.05. Neutral holds iff -0.05 < score < 0.05. |
| Sentiment.LabelMonotone | Unstopable_sentiment/customer_review_analysis.py:100-105 | a higher compound score never receives a lower label (Negative < Neutral < Positive) |
| Sentiment.AnalyzeSentiment | Unstopable_sentiment/customer_review_analysis.py:107-109 | adds `Sentiment` and `Sentiment_Score`, entry i being `get_sentiment` of `Clean_Text` i; all other columns unchanged |
| Complaints.NegativeTexts | Unstopable_sentiment/customer_review_analysis.py:116 | the selection has as many texts as there are Negative labels, each the text of a Negative row |
| Complaints.NegativeTextsAppend | Unstopable_sentiment/customer_review_analysis.py:116 | the selection keeps row order: selecting from a concatenated table concatenates the selections of the parts |
| Complaints.NegativeTextsMentions | Unstopable_sentiment/customer_review_analysis.py:116-142 | each Negative row contributes its own text once: the count for a term is the number of Negative rows whose text mentions it |
| Complaints.Mentions | Unstopable_sentiment/customer_review_analysis.py:142 | no contract of its own (`term.lower() in str(review).lower()`); specified by `Strings.Lower` and `Complaints.CountMentionsIsCardinality` |
| Complaints.CountMentions | Unstopable_sentiment/customer_review_analysis.py:142 | a count never exceeds the number of negative texts |
| Complaints.CountMentionsIsCardinality | Unstopable_sentiment/customer_review_analysis.py:142 | the count is the number of negative texts whose lowercase form contains the lowercase term |
| Complaints.CountMentionsAppend | Unstopable_sentiment/customer_review_analysis.py:142 | counting over a concatenation of texts adds the counts of the parts |
| Complaints.IsComplaintTerm | Unstopable_sentiment/customer_review_analysis.py:141 | no contract of its own (`any(indicator in term.lower() ...)` over the eleven indicators); specified by `Complaints.CandidatesSound` and `Complaints.CandidatesComplete` |
| Complaints.Candidates | Unstopable_sentiment/customer_review_analysis.py:139-143 | no contract beyond its length bound; specified by `Complaints.CandidatesSound`, `Complaints.CandidatesComplete` and `Complaints.CandidatesAppend` |
| Complaints.ComplaintOf | Unstopable_sentiment/customer_review_analysis.py:143 | no contract of its own (the tuple `(term, count, score)`); `Complaints.CandidatesSound`, `Complaints.CandidatesComplete` and `Complaints.CountMentionsIsCardinality` fix each field: the term, its number of mentions among the negative texts, its summed weight |
| Complaints.CandidatesSound | Unstopable_sentiment/customer_review_analysis.py:139-143 | every entry of `complaints` comes from a vocabulary term containing an indicator, with that term's weight and mention count |
| Complaints.CandidatesComplete | Unstopable_sentiment/customer_review_analysis.py:139-143 | every vocabulary term containing an indicator yields an entry of `complaints` |
| Complaints.CandidatesAppend | Unstopable_sentiment/customer_review_analysis.py:139-143 | `complaints` keeps vocabulary order: the candidates of a concatenated vocabulary are the concatenation of the parts' candidates |
| Complaints.Take | Unstopable_sentiment/customer_review_analysis.py:145 | `[:n]` is a prefix of length min(n, length) |
| Complaints.InsertByWeight | Unstopable_sentiment/customer_review_analysis.py:145 | no contract of its own (one step of the stable descending sort); specified by `Complaints.InsertByWeightPermutes`, `Complaints.InsertByWeightSorted` and `Complaints.InsertByWeightStable` |
| Complaints.InsertByWeightPermutes | Unstopable_sentiment/customer_review_analysis.py:145 | inserting adds exactly the inserted entry |
| Complaints.InsertByWeightSorted | Unstopable_sentiment/customer_review_analysis.py:145 | inserting into a descending list keeps it descending |
| Complaints.InsertByWeightStable | Unstopable_sentiment/customer_review_analysis.py:145 | the inserted entry goes after every entry of equal weight |
| Complaints.SortByWeight | Unstopable_sentiment/customer_review_analysis.py:145 | no contract of its own; specified by `Complaints.SortByWeightCorrect` |
| Complaints.SortByWeightCorrect | Unstopable_sentiment/customer_review_analysis.py:145 | `sorted(key=weight, reverse=True)`. The result is descending and a permutation of its input. It is stable: entries of each weight keep their order. |
| Complaints.TopComplaints | Unstopable_sentiment/customer_review_analysis.py:113-145 | no contract of its own (the value `find_top_complaints` returns); specified by `Complaints.TopComplaintsShape`, `Complaints.TopComplaintsOrdered` and `Complaints.TopComplaintsAreHeaviest`, and computed by `Complaints.FindTopComplaints` |
| Complaints.TopComplaintsShape | Unstopable_sentiment/customer_review_analysis.py:113-145 | at most three entries, and none without a Negative row (early `return []`). Otherwise the result is the first min(3, candidates) entries of the sorted candidates. |
| Complaints.TopComplaintsOrdered | Unstopable_sentiment/customer_review_analysis.py:134-145 | each entry's term contains an indicator and its count is its number of mentions among the negative texts. Weights do not increase. Entries of equal weight keep their order among the candidates, which is vocabulary order by `Complaints.CandidatesAppend`. |
| Complaints.TopComplaintsAreHeaviest | Unstopable_sentiment/customer_review_analysis.py:145 | the result is drawn from the candidates, and no candidate left out weighs more than a returned entry |
| Complaints.FindTopComplaints | Unstopable_sentiment/customer_review_analysis.py:113-145 | the loops over the vocabulary and over the negative texts compute exactly `TopComplaints` of the table's labels and clean texts |
| Dataset.TemplatesFor | Unstopable_sentiment/customer_review_analysis.py:48-53 | no contract of its own (the three-way branch on the rating); `Dataset.MakeReview` fixes the text to a filled template from this pool |
| Dataset.SlotValue | Unstopable_sentiment/customer_review_analysis.py:56-59 | no contract of its own (the keyword arguments of `format`): each placeholder takes the drawn element of its own list; `Dataset.MakeReview` and `Dataset.FillAppend` are stated through it |
| Dataset.Fill | Unstopable_sentiment/customer_review_analysis.py:55-60 | no contract of its own; `Dataset.FillAppend` states that filling works piece by piece, left to right |
| Dataset.FillAppend | Unstopable_sentiment/customer_review_analysis.py:55-60 | `format` on a concatenation of templates is the concatenation of the fillings |
| Dataset.InjectTypos | Unstopable_sentiment/customer_review_analysis.py:64 | no contract of its own (the two chained `str.replace` calls); specified by `Dataset.RepairUndoesTypos`, `Dataset.InjectTyposKeepsShape` and `Dataset.CleaningRestoresTypoText` |
| Dataset.DrawnText | Unstopable_sentiment/customer_review_analysis.py:55-64 | no contract of its own: the filled template of the rating's pool, typo-injected when the typo draw fired; `Dataset.MakeReview` states that a present text is exactly this, and `Dataset.CleaningRestoresTypoText` that cleaning undoes the injection |
| Dataset.MakeReview | Unstopable_sentiment/customer_review_analysis.py:46-70 | row i has id i and a rating from [1..5]. Its text is missing iff the missing draw fired. Otherwise the text is the filled template from the rating's pool, typo-injected if the typo draw fired. |
| Dataset.GenerateRows | Unstopable_sentiment/customer_review_analysis.py:44-70 | the loop yields max(n, 0) rows, row k built from draw k with id k + 1 |
| Dataset.GenerateDataset | Unstopable_sentiment/customer_review_analysis.py:18-72 | a fresh table of max(n, 0) rows. Ids are 1..n, ratings are in 1..5, and a text is missing exactly where its draw says so. No derived columns yet. |
| Dataset.RepairUndoesTypos | Unstopable_sentiment/customer_review_analysis.py:64 | for a text with no `teh` or `gerat` of its own, the two repairs of line 87 exactly undo the two typo injections of line 64 |
| Dataset.InjectTyposKeepsShape | Unstopable_sentiment/customer_review_analysis.py:64 | typo injection keeps a text within the allowlist and free of edge whitespace |
| Dataset.CleaningRestoresTypoText | Unstopable_sentiment/customer_review_analysis.py:62-64 | a typo-injected text whose original is of clean shape comes out of the cleaning equal to the original |

## Left out

- Random draws (line 46, 49-59, 63, 67): `np.random.choice` with weights 0.1/0.15/0.2/0.35/0.2, `random.choice` and the two `random.random()` thresholds 0.2 and 0.08 are not modelled as distributions; every outcome is an input `Draw`, and `ValidDraw` says only that each choice is an element of its list.
- Draw order: the model fixes which draw feeds which choice, not the order in which Python's generator state is consumed.
- VADER (`SentimentIntensityAnalyzer.polarity_scores`): a foreign library; its compound score is the parameter `compound`.
- TF-IDF (lines 122-131): tokenisation, English stop words, 1- and 2-grams, `max_features=50`, `min_df=2` and the summed weights are produced by scikit-learn and are an input `seq<TermWeight>`. The vectorizer's own errors, such as a `ValueError` on a corpus with fewer than two documents, are not modelled.
- Floating point: compound scores and TF-IDF weights are reals. For the thresholds the comparison is exact, since a double compares with 0.05 the same way as its exact value does.
- `Strings.Lower`: lowercases ASCII letters only; Python's full Unicode case mapping is not modelled.
- `Strings.ReplaceAll`: requires a non-empty pattern; Python's behaviour for an empty pattern is not modelled, since the code only replaces fixed non-empty words.
- pandas column types: a missing text is `None`, not a float `NaN`, and the object/float dtype changes that `fillna` undoes are not modelled.
- `Dataset.RepairUndoesTypos`: proved for texts with no `teh` or `gerat` of their own. That each of the 9×5×5×3×3 filled templates has this shape is not proved.
- `Dataset.GenerateDataset`: the default argument `n_reviews=1000` (line 18) is not modelled; the count is always an explicit parameter, as `main` passes it.
- `main` (lines 147-190): printing, the sentiment distribution report and the CSV files are I/O.
- `warnings.filterwarnings('ignore')` (line 16): no effect on the computed values.
