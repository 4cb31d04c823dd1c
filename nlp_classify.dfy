/**
 * The keyword classifier of the NLP runner (`classify_text`): every category
 * is scored by the number of non-overlapping occurrences of its lowercase
 * form in the lowercased text, and the answer is the first category with the
 * highest score. The float probabilities reported beside it are not modelled;
 * they are a positive multiple of the scores (or all equal when every score
 * is 0), so the choice of category depends on the scores alone.
 */
module NlpClassify {
  import opened Wrappers
  import opened PyText

  /** `max()` over the empty score table raises. */
  datatype ClassifyError = NoCategories

  /** The chosen category and the per-category occurrence counts. */
  datatype Classification = Classification(category: string, counts: map<string, nat>)

  /** `text.lower().count(cat.lower())` */
  function Score(text: string, cat: string): nat
  {
    Count(Lower(text), Lower(cat))
  }

  /** Index k holds a maximal score and every earlier index a strictly smaller one. */
  predicate FirstMaximal(text: string, cats: seq<string>, k: int)
  {
    && 0 <= k < |cats|
    && (forall j :: 0 <= j < |cats| ==> Score(text, cats[j]) <= Score(text, cats[k]))
    && (forall j :: 0 <= j < k ==> Score(text, cats[j]) < Score(text, cats[k]))
  }

  /** `scores` maps exactly the categories in `cats` to their scores. */
  ghost predicate ScoreTable(text: string, cats: seq<string>, scores: map<string, nat>)
  {
    && (forall c :: c in scores <==> c in cats)
    && (forall c :: c in scores ==> scores[c] == Score(text, c))
  }

  lemma TableStep(text: string, cats: seq<string>, i: nat, scores: map<string, nat>)
    requires i < |cats| && ScoreTable(text, cats[..i], scores)
    ensures ScoreTable(text, cats[..i + 1], scores[cats[i] := Score(text, cats[i])])
  {
    assert cats[..i + 1] == cats[..i] + [cats[i]];
  }

  lemma MaxStep(text: string, cats: seq<string>, i: nat, best: nat)
    requires best < i < |cats| && FirstMaximal(text, cats[..i], best)
    ensures FirstMaximal(text, cats[..i + 1],
                         if Score(text, cats[i]) > Score(text, cats[best]) then i else best)
  {
    assert forall j :: 0 <= j < i ==> cats[..i][j] == cats[j] == cats[..i + 1][j];
  }

  method ClassifyText(text: string, categories: seq<string>) returns (r: Result<Classification, ClassifyError>)
    ensures r.Err? <==> |categories| == 0
    ensures r.Ok? ==> ScoreTable(text, categories, r.value.counts)
    ensures r.Ok? ==> exists k :: FirstMaximal(text, categories, k) && r.value.category == categories[k]
    ensures r.Ok? && (forall j :: 0 <= j < |categories| ==> Score(text, categories[j]) == 0)
            ==> r.value.category == categories[0]
  {
    var textLower := Lower(text);
    var scores: map<string, nat> := map[];
    for i := 0 to |categories|
      invariant ScoreTable(text, categories[..i], scores)
    {
      var cat := categories[i];
      TableStep(text, categories, i, scores);
      scores := scores[cat := Count(textLower, Lower(cat))];
    }
    assert categories[..|categories|] == categories;
    if |categories| == 0 {
      return Err(NoCategories);
    }
    var best := 0;
    for i := 1 to |categories|
      invariant best < i
      invariant FirstMaximal(text, categories[..i], best)
    {
      assert categories[i] in categories && categories[best] in categories;
      MaxStep(text, categories, i, best);
      if scores[categories[i]] > scores[categories[best]] {
        best := i;
      }
    }
    r := Ok(Classification(categories[best], scores));
  }

  /**
   * The empty category matches len(text) + 1 times, more than any non-empty
   * one can, so its first position is chosen whenever it is listed.
   */
  lemma EmptyCategoryWins(text: string, cats: seq<string>, k: nat)
    requires k < |cats| && cats[k] == "" && forall j :: 0 <= j < k ==> cats[j] != ""
    ensures FirstMaximal(text, cats, k)
  {
    forall j | 0 <= j < |cats| && cats[j] != ""
      ensures Score(text, cats[j]) < Score(text, cats[k])
    {
      CountMeaning(Lower(text), Lower(cats[j]));
    }
  }

  /** A non-empty category scores above 0 exactly when it occurs, ignoring case. */
  lemma ScoreMeaning(text: string, cat: string)
    requires |cat| > 0
    ensures Score(text, cat) > 0 <==> Contains(Lower(text), Lower(cat))
  {
    CountMeaning(Lower(text), Lower(cat));
  }
}
