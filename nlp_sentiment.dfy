/**
 * The lexicon sentiment command of the NLP runner (`analyze_sentiment`).
 *
 * The text is lowercased, split on whitespace and turned into a SET of words;
 * the numbers of positive and negative hits are the sizes of its intersections
 * with two fixed twelve-word lexicons, so a repeated word counts once.
 * The score is (pos - neg) / (pos + neg) and the label compares it with 0.2.
 * The float `confidence` derived from the score is not modelled.
 */
module NlpSentiment {
  import opened Wrappers
  import opened PyText

  const PositiveWords: set<string> :=
    {"good", "great", "excellent", "amazing", "wonderful", "fantastic",
     "love", "happy", "best", "perfect", "beautiful", "awesome"}

  const NegativeWords: set<string> :=
    {"bad", "terrible", "awful", "horrible", "hate", "worst",
     "poor", "disappointing", "sad", "angry", "ugly", "boring"}

  datatype SentimentLabel = Positive | Negative | Neutral

  /**
   * The command's answer (`polarity` is the `label` key): `matches` holds (positive_matches, negative_matches)
   * and is absent on the early "no hits" return, which reports no counts.
   */
  datatype Sentiment = Sentiment(polarity: SentimentLabel, score: real, matches: Option<(nat, nat)>)

  /** `set(text.lower().split())` */
  function WordSet(text: string): set<string>
  {
    set w | w in Words(Lower(text))
  }

  /** The number of distinct words of `text` that belong to `lexicon`. */
  function Hits(text: string, lexicon: set<string>): nat
  {
    |WordSet(text) * lexicon|
  }

  /** The answer for `pos` positive and `neg` negative hits. */
  function SentimentOf(pos: nat, neg: nat): (r: Sentiment)
    ensures r.matches.None? <==> pos + neg == 0
    ensures r.matches.Some? ==> r.matches.value == (pos, neg)
  {
    var total := pos + neg;
    if total == 0 then Sentiment(Neutral, 0.0, None)
    else
      var score := (pos - neg) as real / total as real;
      var polarity := if score > 0.2 then Positive else if score < -0.2 then Negative else Neutral;
      Sentiment(polarity, score, Some((pos, neg)))
  }

  /**
   * `analyze_sentiment`: no counts are reported exactly when no word of the
   * lower-cased text is in either lexicon; a positive (negative) verdict needs
   * some word of the positive (negative) lexicon.
   */
  function AnalyzeSentiment(text: string): (r: Sentiment)
    ensures r.matches.None? <==>
              forall w :: w in Words(Lower(text)) ==> w !in PositiveWords && w !in NegativeWords
    ensures r.matches.None? ==> r.polarity == Neutral && r.score == 0.0
    ensures r.matches.Some? ==> r.matches.value == (Hits(text, PositiveWords), Hits(text, NegativeWords))
    ensures r.polarity == Positive ==> exists w :: w in Words(Lower(text)) && w in PositiveWords
    ensures r.polarity == Negative ==> exists w :: w in Words(Lower(text)) && w in NegativeWords
  {
    var pos, neg := Hits(text, PositiveWords), Hits(text, NegativeWords);
    SentimentThresholds(pos, neg);
    HitsZero(text, PositiveWords);
    HitsZero(text, NegativeWords);
    SentimentOf(pos, neg)
  }

  /** No hit means no word of the lower-cased text is in the lexicon. */
  lemma HitsZero(text: string, lexicon: set<string>)
    ensures Hits(text, lexicon) == 0 <==> forall w :: w in Words(Lower(text)) ==> w !in lexicon
  {
    if Hits(text, lexicon) != 0 {
      var w :| w in WordSet(text) * lexicon;
    } else {
      assert WordSet(text) * lexicon == {};
      forall w | w in Words(Lower(text)) ensures w !in lexicon {
        assert w in WordSet(text);
        assert w !in WordSet(text) * lexicon;
      }
    }
  }

  lemma DivCompare(x: real, t: real, c: real)
    requires t > 0.0
    ensures x / t > c <==> x > c * t
    ensures x / t < c <==> x < c * t
  {
  }

  /**
   * No lexicon hit gives "neutral" with score 0; otherwise the label is
   * positive iff 5 * (pos - neg) > total, negative iff 5 * (pos - neg) < -total,
   * and the score lies in [-1, 1] with the sign of pos - neg.
   */
  lemma SentimentThresholds(pos: nat, neg: nat)
    ensures var r := SentimentOf(pos, neg);
      && (pos + neg == 0 ==> r.polarity == Neutral && r.score == 0.0)
      && (pos + neg > 0 ==>
            && (r.polarity == Positive <==> 5 * (pos - neg) > pos + neg)
            && (r.polarity == Negative <==> 5 * (pos - neg) < -(pos + neg))
            && -1.0 <= r.score <= 1.0
            && (r.score > 0.0 <==> pos > neg))
  {
    if pos + neg > 0 {
      var d, t := (pos - neg) as real, (pos + neg) as real;
      DivCompare(d, t, 0.2);
      DivCompare(d, t, -0.2);
      DivCompare(d, t, 1.0);
      DivCompare(d, t, -1.0);
      DivCompare(d, t, 0.0);
    }
  }

  lemma LowerSpaceJoin(a: string, b: string)
    ensures Lower(a + " " + b) == Lower(a) + [' '] + Lower(b)
  {
  }

  lemma WordSetJoin(a: string, b: string)
    ensures WordSet(a + " " + b) == WordSet(a) + WordSet(b)
  {
    LowerSpaceJoin(a, b);
    WordsConcat(Lower(a), ' ', Lower(b));
    var ws, xs := Words(Lower(a)), Words(Lower(b));
    assert forall w :: w in ws + xs <==> w in ws || w in xs;
  }

  /** Words are counted as a set: saying the same text twice changes nothing. */
  lemma RepeatedTextSameSentiment(text: string)
    ensures AnalyzeSentiment(text + " " + text) == AnalyzeSentiment(text)
  {
    WordSetJoin(text, text);
    assert WordSet(text + " " + text) == WordSet(text);
  }

  /** Appending words outside both lexicons leaves the result unchanged. */
  lemma NeutralWordsIgnored(text: string, extra: string)
    requires forall w :: w in Words(Lower(extra)) ==> w !in PositiveWords && w !in NegativeWords
    ensures AnalyzeSentiment(text + " " + extra) == AnalyzeSentiment(text)
  {
    WordSetJoin(text, extra);
    DisjointHits(text, extra, PositiveWords);
    DisjointHits(text, extra, NegativeWords);
  }

  lemma DisjointHits(text: string, extra: string, lexicon: set<string>)
    requires WordSet(text + " " + extra) == WordSet(text) + WordSet(extra)
    requires forall w :: w in WordSet(extra) ==> w !in lexicon
    ensures Hits(text + " " + extra, lexicon) == Hits(text, lexicon)
  {
    assert WordSet(text + " " + extra) * lexicon == WordSet(text) * lexicon;
  }
}
