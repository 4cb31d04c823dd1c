/**
 * The word-frequency fallback of the NLP runner's keyword extractor
 * (`extract_keywords` when spaCy is unavailable): the lowercased text is split
 * on whitespace, words longer than 3 characters are counted in a dictionary
 * (which remembers first-insertion order), the entries are sorted by
 * decreasing count with a stable sort, and the first `topK` are returned.
 * The float `score` (count divided by the number of words) is not modelled.
 */
module NlpKeywords {
  import opened PyText

  datatype Keyword = Keyword(keyword: string, frequency: nat)

  /** Only words longer than three characters are counted. */
  predicate Counted(w: string)
  {
    |w| > 3
  }

  function Occurrences(ws: seq<string>, w: string): nat
  {
    multiset(ws)[w]
  }

  /** The distinct counted words of `ws`, in order of first occurrence. */
  function DistinctCounted(ws: seq<string>): (d: seq<string>)
    ensures forall w :: w in d <==> w in ws && Counted(w)
    decreases |ws|
  {
    if |ws| == 0 then []
    else
      var d := DistinctCounted(ws[..|ws| - 1]);
      var w := ws[|ws| - 1];
      if Counted(w) && w !in d then d + [w] else d
  }

  /** The position of the first occurrence of `w` in `ws`. */
  function FirstIndex(ws: seq<string>, w: string): (i: nat)
    requires w in ws
    ensures i < |ws| && ws[i] == w && w !in ws[..i]
  {
    if ws[0] == w then 0 else 1 + FirstIndex(ws[1..], w)
  }

  lemma FirstIndexExtend(ws: seq<string>, x: string, w: string)
    requires w in ws
    ensures FirstIndex(ws + [x], w) == FirstIndex(ws, w)
  {
    if ws[0] != w {
      assert (ws + [x])[1..] == ws[1..] + [x];
      FirstIndexExtend(ws[1..], x, w);
    }
  }

  /**
   * The dictionary's keys are exactly the counted words of `ws`, without
   * repetition, in order of first occurrence.
   */
  lemma {:induction false} DistinctCountedMeaning(ws: seq<string>)
    ensures forall i, j :: 0 <= i < j < |DistinctCounted(ws)| ==> DistinctCounted(ws)[i] != DistinctCounted(ws)[j]
    ensures forall i, j :: 0 <= i < j < |DistinctCounted(ws)| ==>
              FirstIndex(ws, DistinctCounted(ws)[i]) < FirstIndex(ws, DistinctCounted(ws)[j])
    decreases |ws|
  {
    if |ws| > 0 {
      var init, w := ws[..|ws| - 1], ws[|ws| - 1];
      assert ws == init + [w];
      DistinctCountedMeaning(init);
      var d0 := DistinctCounted(init);
      var d := DistinctCounted(ws);
      forall i | 0 <= i < |d0|
        ensures d0[i] in init && FirstIndex(ws, d0[i]) == FirstIndex(init, d0[i])
      {
        assert d0[i] in d0;
        FirstIndexExtend(init, w, d0[i]);
      }
      if Counted(w) && w !in d0 {
        assert d == d0 + [w];
        assert w !in init;
        assert FirstIndex(ws, w) == |init|;
        forall i, j | 0 <= i < j < |d|
          ensures d[i] != d[j] && FirstIndex(ws, d[i]) < FirstIndex(ws, d[j])
        {
          if j < |d0| {
            assert d[i] == d0[i] && d[j] == d0[j];
          } else {
            assert d[i] == d0[i] && d[i] in init && d[j] == w;
          }
        }
      } else {
        assert d == d0;
      }
    }
  }

  /**
   * The counting loop: `keys` lists the dictionary's keys in insertion order
   * and `freq` is the dictionary itself.
   */
  method CountWords(words: seq<string>) returns (keys: seq<string>, freq: map<string, nat>)
    ensures keys == DistinctCounted(words)
    ensures forall w :: w in freq <==> w in keys
    ensures forall w :: w in freq ==> freq[w] == Occurrences(words, w)
  {
    keys := [];
    freq := map[];
    for i := 0 to |words|
      invariant keys == DistinctCounted(words[..i])
      invariant forall w :: w in freq <==> w in keys
      invariant forall w :: w in freq ==> freq[w] == Occurrences(words[..i], w)
    {
      var w := words[i];
      assert words[..i + 1] == words[..i] + [w];
      assert multiset(words[..i + 1]) == multiset(words[..i]) + multiset{w};
      if |w| > 3 {
        if w in freq {
          freq := freq[w := freq[w] + 1];
        } else {
          keys := keys + [w];
          freq := freq[w := 1];
        }
      }
    }
    assert words[..|words|] == words;
  }

  /** The dictionary's items, in insertion order. */
  function Items(keys: seq<string>, freq: map<string, nat>): (ks: seq<Keyword>)
    requires forall w :: w in keys ==> w in freq
    ensures |ks| == |keys|
    ensures forall i :: 0 <= i < |keys| ==> ks[i] == Keyword(keys[i], freq[keys[i]])
  {
    if |keys| == 0 then []
    else [Keyword(keys[0], freq[keys[0]])] + Items(keys[1..], freq)
  }

  // ---------------------------------------------------------------------------
  // sorted(items, key=lambda x: -x[1]): a stable sort by decreasing count
  // ---------------------------------------------------------------------------

  predicate ByDecreasingFrequency(ks: seq<Keyword>)
  {
    forall i, j :: 0 <= i < j < |ks| ==> ks[i].frequency >= ks[j].frequency
  }

  /** The entries of `ks` with frequency `c`, in their order in `ks`. */
  function WithFrequency(ks: seq<Keyword>, c: nat): seq<Keyword>
  {
    if |ks| == 0 then []
    else (if ks[0].frequency == c then [ks[0]] else []) + WithFrequency(ks[1..], c)
  }

  /** Places `x` after every entry whose frequency is at least its own. */
  function Insert(s: seq<Keyword>, x: Keyword): seq<Keyword>
    decreases |s|
  {
    if |s| == 0 || s[|s| - 1].frequency >= x.frequency then s + [x]
    else Insert(s[..|s| - 1], x) + [s[|s| - 1]]
  }

  function SortByFrequency(ks: seq<Keyword>): seq<Keyword>
    decreases |ks|
  {
    if |ks| == 0 then [] else Insert(SortByFrequency(ks[..|ks| - 1]), ks[|ks| - 1])
  }

  lemma WithFrequencyAppend(a: seq<Keyword>, b: seq<Keyword>, c: nat)
    ensures WithFrequency(a + b, c) == WithFrequency(a, c) + WithFrequency(b, c)
  {
    if |a| > 0 {
      assert (a + b)[1..] == a[1..] + b;
      WithFrequencyAppend(a[1..], b, c);
    } else {
      assert a + b == b;
    }
  }

  lemma {:induction false} InsertPermutes(s: seq<Keyword>, x: Keyword)
    ensures multiset(Insert(s, x)) == multiset(s) + multiset{x}
    decreases |s|
  {
    if !(|s| == 0 || s[|s| - 1].frequency >= x.frequency) {
      var init, last := s[..|s| - 1], s[|s| - 1];
      assert s == init + [last];
      InsertPermutes(init, x);
    }
  }

  lemma {:induction false} InsertSorted(s: seq<Keyword>, x: Keyword)
    requires ByDecreasingFrequency(s)
    ensures ByDecreasingFrequency(Insert(s, x))
    decreases |s|
  {
    if !(|s| == 0 || s[|s| - 1].frequency >= x.frequency) {
      var init, last := s[..|s| - 1], s[|s| - 1];
      assert s == init + [last];
      InsertSorted(init, x);
      InsertPermutes(init, x);
      var r0 := Insert(init, x);
      forall i | 0 <= i < |r0|
        ensures r0[i].frequency >= last.frequency
      {
        assert r0[i] in multiset(r0);
        if r0[i] != x {
          assert r0[i] in multiset(init);
          var j :| 0 <= j < |init| && init[j] == r0[i];
          assert s[j] == init[j];
        }
      }
    }
  }

  lemma {:induction false} InsertStable(s: seq<Keyword>, x: Keyword, c: nat)
    ensures WithFrequency(Insert(s, x), c) == WithFrequency(s, c) + WithFrequency([x], c)
    decreases |s|
  {
    if |s| == 0 || s[|s| - 1].frequency >= x.frequency {
      WithFrequencyAppend(s, [x], c);
    } else {
      var init, last := s[..|s| - 1], s[|s| - 1];
      assert s == init + [last];
      InsertStable(init, x, c);
      WithFrequencyAppend(Insert(init, x), [last], c);
      WithFrequencyAppend(init, [last], c);
      assert last.frequency == c ==> x.frequency != c;
    }
  }

  /**
   * The stable sort orders by decreasing frequency, is a permutation, and keeps
   * entries of equal frequency in their original relative order.
   */
  lemma {:induction false} SortByFrequencyCorrect(ks: seq<Keyword>)
    ensures ByDecreasingFrequency(SortByFrequency(ks))
    ensures multiset(SortByFrequency(ks)) == multiset(ks)
    ensures forall c :: WithFrequency(SortByFrequency(ks), c) == WithFrequency(ks, c)
    decreases |ks|
  {
    if |ks| > 0 {
      var init, x := ks[..|ks| - 1], ks[|ks| - 1];
      assert ks == init + [x];
      SortByFrequencyCorrect(init);
      InsertSorted(SortByFrequency(init), x);
      InsertPermutes(SortByFrequency(init), x);
      forall c
        ensures WithFrequency(SortByFrequency(ks), c) == WithFrequency(ks, c)
      {
        InsertStable(SortByFrequency(init), x, c);
        WithFrequencyAppend(init, [x], c);
      }
    }
  }

  /** `s[:k]` keeps at most k entries (none for k <= -|s|) and is a prefix of `s`. */
  lemma TakePrefix<T>(s: seq<T>, k: int)
    ensures |PySlice(s, 0, k)| <= |s| && PySlice(s, 0, k) == s[..|PySlice(s, 0, k)|]
    ensures k >= 0 ==> |PySlice(s, 0, k)| == if k < |s| then k else |s|
    ensures k < 0 ==> |PySlice(s, 0, k)| == if -k < |s| then |s| + k else 0
  {
  }

  /** The dictionary the counting loop builds, as a map comprehension. */
  function FrequencyOf(words: seq<string>): (m: map<string, nat>)
    ensures forall w :: w in m <==> w in words && Counted(w)
  {
    map w | w in words && Counted(w) :: Occurrences(words, w)
  }

  /** The dictionary's items for `words`, in insertion order. */
  function Table(words: seq<string>): seq<Keyword>
  {
    Items(DistinctCounted(words), FrequencyOf(words))
  }

  /** `sorted(freq.items(), key=lambda x: -x[1])[:top_k]` */
  function TopKeywords(words: seq<string>, topK: int): seq<Keyword>
  {
    PySlice(SortByFrequency(Table(words)), 0, topK)
  }

  /** The keywords returned for `text` and `topK`. */
  method ExtractKeywords(text: string, topK: int) returns (r: seq<Keyword>)
    ensures r == TopKeywords(Words(Lower(text)), topK)
  {
    var words := Words(Lower(text));
    var keys, freq := CountWords(words);
    assert freq == FrequencyOf(words);
    r := PySlice(SortByFrequency(Items(keys, freq)), 0, topK);
  }

  /** Every entry of the table is a counted word with its number of occurrences. */
  lemma TableEntries(words: seq<string>)
    ensures forall i :: 0 <= i < |Table(words)| ==>
      && Counted(Table(words)[i].keyword) && Table(words)[i].keyword in words
      && Table(words)[i].frequency == Occurrences(words, Table(words)[i].keyword)
  {
  }

  /** The entries returned are table entries. */
  lemma ReturnedFromTable(words: seq<string>, topK: int)
    ensures forall i :: 0 <= i < |TopKeywords(words, topK)| ==>
      && Counted(TopKeywords(words, topK)[i].keyword) && TopKeywords(words, topK)[i].keyword in words
      && TopKeywords(words, topK)[i].frequency == Occurrences(words, TopKeywords(words, topK)[i].keyword)
  {
    var table := Table(words);
    TableEntries(words);
    var sorted := SortByFrequency(table);
    SortByFrequencyCorrect(table);
    TakePrefix(sorted, topK);
    var r := TopKeywords(words, topK);
    forall i | 0 <= i < |r|
      ensures Counted(r[i].keyword) && r[i].keyword in words
      ensures r[i].frequency == Occurrences(words, r[i].keyword)
    {
      assert r[i] == sorted[i];
      assert sorted[i] in multiset(table);
      var j :| 0 <= j < |table| && table[j] == sorted[i];
    }
  }

  /** The table lists the counted words in order of first occurrence. */
  lemma TableOrder(words: seq<string>)
    ensures forall i, j :: 0 <= i < j < |Table(words)| ==>
      FirstIndex(words, Table(words)[i].keyword) < FirstIndex(words, Table(words)[j].keyword)
  {
    DistinctCountedMeaning(words);
    var d := DistinctCounted(words);
    assert forall i :: 0 <= i < |Table(words)| ==> Table(words)[i].keyword == d[i];
  }

  /**
   * What the caller receives: counted words only, each with its number of
   * occurrences, in decreasing order of frequency, with at most `topK` of them
   * (all of them when `topK` covers the table); entries of equal frequency keep
   * their relative order from the table, which is the order of first occurrence.
   */
  lemma KeywordsProperties(words: seq<string>, topK: int)
    ensures forall i :: 0 <= i < |TopKeywords(words, topK)| ==>
      && Counted(TopKeywords(words, topK)[i].keyword) && TopKeywords(words, topK)[i].keyword in words
      && TopKeywords(words, topK)[i].frequency == Occurrences(words, TopKeywords(words, topK)[i].keyword)
    ensures ByDecreasingFrequency(TopKeywords(words, topK))
    ensures forall c :: WithFrequency(SortByFrequency(Table(words)), c) == WithFrequency(Table(words), c)
    ensures forall i, j :: 0 <= i < j < |Table(words)| ==>
      FirstIndex(words, Table(words)[i].keyword) < FirstIndex(words, Table(words)[j].keyword)
    ensures topK >= 0 ==> |TopKeywords(words, topK)| <= topK
    ensures topK >= |Table(words)| ==> multiset(TopKeywords(words, topK)) == multiset(Table(words))
  {
    ReturnedFromTable(words, topK);
    TableOrder(words);
    SortByFrequencyCorrect(Table(words));
    TopSortedAndBounded(words, topK);
  }

  lemma PrefixSorted(s: seq<Keyword>, k: int)
    requires ByDecreasingFrequency(s)
    ensures ByDecreasingFrequency(PySlice(s, 0, k))
  {
    TakePrefix(s, k);
    var r := PySlice(s, 0, k);
    assert forall i :: 0 <= i < |r| ==> r[i] == s[i];
  }

  lemma TopSortedAndBounded(words: seq<string>, topK: int)
    ensures ByDecreasingFrequency(TopKeywords(words, topK))
    ensures topK >= 0 ==> |TopKeywords(words, topK)| <= topK
    ensures topK >= |Table(words)| ==> TopKeywords(words, topK) == SortByFrequency(Table(words))
  {
    var table := Table(words);
    var sorted := SortByFrequency(table);
    SortByFrequencyCorrect(table);
    assert |sorted| == |table| by {
      assert |multiset(sorted)| == |multiset(table)|;
    }
    TakePrefix(sorted, topK);
    PrefixSorted(sorted, topK);
  }
}
