/** Topic detection: cluster labels are reduced to fixed topic codes by an ordered
    keyword table. The embedding model and the topic-modelling library are not modelled;
    what the library reports for a batch (the topic id of every message, the topic ids
    of its topic table, and each topic's ranked words) is an input. */
module TopicDetection {
  import opened PyText

  /** The keyword table, in definition order: the first keyword found in a label decides. */
  const TopicMapping: seq<(string, string)> := [
    ("kailah", "KAILAH"), ("daughter", "KAILAH"), ("child", "KAILAH"), ("baby", "KAILAH"),
    ("parenting", "VISITS"), ("custody", "VISITS"), ("visitation", "VISITS"), ("visit", "VISITS"),
    ("call", "CALLS"), ("phone", "CALLS"), ("contact", "CALLS"),
    ("school", "SCHOOL"), ("education", "SCHOOL"), ("teacher", "SCHOOL"),
    ("money", "MONEY"), ("financial", "MONEY"), ("bills", "MONEY"), ("rent", "MONEY"),
    ("payment", "MONEY"),
    ("health", "HEALTH"), ("medical", "HEALTH"), ("doctor", "HEALTH"), ("hospital", "HEALTH"),
    ("medication", "HEALTH"),
    ("alcohol", "SUBST"), ("drug", "SUBST"), ("adderall", "SUBST"), ("substance", "SUBST"),
    ("drunk", "SUBST"),
    ("cheat", "INFID"), ("affair", "INFID"), ("infidelity", "INFID"), ("loyal", "INFID"),
    ("threat", "THREAT"), ("hurt", "THREAT"), ("kill", "THREAT"), ("harm", "THREAT")
  ]

  /** The code for outliers, for labels no keyword matches, and for too-small batches. */
  const General := "GENRL"

  /** The topic id the topic model gives a message it could not place. */
  const Outlier := -1

  /** Every code a message can receive. */
  const TopicCodes: set<string> :=
    {"KAILAH", "VISITS", "CALLS", "SCHOOL", "MONEY", "HEALTH", "SUBST", "INFID", "THREAT", General}

  // ---------------------------------------------------------------------------
  // Label to code
  // ---------------------------------------------------------------------------

  /** The code of the first table entry, from index `i` on, whose keyword occurs in `lower`. */
  function FirstMatch(lower: string, i: nat): string
    decreases |TopicMapping| - i
  {
    if i >= |TopicMapping| then General
    else if Contains(lower, TopicMapping[i].0) then TopicMapping[i].1
    else FirstMatch(lower, i + 1)
  }

  /** `_map_to_code`: scan the table in order for a keyword that is a substring of the
      lower-cased label. */
  function MapToCode(topicLabel: string): string
  {
    FirstMatch(Lower(topicLabel), 0)
  }

  /** No table entry before index `k` has a keyword occurring in `lower`. */
  predicate NoMatchBefore(lower: string, k: nat)
    requires k <= |TopicMapping|
  {
    forall j :: 0 <= j < k ==> !Contains(lower, TopicMapping[j].0)
  }

  lemma {:induction false} FirstMatchFinds(lower: string, i: nat, k: nat)
    requires i <= k < |TopicMapping|
    requires Contains(lower, TopicMapping[k].0)
    requires forall j :: i <= j < k ==> !Contains(lower, TopicMapping[j].0)
    ensures FirstMatch(lower, i) == TopicMapping[k].1
    decreases k - i
  {
    if i < k {
      FirstMatchFinds(lower, i + 1, k);
    }
  }

  lemma {:induction false} FirstMatchMisses(lower: string, i: nat)
    requires i <= |TopicMapping|
    requires forall j :: i <= j < |TopicMapping| ==> !Contains(lower, TopicMapping[j].0)
    ensures FirstMatch(lower, i) == General
    decreases |TopicMapping| - i
  {
    if i < |TopicMapping| {
      FirstMatchMisses(lower, i + 1);
    }
  }

  /** The code is that of the first entry, in definition order, whose keyword occurs in the
      lower-cased label. */
  lemma MapToCodeFirstKeyword(topicLabel: string, k: nat)
    requires k < |TopicMapping|
    requires Contains(Lower(topicLabel), TopicMapping[k].0)
    requires NoMatchBefore(Lower(topicLabel), k)
    ensures MapToCode(topicLabel) == TopicMapping[k].1
  {
    FirstMatchFinds(Lower(topicLabel), 0, k);
  }

  /** A label in which no keyword occurs maps to the general code. */
  lemma MapToCodeNoKeyword(topicLabel: string)
    requires NoMatchBefore(Lower(topicLabel), |TopicMapping|)
    ensures MapToCode(topicLabel) == General
  {
    FirstMatchMisses(Lower(topicLabel), 0);
  }

  /** The empty label (a topic without a label) maps to the general code. */
  lemma EmptyLabelIsGeneral()
    ensures MapToCode("") == General
  {
    forall j | 0 <= j < |TopicMapping| ensures !Contains(Lower(""), TopicMapping[j].0) {
      assert |TopicMapping[j].0| > 0;
    }
    MapToCodeNoKeyword("");
  }

  /** The mapping ignores case. */
  lemma MapToCodeIgnoresCase(topicLabel: string)
    ensures MapToCode(Lower(topicLabel)) == MapToCode(topicLabel)
  {
    LowerIdempotent(topicLabel);
  }

  lemma {:induction false} FirstMatchIsCode(lower: string, i: nat)
    ensures FirstMatch(lower, i) in TopicCodes
    decreases |TopicMapping| - i
  {
    if i < |TopicMapping| {
      FirstMatchIsCode(lower, i + 1);
    }
  }

  /** Every code produced belongs to the closed set of topic codes. */
  lemma MapToCodeIsTopicCode(topicLabel: string)
    ensures MapToCode(topicLabel) in TopicCodes
  {
    FirstMatchIsCode(Lower(topicLabel), 0);
  }

  /** No keyword of the entries `from` to `to - 1` occurs in `lower` when `ws[j - from]` is a
      letter of entry `j`'s keyword that `lower` lacks. */
  lemma NoMatchByAbsentLetters(lower: string, ws: string, from: nat, to: nat)
    requires from <= to <= |TopicMapping| && |ws| == to - from
    requires forall j | from <= j < to :: ws[j - from] in TopicMapping[j].0
    requires forall i | 0 <= i < |ws| :: ws[i] !in lower
    ensures forall j | from <= j < to :: !Contains(lower, TopicMapping[j].0)
  {
    forall j | from <= j < to
      ensures !Contains(lower, TopicMapping[j].0)
    {
      AbsentCharNotContained(lower, TopicMapping[j].0, ws[j - from]);
    }
  }

  /** `kailah` comes first in the table, so it wins over `school` and `daughter`. */
  lemma KailahLabelExample()
    ensures MapToCode("kailah_school_daughter") == "KAILAH"
  {
    var s := "kailah_school_daughter";
    assert TopicMapping[0] == ("kailah", "KAILAH");
    assert StartsWith(s, "kailah");
    StartsWithContains(s, "kailah");
    LowerOfLowerCase(s);
    MapToCodeFirstKeyword(s, 0);
  }

  /** `call` matches inside `recall`: the match is a substring match, not a word match. */
  lemma RecallExample()
    ensures MapToCode("recall") == "CALLS"
  {
    LowerOfLowerCase("recall");
    MapToCodeFirstKeyword("recall", 8);
  }

  /** A letter of each keyword of the entries 0 to 7, and of the entries 9 and 10. */
  lemma SchoolLabelWitnesses()
    ensures forall j | 0 <= j < 8 :: "kddypuvv"[j - 0] in TopicMapping[j].0
    ensures forall j | 9 <= j < 11 :: "pn"[j - 9] in TopicMapping[j].0
    ensures TopicMapping[8].0 == "call"
  {
  }

  /** `call` does not occur in `school_teacher_bills`, although all its letters do. */
  lemma SchoolLabelLacksCall()
    ensures !Contains("school_teacher_bills", "call")
  {
    AbsentPairNotContained("school_teacher_bills", "call");
  }

  /** No keyword before `school` occurs in `school_teacher_bills`. */
  lemma SchoolLabelNoEarlierKeyword()
    ensures NoMatchBefore("school_teacher_bills", 11)
  {
    var s := "school_teacher_bills";
    SchoolLabelWitnesses();
    NoMatchByAbsentLetters(s, "kddypuvv", 0, 8);
    NoMatchByAbsentLetters(s, "pn", 9, 11);
    forall j | 0 <= j < 11
      ensures !Contains(s, TopicMapping[j].0)
    {
      if j == 8 {
        SchoolLabelLacksCall();
      }
    }
  }

  /** `school` comes before `bills` in the table, whatever their places in the label. */
  lemma SchoolBeforeBillsExample()
    ensures MapToCode("school_teacher_bills") == "SCHOOL"
  {
    var s := "school_teacher_bills";
    SchoolLabelNoEarlierKeyword();
    assert TopicMapping[11] == ("school", "SCHOOL");
    assert StartsWith(s, "school");
    StartsWithContains(s, "school");
    LowerOfLowerCase(s);
    MapToCodeFirstKeyword(s, 11);
  }

  /** A letter of each keyword of the entries 0 to 16. */
  lemma RentLabelWitnesses()
    ensures forall j | 0 <= j < 17 :: "kdcbicvvchcsdcofb"[j - 0] in TopicMapping[j].0
    ensures TopicMapping[17] == ("rent", "MONEY")
  {
  }

  /** `rent` is the first keyword of the table that occurs in `rent_payment`. */
  lemma RentPaymentExample()
    ensures MapToCode("rent_payment") == "MONEY"
  {
    var s := "rent_payment";
    RentLabelWitnesses();
    NoMatchByAbsentLetters(s, "kdcbicvvchcsdcofb", 0, 17);
    assert StartsWith(s, "rent");
    StartsWithContains(s, "rent");
    LowerOfLowerCase(s);
    MapToCodeFirstKeyword(s, 17);
  }

  // ---------------------------------------------------------------------------
  // Labels and per-message codes
  // ---------------------------------------------------------------------------

  /** What the topic-modelling library reports after fitting a batch. */
  datatype Clustering = Clustering(
    topics: seq<int>,              // the topic id of each message; `Outlier` if unplaced
    topicInfo: seq<int>,           // the topic ids listed in the library's topic table, in row order
    words: map<int, seq<string>>)  // each topic's words, most relevant first; absent means none

  /** The result of one detection call, without the embeddings. */
  datatype Detection = Detection(
    topics: seq<int>,
    topicLabels: map<int, string>,
    topicCodes: seq<string>)

  /** A topic's label: its top three words (fewer if it has fewer) joined by `_`. */
  function Label(words: seq<string>): string
  {
    JoinWith(PySlice(words, 0, 3), '_')
  }

  /** A topic of the table that receives a label: not the outlier topic, and with words. */
  predicate Labelled(topicInfo: seq<int>, words: map<int, seq<string>>, id: int)
  {
    id in topicInfo && id != Outlier && id in words && |words[id]| > 0
  }

  /** The `topic_labels` map for a topic table. */
  function TopicLabels(topicInfo: seq<int>, words: map<int, seq<string>>): map<int, string>
  {
    map id | id in topicInfo && Labelled(topicInfo, words, id) :: Label(words[id])
  }

  /** The code of a message assigned topic `id`. */
  function CodeFor(id: int, labels: map<int, string>): string
  {
    if id == Outlier then General
    else MapToCode(if id in labels then labels[id] else "")
  }

  /** `fit_and_detect` as a function of the messages and of what the library reports. */
  function Detect(messages: seq<string>, c: Clustering): Detection
  {
    if |messages| < 2 then
      Detection(seq(|messages|, _ => Outlier), map[], seq(|messages|, _ => General))
    else
      var labels := TopicLabels(c.topicInfo, c.words);
      Detection(c.topics, labels, seq(|c.topics|, i requires 0 <= i < |c.topics| => CodeFor(c.topics[i], labels)))
  }

  /** A batch of fewer than two messages is never clustered: whatever the library would have
      reported, every message is an outlier with the general code and there are no labels. */
  lemma SmallBatchSkipsClustering(messages: seq<string>, c: Clustering, c': Clustering)
    requires |messages| < 2
    ensures Detect(messages, c) == Detect(messages, c')
    ensures var d := Detect(messages, c);
      |d.topics| == |d.topicCodes| == |messages| && d.topicLabels == map[]
      && (forall i :: 0 <= i < |messages| ==> d.topics[i] == Outlier && d.topicCodes[i] == General)
  {
  }

  /** One code per message, in message order; outliers get the general code; every other
      message gets the code of its topic's label, or of the empty label if its topic has none;
      and every code is a topic code. */
  lemma {:induction false} DetectCodes(messages: seq<string>, c: Clustering)
    requires |messages| >= 2 ==> |c.topics| == |messages|
    ensures var d := Detect(messages, c);
      && |d.topics| == |d.topicCodes| == |messages|
      && (forall i :: 0 <= i < |messages| && d.topics[i] == Outlier ==> d.topicCodes[i] == General)
      && (forall i :: 0 <= i < |messages| && d.topics[i] != Outlier && d.topics[i] !in d.topicLabels
            ==> d.topicCodes[i] == General)
      && (forall i :: 0 <= i < |messages| && d.topics[i] != Outlier && d.topics[i] in d.topicLabels
            ==> d.topicCodes[i] == MapToCode(d.topicLabels[d.topics[i]]))
      && (forall i :: 0 <= i < |messages| ==> d.topicCodes[i] in TopicCodes)
  {
    var d := Detect(messages, c);
    EmptyLabelIsGeneral();
    forall i | 0 <= i < |messages| ensures d.topicCodes[i] in TopicCodes {
      if |messages| >= 2 && d.topics[i] != Outlier {
        MapToCodeIsTopicCode(if d.topics[i] in d.topicLabels then d.topicLabels[d.topics[i]] else "");
      }
    }
  }

  /** Labels exist exactly for the non-outlier topics of the table that have words, and a
      label splits back at `_` into the topic's top words, in ranked order, when no word
      itself contains `_`. */
  lemma {:induction false} LabelsAreTopWords(c: Clustering, id: int)
    requires forall t :: t in c.words ==> forall k :: 0 <= k < |c.words[t]| ==> '_' !in c.words[t][k]
    ensures id in TopicLabels(c.topicInfo, c.words) <==> Labelled(c.topicInfo, c.words, id)
    ensures id in TopicLabels(c.topicInfo, c.words) ==>
      var ws := c.words[id];
      SplitOn(TopicLabels(c.topicInfo, c.words)[id], '_') == ws[..if |ws| < 3 then |ws| else 3]
  {
    if Labelled(c.topicInfo, c.words, id) {
      var ws := c.words[id];
      var top := PySlice(ws, 0, 3);
      assert top == ws[..if |ws| < 3 then |ws| else 3];
      SplitJoin(top, '_');
    }
  }

  lemma ExampleLabels(words: map<int, seq<string>>)
    requires words == map[0 := ["kailah", "school", "daughter"], 1 := ["rent", "payment"]]
    ensures TopicLabels([-1, 0, 1], words) == map[0 := "kailah_school_daughter", 1 := "rent_payment"]
  {
    assert PySlice(words[0], 0, 3) == ["kailah", "school", "daughter"];
    assert PySlice(words[1], 0, 3) == ["rent", "payment"];
    assert Label(words[0]) == "kailah_school_daughter";
    assert Label(words[1]) == "rent_payment";
    var labels := TopicLabels([-1, 0, 1], words);
    assert labels.Keys == {0, 1} by {
      assert Labelled([-1, 0, 1], words, 0) && Labelled([-1, 0, 1], words, 1);
    }
  }

  lemma ExampleCodes(labels: map<int, string>)
    requires labels == map[0 := "kailah_school_daughter", 1 := "rent_payment"]
    ensures CodeFor(0, labels) == "KAILAH" && CodeFor(1, labels) == "MONEY"
    ensures CodeFor(-1, labels) == General
  {
    KailahLabelExample();
    RentPaymentExample();
  }

  /** The end-to-end example: two topics and an outlier. `kailah` decides the first topic's
      code although `school` is also in its label. */
  lemma DetectExample(messages: seq<string>, c: Clustering)
    requires messages == ["I saw my daughter yesterday", "School call about Kailah", "Rent payment due", "x"]
    requires c == Clustering([0, 0, 1, -1], [-1, 0, 1],
                             map[0 := ["kailah", "school", "daughter"], 1 := ["rent", "payment"]])
    ensures Detect(messages, c)
      == Detection([0, 0, 1, -1], map[0 := "kailah_school_daughter", 1 := "rent_payment"],
                   ["KAILAH", "KAILAH", "MONEY", "GENRL"])
  {
    var labels := TopicLabels(c.topicInfo, c.words);
    ExampleLabels(c.words);
    ExampleCodes(labels);
    var d := Detect(messages, c);
    assert d.topicCodes == ["KAILAH", "KAILAH", "MONEY", "GENRL"];
  }

  // ---------------------------------------------------------------------------
  // The detector object
  // ---------------------------------------------------------------------------

  /** `TopicDetector`: the only state it keeps between calls is whether the topic model has
      been fitted. */
  class TopicDetector {
    var isFitted: bool

    constructor()
      ensures !isFitted
    {
      isFitted := false;
    }

    /** `fit_and_detect`: batches of fewer than two messages are answered without clustering;
        otherwise the model is fitted, the table's topics are labelled and every message's
        topic is mapped to a code. */
    method FitAndDetect(messages: seq<string>, c: Clustering) returns (r: Detection)
      modifies this
      ensures r == Detect(messages, c)
      ensures isFitted == (old(isFitted) || |messages| >= 2)
    {
      if |messages| < 2 {
        return Detection(seq(|messages|, _ => Outlier), map[], seq(|messages|, _ => General));
      }
      isFitted := true;

      var labels: map<int, string> := map[];
      var i := 0;
      while i < |c.topicInfo|
        invariant 0 <= i <= |c.topicInfo|
        invariant labels == TopicLabels(c.topicInfo[..i], c.words)
      {
        var id := c.topicInfo[i];
        assert c.topicInfo[..i + 1] == c.topicInfo[..i] + [id];
        if id != Outlier && id in c.words && |c.words[id]| > 0 {
          labels := labels[id := Label(c.words[id])];
        }
        i := i + 1;
      }
      assert c.topicInfo[..i] == c.topicInfo;

      var codes: seq<string> := [];
      var k := 0;
      while k < |c.topics|
        invariant 0 <= k <= |c.topics|
        invariant |codes| == k
        invariant forall j :: 0 <= j < k ==> codes[j] == CodeFor(c.topics[j], labels)
      {
        var id := c.topics[k];
        if id == Outlier {
          codes := codes + [General];
        } else {
          var topicLabel := if id in labels then labels[id] else "";
          codes := codes + [MapToCode(topicLabel)];
        }
        k := k + 1;
      }
      r := Detection(c.topics, labels, codes);
    }
  }
}
