/**
 * Request-level rules of the Graphiti HTTP service: the bearer-token check
 * run before every handler, the keyword rule of the contradiction detector,
 * and the creation-time filter of the temporal query. The knowledge-graph
 * client is abstracted to the list of search results it returns; timestamps
 * are integers on one time scale.
 */
module GraphitiService {
  import opened Wrappers
  import opened PyText

  // ---------------------------------------------------------------------------
  // verify_api_key
  // ---------------------------------------------------------------------------

  datatype AuthOutcome = Accepted | Rejected(status: int, detail: string)

  const BearerPrefix := "Bearer "

  /**
   * The check as written: `apiKey` is the configured key ("" when unset) and
   * `authorization` the header, if sent. The token is the header with every
   * occurrence of "Bearer " removed, not only the leading one.
   */
  function VerifyApiKey(apiKey: string, authorization: Option<string>): (r: AuthOutcome)
    ensures apiKey == "" ==> r == Accepted
    ensures r.Rejected? ==> r.status == 401 || r.status == 403
    ensures apiKey != "" && (authorization.None? || !StartsWith(authorization.value, BearerPrefix)) ==>
              r == Rejected(401, "Missing authorization header")
    ensures r == Accepted && apiKey != "" ==>
              authorization.Some? && StartsWith(authorization.value, BearerPrefix)
              && RemoveAll(authorization.value, BearerPrefix) == apiKey
    ensures apiKey != "" && authorization.Some? && StartsWith(authorization.value, BearerPrefix) ==>
              (r == Accepted <==> RemoveAll(authorization.value, BearerPrefix) == apiKey)
              && (r != Accepted ==> r == Rejected(403, "Invalid API key"))
  {
    if apiKey == "" then Accepted
    else if authorization.None? || authorization.value == "" || !StartsWith(authorization.value, BearerPrefix) then
      Rejected(401, "Missing authorization header")
    else if RemoveAll(authorization.value, BearerPrefix) != apiKey then
      Rejected(403, "Invalid API key")
    else Accepted
  }

  /** The check with the prefix removed once: the token is what follows the leading "Bearer ". */
  function VerifyApiKeyStrict(apiKey: string, authorization: Option<string>): (r: AuthOutcome)
  {
    if apiKey == "" then Accepted
    else if authorization.None? || !StartsWith(authorization.value, BearerPrefix) then
      Rejected(401, "Missing authorization header")
    else if authorization.value[|BearerPrefix|..] != apiKey then
      Rejected(403, "Invalid API key")
    else Accepted
  }

  /**
   * With a key configured, the strict check accepts exactly the header
   * "Bearer " followed by the key; a header with the prefix and another token
   * is refused with 403, and one without the prefix with 401.
   */
  lemma StrictAcceptsExactlyTheKey(apiKey: string, authorization: Option<string>)
    requires apiKey != ""
    ensures VerifyApiKeyStrict(apiKey, authorization) == Accepted <==> authorization == Some(BearerPrefix + apiKey)
    ensures authorization.Some? && StartsWith(authorization.value, BearerPrefix) && authorization.value != BearerPrefix + apiKey ==>
              VerifyApiKeyStrict(apiKey, authorization) == Rejected(403, "Invalid API key")
  {
    if authorization.Some? && StartsWith(authorization.value, BearerPrefix) {
      assert authorization.value == BearerPrefix + authorization.value[|BearerPrefix|..];
    }
  }

  lemma RemoveAllLeading(t: string, p: string)
    requires |p| > 0
    ensures RemoveAll(p + t, p) == RemoveAll(t, p)
  {
    assert StartsWith(p + t, p);
    assert (p + t)[|p|..] == t;
  }

  /**
   * The check as written agrees with the strict one whenever the token after
   * the leading "Bearer " does not itself contain "Bearer ".
   */
  lemma AgreesOnCleanTokens(apiKey: string, authorization: Option<string>)
    requires authorization.Some? && StartsWith(authorization.value, BearerPrefix)
    requires !Contains(authorization.value[|BearerPrefix|..], BearerPrefix)
    ensures VerifyApiKey(apiKey, authorization) == VerifyApiKeyStrict(apiKey, authorization)
  {
    var h := authorization.value;
    var t := h[|BearerPrefix|..];
    assert h == BearerPrefix + t;
    RemoveAllLeading(t, BearerPrefix);
    RemoveAllAbsent(t, BearerPrefix);
  }

  /** The check as written accepts "Bearer abBearer c" for the key "abc". */
  lemma AsWrittenAcceptsSplicedToken()
    ensures VerifyApiKey("abc", Some("Bearer abBearer c")) == Accepted
    ensures VerifyApiKeyStrict("abc", Some("Bearer abBearer c")) == Rejected(403, "Invalid API key")
  {
    var p := BearerPrefix;
    assert RemoveAll("", p) == "";
    assert RemoveAll("c", p) == "c";
    RemoveAllLeading("c", p);
    assert RemoveAll("Bearer c", p) == "c";
    assert !StartsWith("bBearer c", p);
    assert RemoveAll("bBearer c", p) == "bc";
    assert !StartsWith("abBearer c", p);
    assert RemoveAll("abBearer c", p) == "abc";
    RemoveAllLeading("abBearer c", p);
    assert "Bearer abBearer c" == p + "abBearer c";
    assert "Bearer abBearer c"[|p|..] == "abBearer c";
  }

  /** The check as written refuses the key "Bearer x" even when the header is "Bearer Bearer x". */
  lemma AsWrittenRefusesKeyWithPrefix()
    ensures VerifyApiKey("Bearer x", Some("Bearer Bearer x")) == Rejected(403, "Invalid API key")
    ensures VerifyApiKeyStrict("Bearer x", Some("Bearer Bearer x")) == Accepted
  {
    var p := BearerPrefix;
    assert RemoveAll("", p) == "";
    assert RemoveAll("x", p) == "x";
    RemoveAllLeading("x", p);
    assert "Bearer x" == p + "x";
    RemoveAllLeading("Bearer x", p);
    assert "Bearer Bearer x" == p + "Bearer x";
    assert "Bearer Bearer x"[|p|..] == "Bearer x";
  }

  // ---------------------------------------------------------------------------
  // Search results
  // ---------------------------------------------------------------------------

  /**
   * A search result, reduced to the attributes the handlers read; `None`
   * stands for a missing attribute, and `display` for what `str()` gives.
   */
  datatype SearchResult = SearchResult(
    name: Option<string>, display: string, facts: Option<seq<string>>, createdAt: Option<int>)

  /** `r.facts` if the result has facts, else none. */
  function FactsOf(r: SearchResult): seq<string>
  {
    if r.facts.Some? then r.facts.value else []
  }

  /** All facts of the results, result by result, in order. */
  function AllFacts(results: seq<SearchResult>): seq<string>
  {
    if |results| == 0 then [] else AllFacts(results[..|results| - 1]) + FactsOf(results[|results| - 1])
  }

  // ---------------------------------------------------------------------------
  // detect_contradictions
  // ---------------------------------------------------------------------------

  const NegationWords: seq<string> := ["not", "never", "didn't", "wasn't"]

  /** Some negation keyword is a substring of the lower-cased claim. */
  predicate Negated(claim: string)
  {
    exists neg :: neg in NegationWords && Contains(Lower(claim), neg)
  }

  /** Some whitespace word of the lower-cased claim is a substring of the lower-cased fact. */
  predicate SharesWord(claim: string, fact: string)
  {
    exists w :: w in Words(Lower(claim)) && Contains(Lower(fact), w)
  }

  datatype Contradiction = Contradiction(existingFact: string, newClaim: string)

  datatype ContradictionReport = ContradictionReport(contradictions: seq<Contradiction>, hasContradictions: bool)

  /** One entry per fact that shares a word with the claim, in fact order. */
  function MatchingFacts(claim: string, facts: seq<string>): seq<Contradiction>
  {
    if |facts| == 0 then []
    else
      var last := facts[|facts| - 1];
      MatchingFacts(claim, facts[..|facts| - 1]) + (if SharesWord(claim, last) then [Contradiction(last, claim)] else [])
  }

  /** The entries the detector reports for the facts `facts`. */
  function Reported(claim: string, facts: seq<string>): seq<Contradiction>
  {
    if Negated(claim) then MatchingFacts(claim, facts) else []
  }

  lemma ReportedStep(claim: string, facts: seq<string>, f: string)
    ensures Reported(claim, facts + [f]) ==
              Reported(claim, facts) + (if Negated(claim) && SharesWord(claim, f) then [Contradiction(f, claim)] else [])
  {
    assert (facts + [f])[..|facts|] == facts;
  }

  /** The nested scan: results in order, and each result's facts in order. */
  method DetectContradictions(claim: string, existing: seq<SearchResult>) returns (r: ContradictionReport)
    ensures r.contradictions == Reported(claim, AllFacts(existing))
    ensures r.hasContradictions <==> |r.contradictions| > 0
  {
    var contradictions: seq<Contradiction> := [];
    for i := 0 to |existing|
      invariant contradictions == Reported(claim, AllFacts(existing[..i]))
    {
      var facts := FactsOf(existing[i]);
      ghost var before := AllFacts(existing[..i]);
      assert before + facts[..0] == before;
      for j := 0 to |facts|
        invariant contradictions == Reported(claim, before + facts[..j])
      {
        var fact := facts[j];
        ReportedStep(claim, before + facts[..j], fact);
        assert before + facts[..j + 1] == before + facts[..j] + [fact];
        if exists neg :: neg in NegationWords && Contains(Lower(claim), neg) {
          if exists w :: w in Words(Lower(claim)) && Contains(Lower(fact), w) {
            contradictions := contradictions + [Contradiction(fact, claim)];
          }
        }
      }
      assert facts[..|facts|] == facts;
      assert existing[..i + 1][..i] == existing[..i];
    }
    assert existing[..|existing|] == existing;
    r := ContradictionReport(contradictions, |contradictions| > 0);
  }

  lemma {:induction false} MatchingFactsConcat(claim: string, a: seq<string>, b: seq<string>)
    ensures MatchingFacts(claim, a + b) == MatchingFacts(claim, a) + MatchingFacts(claim, b)
    decreases |b|
  {
    if |b| > 0 {
      var b' := b[..|b| - 1];
      assert (a + b)[..|a + b| - 1] == a + b';
      assert (a + b)[|a + b| - 1] == b[|b| - 1];
      MatchingFactsConcat(claim, a, b');
    } else {
      assert a + b == a;
    }
  }

  lemma {:induction false} AllFactsConcat(a: seq<SearchResult>, b: seq<SearchResult>)
    ensures AllFacts(a + b) == AllFacts(a) + AllFacts(b)
    decreases |b|
  {
    if |b| > 0 {
      var b' := b[..|b| - 1];
      assert (a + b)[..|a + b| - 1] == a + b';
      assert (a + b)[|a + b| - 1] == b[|b| - 1];
      AllFactsConcat(a, b');
    } else {
      assert a + b == a;
    }
  }

  /**
   * The report is built fact by fact: the report for two batches of results
   * is the first batch's report followed by the second's, and one fact gives
   * exactly one entry when the claim is negated and shares a word with it,
   * and none otherwise.
   */
  lemma ReportComposes(claim: string, a: seq<SearchResult>, b: seq<SearchResult>, f: string)
    ensures Reported(claim, AllFacts(a + b)) == Reported(claim, AllFacts(a)) + Reported(claim, AllFacts(b))
    ensures Reported(claim, [f]) == if Negated(claim) && SharesWord(claim, f) then [Contradiction(f, claim)] else []
  {
    AllFactsConcat(a, b);
    MatchingFactsConcat(claim, AllFacts(a), AllFacts(b));
    ReportedStep(claim, [], f);
  }

  lemma {:induction false} MatchingFactsEntries(claim: string, facts: seq<string>)
    ensures |MatchingFacts(claim, facts)| <= |facts|
    ensures forall k :: 0 <= k < |MatchingFacts(claim, facts)| ==>
              && MatchingFacts(claim, facts)[k].newClaim == claim
              && MatchingFacts(claim, facts)[k].existingFact in facts
              && SharesWord(claim, MatchingFacts(claim, facts)[k].existingFact)
    decreases |facts|
  {
    if |facts| > 0 {
      var init := facts[..|facts| - 1];
      var last := facts[|facts| - 1];
      MatchingFactsEntries(claim, init);
      var m, mi := MatchingFacts(claim, facts), MatchingFacts(claim, init);
      assert m == mi + (if SharesWord(claim, last) then [Contradiction(last, claim)] else []);
      forall k | 0 <= k < |m|
        ensures m[k].newClaim == claim && m[k].existingFact in facts && SharesWord(claim, m[k].existingFact)
      {
        if k < |mi| {
          assert m[k] == mi[k];
          assert mi[k].existingFact in init;
        }
      }
    }
  }

  /**
   * Every reported entry quotes the claim and a fact of the results that
   * shares a word with it; there is at most one entry per fact, and none
   * unless the claim is negated.
   */
  lemma ReportedEntries(claim: string, facts: seq<string>)
    ensures !Negated(claim) ==> Reported(claim, facts) == []
    ensures |Reported(claim, facts)| <= |facts|
    ensures forall k :: 0 <= k < |Reported(claim, facts)| ==>
              && Reported(claim, facts)[k].newClaim == claim
              && Reported(claim, facts)[k].existingFact in facts
              && SharesWord(claim, Reported(claim, facts)[k].existingFact)
  {
    MatchingFactsEntries(claim, facts);
  }

  // ---------------------------------------------------------------------------
  // query_as_of
  // ---------------------------------------------------------------------------

  datatype AsOfEntry = AsOfEntry(name: string, facts: seq<string>, timestamp: int)

  datatype AsOfAnswer = AsOfAnswer(results: seq<AsOfEntry>, count: nat)

  /** A result is kept when it has a creation time no later than `asOf`. */
  predicate CreatedBy(r: SearchResult, asOf: int)
  {
    r.createdAt.Some? && r.createdAt.value <= asOf
  }

  function EntryOf(r: SearchResult): AsOfEntry
    requires r.createdAt.Some?
  {
    AsOfEntry(if r.name.Some? then r.name.value else r.display, FactsOf(r), r.createdAt.value)
  }

  /** The entries of the kept results, in result order. */
  function KeptAsOf(results: seq<SearchResult>, asOf: int): seq<AsOfEntry>
  {
    if |results| == 0 then []
    else
      var last := results[|results| - 1];
      KeptAsOf(results[..|results| - 1], asOf) + (if CreatedBy(last, asOf) then [EntryOf(last)] else [])
  }

  method QueryAsOf(results: seq<SearchResult>, asOf: int) returns (r: AsOfAnswer)
    ensures r.results == KeptAsOf(results, asOf)
    ensures r.count == |r.results|
  {
    var filtered: seq<AsOfEntry> := [];
    for i := 0 to |results|
      invariant filtered == KeptAsOf(results[..i], asOf)
    {
      assert results[..i + 1][..i] == results[..i];
      var res := results[i];
      var created := res.createdAt;
      if created.Some? && created.value <= asOf {
        var name := if res.name.Some? then res.name.value else res.display;
        filtered := filtered + [AsOfEntry(name, FactsOf(res), created.value)];
      }
    }
    assert results[..|results|] == results;
    r := AsOfAnswer(filtered, |filtered|);
  }

  lemma {:induction false} KeptAsOfConcat(a: seq<SearchResult>, b: seq<SearchResult>, asOf: int)
    ensures KeptAsOf(a + b, asOf) == KeptAsOf(a, asOf) + KeptAsOf(b, asOf)
    decreases |b|
  {
    if |b| > 0 {
      var b' := b[..|b| - 1];
      assert (a + b)[..|a + b| - 1] == a + b';
      assert (a + b)[|a + b| - 1] == b[|b| - 1];
      KeptAsOfConcat(a, b', asOf);
    } else {
      assert a + b == a;
    }
  }

  /**
   * The filter keeps order and works result by result: the answer for two
   * batches is the first batch's followed by the second's, and a single
   * result is kept exactly when it was created by `asOf`.
   */
  lemma AsOfFilterComposes(a: seq<SearchResult>, b: seq<SearchResult>, r: SearchResult, asOf: int)
    ensures KeptAsOf(a + b, asOf) == KeptAsOf(a, asOf) + KeptAsOf(b, asOf)
    ensures KeptAsOf([r], asOf) == if CreatedBy(r, asOf) then [EntryOf(r)] else []
  {
    KeptAsOfConcat(a, b, asOf);
    assert [r][..0] == [];
  }

  /**
   * Every kept entry was created by `asOf`, and a later `asOf` never keeps
   * fewer results.
   */
  lemma {:induction false} AsOfMonotone(results: seq<SearchResult>, early: int, late: int)
    requires early <= late
    ensures forall k :: 0 <= k < |KeptAsOf(results, early)| ==> KeptAsOf(results, early)[k].timestamp <= early
    ensures |KeptAsOf(results, early)| <= |KeptAsOf(results, late)| <= |results|
    decreases |results|
  {
    if |results| > 0 {
      AsOfMonotone(results[..|results| - 1], early, late);
    }
  }
}
