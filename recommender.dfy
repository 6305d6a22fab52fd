/** The recommendation itself: candidates are the catalogue phones the user
    does not own whose price lies in an income-relative band; they are scored
    against the user's profile vector, ranked by a stable descending sort, and
    the first `topN` are returned. The similarity score is a parameter. */
module Recommender {
  import opened Wrappers
  import opened Catalog
  import opened Features
  import opened Profile
  import opened Ranking

  /** A similarity score between a profile vector and a feature vector. */
  type Similarity = (Vector, Vector) -> real

  /** The price band is [income * BandLow, income * BandHigh], both ends included. */
  const BandLow: real := 0.7
  const BandHigh: real := 1.5

  predicate InPriceBand(income: real, price: real) {
    income * BandLow <= price <= income * BandHigh
  }

  /** A phone is a candidate for `u` when its model is not in the purchase
      history and its price is in the band. */
  predicate Qualifies(u: User, p: Phone) {
    p.model !in u.history && InPriceBand(u.income, p.price)
  }

  /** The qualifying phones, in catalogue order. */
  function Candidates(u: User, phones: seq<Phone>): (r: seq<Phone>)
    ensures |r| <= |phones|
    ensures forall p :: p in r <==> p in phones && Qualifies(u, p)
  {
    if |phones| == 0 then []
    else
      var last := phones[|phones| - 1];
      assert phones == phones[..|phones| - 1] + [last];
      Candidates(u, phones[..|phones| - 1]) + (if Qualifies(u, last) then [last] else [])
  }

  /** Filtering distributes over concatenation: the candidates of a
      catalogue are those of its first part followed by those of the rest, so
      survivors keep their catalogue order and multiplicity. */
  lemma {:induction false} CandidatesAppend(u: User, a: seq<Phone>, b: seq<Phone>)
    ensures Candidates(u, a + b) == Candidates(u, a) + Candidates(u, b)
  {
    if |b| == 0 {
      assert a + b == a;
    } else {
      var init := b[..|b| - 1];
      var last := b[|b| - 1];
      assert (a + b)[..|a + b| - 1] == a + init;
      assert (a + b)[|a + b| - 1] == last;
      CandidatesAppend(u, a, init);
    }
  }

  /** A one-phone catalogue keeps its phone exactly when it qualifies. */
  lemma CandidatesSingle(u: User, p: Phone)
    ensures Candidates(u, [p]) == if Qualifies(u, p) then [p] else []
  {
    assert [p][..0] == [];
  }

  /** The score of a phone against a profile vector. */
  function Score(profile: Vector, sim: Similarity, p: Phone): real {
    sim(profile, FeatureVector(p))
  }

  /** Each candidate paired with its score, in candidate order. */
  function ScoreAll(cands: seq<Phone>, profile: Vector, sim: Similarity): (r: seq<Scored>)
    ensures |r| == |cands|
  {
    seq(|cands|, i requires 0 <= i < |cands| => Scored(cands[i], Score(profile, sim, cands[i])))
  }

  /** All candidates of `u`, ranked by score. */
  function Ranked(u: User, phones: seq<Phone>, sim: Similarity): seq<Scored> {
    SortDesc(ScoreAll(Candidates(u, phones), ProfileVector(u.history, phones), sim))
  }

  /** The slice `s[:n]`: the first n entries, or, for negative n, all but the
      last -n entries. */
  function SliceTo<T>(s: seq<T>, n: int): (r: seq<T>)
    ensures |r| <= |s| && r == s[..|r|]
    ensures n >= 0 ==> |r| == (if n < |s| then n else |s|)
    ensures n < 0 ==> |r| == (if |s| + n > 0 then |s| + n else 0)
  {
    if n >= 0 then (if n < |s| then s[..n] else s)
    else if |s| + n > 0 then s[..|s| + n]
    else []
  }

  /** The phones of the first `topN` ranked candidates. */
  function Recommendations(u: User, phones: seq<Phone>, topN: int, sim: Similarity): (r: seq<Phone>)
    ensures |r| <= |Ranked(u, phones, sim)|
    ensures forall i :: 0 <= i < |r| ==> r[i] == Ranked(u, phones, sim)[i].phone
  {
    var top := SliceTo(Ranked(u, phones, sim), topN);
    seq(|top|, i requires 0 <= i < |top| => top[i].phone)
  }

  lemma {:induction false} ScoreAllSnoc(cands: seq<Phone>, p: Phone, profile: Vector, sim: Similarity)
    ensures ScoreAll(cands + [p], profile, sim)
         == ScoreAll(cands, profile, sim) + [Scored(p, Score(profile, sim, p))]
  {
  }

  /** Every recommended phone comes from the catalogue, is not already owned
      and is priced within the band. */
  lemma RecommendationsQualify(u: User, phones: seq<Phone>, topN: int, sim: Similarity)
    ensures forall p :: p in Recommendations(u, phones, topN, sim) ==>
      p in phones && p.model !in u.history &&
      u.income * BandLow <= p.price <= u.income * BandHigh
  {
    var cands := Candidates(u, phones);
    var scored := ScoreAll(cands, ProfileVector(u.history, phones), sim);
    var ranked := Ranked(u, phones, sim);
    var top := SliceTo(ranked, topN);
    forall p | p in Recommendations(u, phones, topN, sim)
      ensures p in phones && Qualifies(u, p)
    {
      var i :| 0 <= i < |top| && top[i].phone == p;
      assert top[i] == ranked[i];
      assert ranked[i] in multiset(ranked);
      assert ranked[i] in scored;
      var k :| 0 <= k < |scored| && scored[k] == ranked[i];
      assert p == cands[k];
    }
  }

  /** The number of recommendations: `topN` of them, or all candidates when
      fewer qualify; none for `topN == 0`. */
  lemma RecommendationsCount(u: User, phones: seq<Phone>, topN: int, sim: Similarity)
    requires topN >= 0
    ensures |Recommendations(u, phones, topN, sim)|
         == if topN < |Candidates(u, phones)| then topN else |Candidates(u, phones)|
    ensures topN == 0 ==> Recommendations(u, phones, topN, sim) == []
  {
    var ranked := Ranked(u, phones, sim);
    assert |multiset(ranked)| == |ranked|;
  }

  /** The recommendations come out best first: scores never increase. */
  lemma RecommendationsRanked(u: User, phones: seq<Phone>, topN: int, sim: Similarity)
    ensures forall i, j :: 0 <= i < j < |Recommendations(u, phones, topN, sim)| ==>
      Score(ProfileVector(u.history, phones), sim, Recommendations(u, phones, topN, sim)[i])
        >= Score(ProfileVector(u.history, phones), sim, Recommendations(u, phones, topN, sim)[j])
  {
    var profile := ProfileVector(u.history, phones);
    var scored := ScoreAll(Candidates(u, phones), profile, sim);
    var ranked := Ranked(u, phones, sim);
    var r := Recommendations(u, phones, topN, sim);
    SortDescSorted(scored);
    forall k | 0 <= k < |ranked|
      ensures ranked[k].score == Score(profile, sim, ranked[k].phone)
    {
      assert ranked[k] in multiset(ranked);
      assert ranked[k] in scored;
    }
    forall i, j | 0 <= i < j < |r|
      ensures Score(profile, sim, r[i]) >= Score(profile, sim, r[j])
    {
      assert r[i] == ranked[i].phone && r[j] == ranked[j].phone;
    }
  }

  lemma {:induction false} OfScoreAllEqual(s: seq<Scored>, c: real)
    requires forall k :: 0 <= k < |s| ==> s[k].score == c
    ensures OfScore(s, c) == s
  {
    if |s| > 0 {
      OfScoreAllEqual(s[1..], c);
    }
  }

  /** Sorting entries that all have the same score changes nothing. */
  lemma SortOfTiesIsIdentity(s: seq<Scored>, c: real)
    requires forall k :: 0 <= k < |s| ==> s[k].score == c
    ensures SortDesc(s) == s
  {
    var sorted := SortDesc(s);
    forall k | 0 <= k < |sorted|
      ensures sorted[k].score == c
    {
      assert sorted[k] in multiset(sorted);
      assert sorted[k] in s;
    }
    SortDescStable(s, c);
    OfScoreAllEqual(s, c);
    OfScoreAllEqual(sorted, c);
  }

  /** When every candidate gets the same score (as every candidate does when
      the score cannot tell them apart, for instance against an all-zero
      profile), the recommendations are the first candidates in catalogue
      order: the sort being stable, the ranking keeps the filter's order. */
  lemma UniformScoreKeepsCatalogOrder(u: User, phones: seq<Phone>, topN: int, sim: Similarity, c: real)
    requires forall p :: p in Candidates(u, phones) ==>
      Score(ProfileVector(u.history, phones), sim, p) == c
    ensures Recommendations(u, phones, topN, sim) == SliceTo(Candidates(u, phones), topN)
  {
    var cands := Candidates(u, phones);
    var scored := ScoreAll(cands, ProfileVector(u.history, phones), sim);
    forall k | 0 <= k < |scored|
      ensures scored[k].score == c
    {
      assert cands[k] in cands;
    }
    SortOfTiesIsIdentity(scored, c);
    var top := SliceTo(scored, topN);
    var expected := SliceTo(cands, topN);
    assert |top| == |expected|;
    forall i | 0 <= i < |top|
      ensures top[i].phone == expected[i]
    {
      assert top[i] == scored[i] && expected[i] == cands[i];
    }
  }

  /** A user with income 700 who owns phone "A": of the catalogue ["A" at 500,
      "B" at 520], "A" is excluded as owned and "B", inside the band
      [490, 1050], is the single top-1 recommendation, whatever the score. */
  lemma OwnedPhoneExcludedScenario(sim: Similarity)
    ensures
      var a := Phone("A", "", 500.0, 6.0, None, None, None, "Android");
      var b := Phone("B", "", 520.0, 6.1, None, None, None, "Android");
      var u := User(1, 700.0, 30.0, ["A"]);
      Recommendations(u, [a, b], 1, sim) == [b]
  {
    var a := Phone("A", "", 500.0, 6.0, None, None, None, "Android");
    var b := Phone("B", "", 520.0, 6.1, None, None, None, "Android");
    var u := User(1, 700.0, 30.0, ["A"]);
    assert [a, b][..1] == [a];
    assert "B" != "A";
    assert Candidates(u, [a]) == [];
    assert Candidates(u, [a, b]) == [b];
  }

  /** The filtering loop: every catalogue phone that qualifies is scored
      and appended, in catalogue order. */
  method ScoreCandidates(u: User, phones: seq<Phone>, profile: Vector, sim: Similarity)
    returns (scored: seq<Scored>)
    ensures scored == ScoreAll(Candidates(u, phones), profile, sim)
  {
    var low, high := u.income * BandLow, u.income * BandHigh;
    scored := [];
    for i := 0 to |phones|
      invariant scored == ScoreAll(Candidates(u, phones[..i]), profile, sim)
    {
      var p := phones[i];
      assert phones[..i + 1][..i] == phones[..i];
      if p.model !in u.history && low <= p.price <= high {
        ScoreAllSnoc(Candidates(u, phones[..i]), p, profile, sim);
        scored := scored + [Scored(p, sim(profile, FeatureVector(p)))];
      }
    }
    assert phones[..|phones|] == phones;
  }

  /** The recommendation: score the candidates, sort the list in place by
      score, keep the first `topN` phones. */
  method RecommendPhones(u: User, phones: seq<Phone>, topN: int, sim: Similarity)
    returns (r: seq<Phone>)
    ensures r == Recommendations(u, phones, topN, sim)
  {
    var profile := AverageVector(u, phones);
    var scored := ScoreCandidates(u, phones, profile, sim);
    var a := new Scored[|scored|](k requires 0 <= k < |scored| => scored[k]);
    assert a[..] == scored;
    SortByScore(a);
    var top := SliceTo(a[..], topN);
    r := seq(|top|, k requires 0 <= k < |top| => top[k].phone);
  }

  /** The entry point: the first user with identifier `id` gets their
      recommendations; no such user gives None. */
  method RecommendForUser(users: seq<User>, phones: seq<Phone>, id: int, topN: int, sim: Similarity)
    returns (r: Option<seq<Phone>>)
    ensures r.None? <==> forall i :: 0 <= i < |users| ==> users[i].id != id
    ensures r.Some? ==>
      FindUser(users, id).Some? &&
      r.value == Recommendations(FindUser(users, id).value, phones, topN, sim)
  {
    var user := FindUser(users, id);
    if user.None? {
      return None;
    }
    var recs := RecommendPhones(user.value, phones, topN, sim);
    return Some(recs);
  }
}
