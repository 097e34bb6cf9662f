/** The local tier of the search: the bundled dataset is scored against the
    comma-separated query, recipes that match nothing are dropped, the rest are
    stably sorted by score (highest first) and the first six are returned. The
    dataset arrives as a parameter; a load or parse failure arrives as `None`. */
module LocalMatcher {
  import opened Wrappers
  import opened Text
  import opened Recipes
  import opened StableSort

  /** How many recipes the local tier returns at most. */
  const MaxResults: nat := 6

  // ---------------------------------------------------------------------
  // query terms

  /** A normalised query term: no comma, no surrounding whitespace, no
      upper-case letter. */
  predicate IsTerm(t: string) {
    ',' !in t && IsStripped(t) && NoUpper(t)
  }

  /** Each comma-separated piece of the query, stripped and lower-cased;
      duplicates and empty pieces are kept. */
  function QueryTerms(ingredients: string): (terms: seq<string>)
    ensures |terms| == |Split(ingredients, ',')| >= 1
    ensures forall i :: 0 <= i < |terms| ==> terms[i] == Lower(Strip(Split(ingredients, ',')[i]))
    ensures forall i :: 0 <= i < |terms| ==> IsTerm(terms[i])
  {
    var parts := Split(ingredients, ',');
    var terms := seq(|parts|, i requires 0 <= i < |parts| => Lower(Strip(parts[i])));
    assert forall i :: 0 <= i < |terms| ==> IsTerm(terms[i]) by {
      forall i | 0 <= i < |terms|
        ensures IsTerm(terms[i])
      {
        NormalisedIsTerm(parts[i]);
      }
    }
    terms
  }

  /** A comma-free piece, stripped and lower-cased, is a normal term. */
  lemma NormalisedIsTerm(piece: string)
    requires ',' !in piece
    ensures IsTerm(Lower(Strip(piece)))
  {
    var t := Strip(piece);
    LowerProperties(t);
    assert ',' !in t;
    assert forall k :: 0 <= k < |t| ==> Lower(t)[k] == LowerChar(t[k]);
  }

  /** Joining normalised terms with commas and parsing the result gives the
      same terms back. */
  lemma QueryTermsJoin(terms: seq<string>)
    requires |terms| >= 1
    requires forall i :: 0 <= i < |terms| ==> IsTerm(terms[i])
    ensures QueryTerms(Join(terms, ',')) == terms
  {
    SplitJoin(terms, ',');
    var q := QueryTerms(Join(terms, ','));
    forall i | 0 <= i < |terms|
      ensures q[i] == terms[i]
    {
      StripStripped(terms[i]);
      LowerProperties(terms[i]);
    }
  }

  /** A query that is empty or only whitespace is the single empty term. */
  lemma BlankQueryTerms(ingredients: string)
    requires AllSpace(ingredients)
    ensures QueryTerms(ingredients) == [""]
  {
    assert !IsSpace(',');
    assert ',' !in ingredients;
    StripAllSpace(ingredients);
  }

  // ---------------------------------------------------------------------
  // scoring

  /** Some ingredient of the recipe, lower-cased, contains `term`
      (the `any(...)` over the recipe's ingredients). */
  predicate TermMatches(term: string, ingredients: seq<string>) {
    |ingredients| > 0
    && (Contains(Lower(ingredients[0]), term) || TermMatches(term, ingredients[1..]))
  }

  /** `TermMatches` asks whether some ingredient contains the term. */
  lemma {:induction false} TermMatchesIff(term: string, ingredients: seq<string>)
    ensures TermMatches(term, ingredients)
        <==> exists i :: 0 <= i < |ingredients| && Contains(Lower(ingredients[i]), term)
  {
    if |ingredients| > 0 {
      TermMatchesIff(term, ingredients[1..]);
      assert forall i :: 0 < i < |ingredients| ==> ingredients[1..][i - 1] == ingredients[i];
    }
  }

  /** How many query terms, duplicates included, match some ingredient. */
  function Score(terms: seq<string>, ingredients: seq<string>): (n: nat)
    ensures n <= |terms|
    ensures n == 0 <==> forall i :: 0 <= i < |terms| ==> !TermMatches(terms[i], ingredients)
    ensures n == |terms| <==> forall i :: 0 <= i < |terms| ==> TermMatches(terms[i], ingredients)
  {
    if |terms| == 0 then 0
    else
      var init := terms[..|terms| - 1];
      assert forall i :: 0 <= i < |init| ==> init[i] == terms[i];
      Score(init, ingredients) + (if TermMatches(terms[|terms| - 1], ingredients) then 1 else 0)
  }

  /** The positions of the query terms that match some ingredient. */
  ghost function MatchedPositions(terms: seq<string>, ingredients: seq<string>): set<int> {
    set i | 0 <= i < |terms| && TermMatches(terms[i], ingredients)
  }

  /** The score is the number of matching term positions. */
  lemma {:induction false} ScoreCountsMatchedTerms(terms: seq<string>, ingredients: seq<string>)
    ensures Score(terms, ingredients) == |MatchedPositions(terms, ingredients)|
  {
    if |terms| > 0 {
      var n := |terms| - 1;
      var init := terms[..n];
      ScoreCountsMatchedTerms(init, ingredients);
      var before := MatchedPositions(init, ingredients);
      var after := MatchedPositions(terms, ingredients);
      var last := if TermMatches(terms[n], ingredients) then {n} else {};
      forall i | i in after
        ensures i in before + last
      {
        if i < n { assert init[i] == terms[i]; }
      }
      forall i | i in before + last
        ensures i in after
      {
        if i < n { assert init[i] == terms[i]; }
      }
      assert after == before + last;
      assert n !in before;
    }
  }

  /** The empty term matches every recipe that has an ingredient, and none
      that has not. */
  lemma EmptyTermMatches(ingredients: seq<string>)
    ensures TermMatches("", ingredients) <==> |ingredients| > 0
  {
    if |ingredients| > 0 {
      EmptyContained(Lower(ingredients[0]));
    }
  }

  // ---------------------------------------------------------------------
  // candidates

  /** The recipe with the score it earns for `terms` attached. */
  function Scored(terms: seq<string>, r: Recipe): Recipe {
    r.(matchScore := Some(Score(terms, r.ingredients)))
  }

  /** The sort key: the attached score, 0 for a recipe that has none. */
  function MatchKey(r: Recipe): int {
    r.matchScore.GetOr(0)
  }

  /** Every dataset recipe with its score attached, in dataset order. */
  function ScoredAll(terms: seq<string>, dataset: seq<Recipe>): (s: seq<Recipe>)
    ensures |s| == |dataset|
    ensures forall i :: 0 <= i < |s| ==> s[i] == Scored(terms, dataset[i])
  {
    seq(|dataset|, i requires 0 <= i < |dataset| => Scored(terms, dataset[i]))
  }

  /** The recipes that match at least one term, score attached, in dataset order. */
  function Candidates(terms: seq<string>, dataset: seq<Recipe>): (c: seq<Recipe>)
    ensures |c| <= |dataset|
    ensures forall i :: 0 <= i < |c| ==>
      c[i].matchScore == Some(Score(terms, c[i].ingredients)) && 1 <= MatchKey(c[i]) <= |terms|
  {
    if |dataset| == 0 then []
    else
      (if Score(terms, dataset[0].ingredients) > 0 then [Scored(terms, dataset[0])] else [])
      + Candidates(terms, dataset[1..])
  }

  /** A recipe is a candidate exactly when it is a dataset recipe that scores
      at least 1, with that score attached. */
  lemma {:induction false} CandidatesMembership(terms: seq<string>, dataset: seq<Recipe>, x: Recipe)
    ensures x in Candidates(terms, dataset) <==>
      exists i :: 0 <= i < |dataset| && Score(terms, dataset[i].ingredients) > 0
                  && x == Scored(terms, dataset[i])
  {
    if |dataset| > 0 {
      CandidatesMembership(terms, dataset[1..], x);
      if exists i :: 0 <= i < |dataset[1..]| && Score(terms, dataset[1..][i].ingredients) > 0
                     && x == Scored(terms, dataset[1..][i]) {
        var i :| 0 <= i < |dataset[1..]| && Score(terms, dataset[1..][i].ingredients) > 0
                 && x == Scored(terms, dataset[1..][i]);
        assert dataset[1..][i] == dataset[i + 1];
      }
      if exists i :: 0 <= i < |dataset| && Score(terms, dataset[i].ingredients) > 0
                     && x == Scored(terms, dataset[i]) {
        var i :| 0 <= i < |dataset| && Score(terms, dataset[i].ingredients) > 0
                 && x == Scored(terms, dataset[i]);
        if i > 0 {
          assert dataset[1..][i - 1] == dataset[i];
        }
      }
    }
  }

  /** For every positive score, the candidates with that score are exactly the
      dataset recipes with that score, in dataset order. */
  lemma {:induction false} CandidatesKeepDatasetOrder(terms: seq<string>, dataset: seq<Recipe>, k: int)
    requires k >= 1
    ensures WithKey(Candidates(terms, dataset), MatchKey, k)
         == WithKey(ScoredAll(terms, dataset), MatchKey, k)
  {
    if |dataset| > 0 {
      CandidatesKeepDatasetOrder(terms, dataset[1..], k);
      var head := if Score(terms, dataset[0].ingredients) > 0 then [Scored(terms, dataset[0])] else [];
      WithKeyAppend(head, Candidates(terms, dataset[1..]), MatchKey, k);
      var all := ScoredAll(terms, dataset);
      assert all == [Scored(terms, dataset[0])] + ScoredAll(terms, dataset[1..]);
      WithKeyAppend([Scored(terms, dataset[0])], ScoredAll(terms, dataset[1..]), MatchKey, k);
    }
  }

  // ---------------------------------------------------------------------
  // ranking

  /** The first `n` elements of `s`, or all of them when there are fewer. */
  function Take<T>(s: seq<T>, n: nat): (r: seq<T>)
    ensures |r| == if |s| <= n then |s| else n
    ensures r <= s
  {
    if |s| <= n then s else s[..n]
  }

  /** The local search over a loaded dataset for the parsed query terms:
      candidates stably sorted by score, highest first, cut to six. */
  function MatchLocal(terms: seq<string>, dataset: seq<Recipe>): (r: seq<Recipe>)
    ensures |r| <= MaxResults
    ensures SortedDesc(r, MatchKey)
  {
    var sorted := Sort(Candidates(terms, dataset), MatchKey);
    Take(sorted, MaxResults)
  }

  /** The local tier: the built-in default list when the dataset could not be
      loaded, otherwise the local search for the
      terms of the query. */
  function FetchFromLocalDataset(ingredients: string, dataset: Option<seq<Recipe>>): (r: seq<Recipe>)
    ensures |r| <= MaxResults
    ensures dataset.None? ==> r == DefaultRecipes()
    ensures dataset.Some? ==> r == MatchLocal(QueryTerms(ingredients), dataset.value)
    ensures dataset.Some? ==> forall i :: 0 <= i < |r| ==> r[i].matchScore.Some?
  {
    match dataset
    case None => DefaultRecipes()
    case Some(recipes) =>
      var terms := QueryTerms(ingredients);
      var r := MatchLocal(terms, recipes);
      MatchLocalScores(terms, recipes);
      r
  }

  /** Every recipe the local search returns is a dataset recipe carrying its
      own score, which is between 1 and the number of query terms. */
  lemma MatchLocalScores(terms: seq<string>, dataset: seq<Recipe>)
    ensures var r := MatchLocal(terms, dataset);
      forall i :: 0 <= i < |r| ==>
        && r[i].matchScore == Some(Score(terms, r[i].ingredients))
        && 1 <= MatchKey(r[i]) <= |terms|
        && exists j :: 0 <= j < |dataset| && r[i] == Scored(terms, dataset[j])
  {
    var c := Candidates(terms, dataset);
    var sorted := Sort(c, MatchKey);
    var r := MatchLocal(terms, dataset);
    SortPermutes(c, MatchKey);
    forall i | 0 <= i < |r|
      ensures r[i].matchScore == Some(Score(terms, r[i].ingredients))
      ensures 1 <= MatchKey(r[i]) <= |terms|
      ensures exists j :: 0 <= j < |dataset| && r[i] == Scored(terms, dataset[j])
    {
      assert r[i] == sorted[i];
      assert r[i] in multiset(sorted);
      assert r[i] in c;
      CandidatesMembership(terms, dataset, r[i]);
    }
  }

  /** The local search is the first six of ANY stable descending sort of the
      candidates: the result does not depend on how the sort is carried out. */
  lemma MatchLocalIsTopOfStableSort(terms: seq<string>, dataset: seq<Recipe>, ranked: seq<Recipe>)
    requires IsStableSortOf(ranked, Candidates(terms, dataset), MatchKey)
    ensures MatchLocal(terms, dataset) == Take(ranked, MaxResults)
  {
    StableSortUnique(ranked, Candidates(terms, dataset), MatchKey);
  }

  /** Recipes with equal scores come back in dataset order: for every score,
      the returned recipes with that score are the first ones of the dataset's
      recipes with that score. */
  lemma MatchLocalTiesInDatasetOrder(terms: seq<string>, dataset: seq<Recipe>)
    ensures forall k :: WithKey(MatchLocal(terms, dataset), MatchKey, k)
                  <= WithKey(ScoredAll(terms, dataset), MatchKey, k)
  {
    var c := Candidates(terms, dataset);
    var sorted := Sort(c, MatchKey);
    var r := MatchLocal(terms, dataset);
    SortIsStable(c, MatchKey);
    TakeKeepsClassPrefix(sorted, MatchKey, |r|);
    assert r == sorted[..|r|];
    forall k
      ensures WithKey(r, MatchKey, k) <= WithKey(ScoredAll(terms, dataset), MatchKey, k)
    {
      if k >= 1 {
        CandidatesKeepDatasetOrder(terms, dataset, k);
      } else {
        MatchLocalHasNoZeroScore(terms, dataset, k);
      }
    }
  }

  /** No returned recipe has a score below 1. */
  lemma MatchLocalHasNoZeroScore(terms: seq<string>, dataset: seq<Recipe>, k: int)
    requires k < 1
    ensures WithKey(MatchLocal(terms, dataset), MatchKey, k) == []
  {
    var r := MatchLocal(terms, dataset);
    MatchLocalScores(terms, dataset);
    if |WithKey(r, MatchKey, k)| > 0 {
      WithKeyWitness(r, MatchKey, k);
    }
  }

  /** Nothing is lost but the overflow past six: the result holds
      min(6, number of candidates) recipes, all of them candidates, and all of
      the candidates when there are at most six. */
  lemma MatchLocalCount(terms: seq<string>, dataset: seq<Recipe>)
    ensures var c := Candidates(terms, dataset);
      var r := MatchLocal(terms, dataset);
      && |r| == (if |c| <= MaxResults then |c| else MaxResults)
      && multiset(r) <= multiset(c)
      && (|c| <= MaxResults ==> multiset(r) == multiset(c))
  {
    var c := Candidates(terms, dataset);
    var sorted := Sort(c, MatchKey);
    var r := MatchLocal(terms, dataset);
    SortPermutes(c, MatchKey);
    assert sorted == r + sorted[|r|..];
  }

  /** Every candidate the cut leaves out scores no higher than any recipe
      that is returned. */
  lemma MatchLocalLeftOutScoreLower(terms: seq<string>, dataset: seq<Recipe>, x: Recipe, y: Recipe)
    requires x in multiset(Candidates(terms, dataset)) - multiset(MatchLocal(terms, dataset))
    requires y in MatchLocal(terms, dataset)
    ensures MatchKey(x) <= MatchKey(y)
  {
    var c := Candidates(terms, dataset);
    var sorted := Sort(c, MatchKey);
    var r := MatchLocal(terms, dataset);
    SortPermutes(c, MatchKey);
    assert r == sorted[..|r|];
    CutBelowKept(sorted, MatchKey, |r|, x, y);
  }

  /** A dataset recipe that scores more than some returned recipe is
      returned as well: ranking never passes over a better match. */
  lemma MatchLocalNeverSkipsBetter(terms: seq<string>, dataset: seq<Recipe>, j: int, y: Recipe)
    requires 0 <= j < |dataset|
    requires y in MatchLocal(terms, dataset)
    requires Score(terms, dataset[j].ingredients) > MatchKey(y)
    ensures Scored(terms, dataset[j]) in MatchLocal(terms, dataset)
  {
    var c := Candidates(terms, dataset);
    var r := MatchLocal(terms, dataset);
    var x := Scored(terms, dataset[j]);
    CandidatesMembership(terms, dataset, x);
    assert x in c;
    if x !in r {
      assert multiset(r)[x] == 0 && multiset(c)[x] > 0;
      assert x in multiset(c) - multiset(r);
      MatchLocalLeftOutScoreLower(terms, dataset, x, y);
    }
  }

  /** The local search comes back empty exactly when no dataset recipe
      matches any of the terms. */
  lemma LocalEmptyIffNoMatch(terms: seq<string>, dataset: seq<Recipe>)
    ensures MatchLocal(terms, dataset) == [] <==>
      forall j :: 0 <= j < |dataset| ==> Score(terms, dataset[j].ingredients) == 0
  {
    var c := Candidates(terms, dataset);
    MatchLocalCount(terms, dataset);
    if |c| > 0 {
      CandidatesMembership(terms, dataset, c[0]);
    }
    forall j | 0 <= j < |dataset| && Score(terms, dataset[j].ingredients) > 0
      ensures |c| > 0
    {
      CandidatesMembership(terms, dataset, Scored(terms, dataset[j]));
    }
  }

  // ---------------------------------------------------------------------
  // degenerate and worked queries

  /** The dataset recipes that list at least one ingredient, each with
      score 1 attached, in dataset order. */
  function Stocked(dataset: seq<Recipe>): seq<Recipe> {
    if |dataset| == 0 then []
    else
      (if |dataset[0].ingredients| > 0 then [dataset[0].(matchScore := Some(1))] else [])
      + Stocked(dataset[1..])
  }

  /** Under the single empty term, a recipe scores 1 if it lists any
      ingredient and 0 otherwise. */
  lemma EmptyTermScore(ingredients: seq<string>)
    ensures Score([""], ingredients) == if |ingredients| > 0 then 1 else 0
  {
    EmptyTermMatches(ingredients);
  }

  lemma {:induction false} EmptyTermCandidates(dataset: seq<Recipe>)
    ensures Candidates([""], dataset) == Stocked(dataset)
  {
    if |dataset| > 0 {
      EmptyTermScore(dataset[0].ingredients);
      EmptyTermCandidates(dataset[1..]);
    }
  }

  /** An empty or whitespace-only query returns the first six dataset
      recipes that list any ingredient, each with score 1, in dataset order;
      a recipe without ingredients never comes back. */
  lemma BlankQueryReturnsStocked(ingredients: string, dataset: seq<Recipe>)
    requires AllSpace(ingredients)
    ensures MatchLocal(QueryTerms(ingredients), dataset) == Take(Stocked(dataset), MaxResults)
  {
    BlankQueryTerms(ingredients);
    EmptyTermCandidates(dataset);
    SortOfEqualKeys(Stocked(dataset), MatchKey, 1);
  }

  /** Normalising a term that is already normal changes nothing. */
  lemma NormalTermUnchanged(t: string)
    requires IsTerm(t)
    ensures Strip(t) == t && Lower(t) == t
  {
    StripStripped(t);
    LowerProperties(t);
  }

  /** Comma-free pieces joined by commas parse to the pieces, each stripped
      and lower-cased. */
  lemma QueryTermsOfPieces(pieces: seq<string>)
    requires |pieces| >= 1
    requires forall i :: 0 <= i < |pieces| ==> ',' !in pieces[i]
    ensures var terms := QueryTerms(Join(pieces, ','));
      |terms| == |pieces| && forall i :: 0 <= i < |pieces| ==> terms[i] == Lower(Strip(pieces[i]))
  {
    SplitJoin(pieces, ',');
  }

  /** Whitespace around the commas does not matter: pieces that strip to
      normal terms parse to those terms, as "banana, oats" parses to banana
      and oats. */
  lemma QueryTermsIgnorePadding(padded: seq<string>, terms: seq<string>)
    requires |padded| == |terms| >= 1
    requires forall i :: 0 <= i < |padded| ==> ',' !in padded[i]
    requires forall i :: 0 <= i < |terms| ==> IsTerm(terms[i]) && Strip(padded[i]) == terms[i]
    ensures QueryTerms(Join(padded, ',')) == terms
  {
    QueryTermsOfPieces(padded);
    forall i | 0 <= i < |terms|
      ensures Lower(Strip(padded[i])) == terms[i]
    {
      NormalTermUnchanged(terms[i]);
    }
  }

  /** A query without a comma is a single term: itself, stripped and
      lower-cased. */
  lemma SingleTermQuery(query: string)
    requires ',' !in query
    ensures QueryTerms(query) == [Lower(Strip(query))]
  {
    assert Join([query], ',') == query;
    QueryTermsOfPieces([query]);
  }

  /** A single term that occurs in no ingredient of the dataset finds
      nothing, however many recipes the dataset holds. */
  lemma UnmatchedTermFindsNothing(term: string, dataset: seq<Recipe>)
    requires forall j, k :: 0 <= j < |dataset| && 0 <= k < |dataset[j].ingredients| ==>
      !Contains(Lower(dataset[j].ingredients[k]), term)
    ensures forall j :: 0 <= j < |dataset| ==> Score([term], dataset[j].ingredients) == 0
    ensures MatchLocal([term], dataset) == []
  {
    forall j | 0 <= j < |dataset|
      ensures Score([term], dataset[j].ingredients) == 0
    {
      TermMatchesIff(term, dataset[j].ingredients);
    }
    LocalEmptyIffNoMatch([term], dataset);
  }
}
