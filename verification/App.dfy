/** The search request handler: try the external tier, fall back to the
    local tier when it produced nothing. */
module App {
  import opened Wrappers
  import opened Text
  import opened Recipes
  import opened LocalMatcher
  import opened Spoonacular

  /** The external result counts only when it is a non-empty list. */
  predicate Usable(external: Option<seq<Recipe>>) {
    external.Some? && |external.value| > 0
  }

  /** The dispatch: the external result when usable, otherwise the local tier
      (itself the default list when the dataset could not be loaded). The
      result is empty exactly when the external tier gave nothing, the dataset
      loaded, and no dataset recipe matches any query term. */
  function Dispatch(ingredients: string, external: Option<seq<Recipe>>, dataset: Option<seq<Recipe>>): (r: seq<Recipe>)
    ensures Usable(external) ==> r == external.value
    ensures !Usable(external) ==> r == FetchFromLocalDataset(ingredients, dataset)
    ensures !Usable(external) ==> |r| <= MaxResults
    ensures !Usable(external) && dataset.None? ==> r == DefaultRecipes()
    ensures r == [] <==>
      !Usable(external) && dataset.Some?
      && forall j :: 0 <= j < |dataset.value| ==>
           Score(QueryTerms(ingredients), dataset.value[j].ingredients) == 0
  {
    if Usable(external) then external.value
    else
      LocalEmptyIffNoMatch(QueryTerms(ingredients), dataset.GetOr([]));
      FetchFromLocalDataset(ingredients, dataset)
  }

  /** The search handler: a missing form field reads as the empty string; a
      non-empty external result is returned as it is, anything else falls
      back to the local tier on the submitted text. */
  function Search(form: Option<string>, apiKey: string, lookup: Option<seq<Exchange>>,
                  dataset: Option<seq<Recipe>>): (r: seq<Recipe>)
    ensures var external := FetchFromSpoonacular(apiKey, lookup);
      && (Usable(external) ==> r == external.value)
      && (!Usable(external) ==> r == FetchFromLocalDataset(form.GetOr(""), dataset))
    ensures apiKey == PlaceholderKey ==> r == FetchFromLocalDataset(form.GetOr(""), dataset)
    ensures (lookup.None? || lookup.value == []) ==> r == FetchFromLocalDataset(form.GetOr(""), dataset)
  {
    var ingredients := form.GetOr("");
    Dispatch(ingredients, FetchFromSpoonacular(apiKey, lookup), dataset)
  }

  /** With the placeholder key the external tier is never consulted: the
      search is the local tier, and the built-in list on a load failure. */
  lemma SearchUnconfiguredIsLocal(form: Option<string>, lookup: Option<seq<Exchange>>,
                                  dataset: Option<seq<Recipe>>)
    ensures Search(form, PlaceholderKey, lookup, dataset)
         == FetchFromLocalDataset(form.GetOr(""), dataset)
    ensures dataset.None? ==> |Search(form, PlaceholderKey, lookup, dataset)| == 1
  {
  }

  /** A blank or missing ingredients field, with nothing from the external
      tier, returns the first six dataset recipes that list any ingredient. */
  lemma SearchBlankQuery(form: Option<string>, apiKey: string, lookup: Option<seq<Exchange>>,
                         dataset: seq<Recipe>)
    requires form.None? || AllSpace(form.value)
    requires !Usable(FetchFromSpoonacular(apiKey, lookup))
    ensures Search(form, apiKey, lookup, Some(dataset)) == Take(Stocked(dataset), MaxResults)
  {
    BlankQueryReturnsStocked(form.GetOr(""), dataset);
  }

  /** With the key unconfigured, a single-term query that occurs in no
      ingredient of a loaded dataset returns no recipe at all, however many
      recipes the dataset holds. */
  lemma SearchCanComeBackEmpty(query: string, lookup: Option<seq<Exchange>>, dataset: seq<Recipe>)
    requires ',' !in query
    requires forall j, k :: 0 <= j < |dataset| && 0 <= k < |dataset[j].ingredients| ==>
      !Contains(Lower(dataset[j].ingredients[k]), Lower(Strip(query)))
    ensures Search(Some(query), PlaceholderKey, lookup, Some(dataset)) == []
  {
    SingleTermQuery(query);
    UnmatchedTermFindsNothing(Lower(Strip(query)), dataset);
  }
}
