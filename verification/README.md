# Healthy-meal recipe finder — a Dafny model of its search logic

The application takes a comma-separated list of ingredients and answers with up
to six recipes. It first asks an external recipe service (one lookup call, then
one detail call per hit). If that yields nothing, it falls back to a bundled
recipe dataset matched by substring overlap. If the dataset cannot be loaded, it
falls back to a fixed one-recipe list. Each external recipe is annotated with
nutrient figures, dietary tags and a tutorial-search link.

This project models all of that logic in `app.py` as pure functions over
immutable datatypes. It proves, for each step, what the code guarantees about
its result, and connects each step to the next so that the whole search
handler is pinned down:

- `Text.dfy`: the Python string operations used. These are `split(',')`
  (with its join round trip), `strip()`, `lower()`, `in` on strings and
  single-character `replace`.
- `StableSort.dfy`: `list.sort(key=…, reverse=True)` as a stable insertion sort
  over a key function. Its specification is `IsStableSortOf`: the result is
  sorted, and every key's elements keep their input order. The specification
  is proved to determine the result uniquely.
- `Recipes.dfy`: the recipe record and the built-in fallback list.
- `Enrichment.dfy`: the tutorial link, the dietary tags and the
  first-match nutrient lookup.
- `Spoonacular.dfy`: the external tier. Its HTTP replies arrive as data.
- `LocalMatcher.dfy`: the local tier. It parses query terms, scores recipes,
  drops zero scores, stable-sorts and keeps the top six.
- `App.dfy`: the search handler's two-tier dispatch.

Behaviours of the code that a reader might not expect, each proved:

- A detail request that answers with a status other than 200 skips that one
  hit (`app.py:71`). Only an exception discards the partial results
  (`app.py:100-102`, `Spoonacular.FetchFromSpoonacular`).
- The search can return an empty list. This happens when the key is
  unconfigured and the dataset loads, but no query term occurs in any of its
  ingredients (`App.SearchCanComeBackEmpty`, `App.Dispatch`).
- An empty or whitespace-only query is the single term `""`. That term is a
  substring of every ingredient, so every dataset recipe that lists an
  ingredient scores 1. The first six such recipes come back in dataset order
  (`LocalMatcher.BlankQueryReturnsStocked`).
- The fallback recipe's stored tutorial link is not what the link builder
  produces for its name: its query starts with a lower-case `b` where the
  built link has `B` (`Enrichment.DefaultRecipeUrlIsNotBuilt`).

## Model

| member | source | states |
|---|---|---|
| Recipes.DefaultRecipes | app.py:184-200 | the fallback is one recipe with all three nutrient figures, three tags, four ingredients, and no source link or score |
| Text.Split | app.py:157 | `split(',')` never yields an empty list, and no piece contains the separator |
| Text.JoinSplit | app.py:157 | joining the split pieces with the separator gives back the query text |
| Text.SplitJoin | app.py:157 | splitting separator-free pieces joined by the separator gives back the pieces |
| Text.Strip | app.py:157 | `strip()` returns the slice left after cutting only whitespace from both ends; the slice has no surrounding whitespace and no character the input lacked |
| Text.StripOfUnique | app.py:157 | that description of `strip()` admits exactly one result |
| Text.StripAllSpace | app.py:157 | a whitespace-only string strips to `""` |
| Text.StripStripped | app.py:157 | a string without surrounding whitespace is unchanged by `strip()` |
| Text.Lower | app.py:157 | `lower()` keeps the length and lowercases each character independently |
| Text.LowerProperties | app.py:157 | lowercasing leaves no upper-case letter, keeps stripped text stripped, and is the identity on text without upper case |
| Text.ContainsIffOccurs | app.py:166 | `term in ingredient` holds exactly when the term occurs at some position of the ingredient |
| Text.EmptyContained | app.py:166 | the empty term is contained in every string |
| Text.ReplaceChar | app.py:113 | `replace(' ', '+')` keeps the length, turns each space into `+` and keeps every other character |
| Text.ReplaceCharInverse | app.py:113 | replacing spaces by `+` is undone by the reverse replacement when the name had no `+` |
| Text.ReplaceJoin | app.py:113 | in words joined by spaces, replacement swaps the separators and leaves the words alone |
| StableSort.Sort | app.py:173 | the sort keeps the length and orders keys from highest to lowest |
| StableSort.SortIsStable | app.py:173 | the sort is stable: for every key, its elements appear in input order |
| StableSort.SortedWithSameClassesEqual | app.py:173 | two sorted sequences whose per-key subsequences agree are equal |
| StableSort.StableSortUnique | app.py:173 | any stable descending sort of the input equals this one |
| StableSort.SortPermutes | app.py:173 | the sort is a permutation of its input |
| StableSort.SortOfEqualKeys | app.py:173 | a sequence whose keys are all equal is its own sort |
| StableSort.TakeKeepsClassPrefix | app.py:174 | cutting a sequence after n elements keeps, for every key, a prefix of that key's elements |
| StableSort.CutBelowKept | app.py:173-174 | in a sorted sequence, anything past the cut has a key no higher than anything before it |
| Enrichment.YoutubeUrl | app.py:107-117 | the link is the fixed prefix, then the name with spaces turned into `+` and nothing else changed, then `+recipe+tutorial` |
| Enrichment.YoutubeUrlRecoversName | app.py:113-117 | the link's query part has no space, and the name can be read back from it when the name has no `+` |
| Enrichment.YoutubeUrlExample | app.py:113-117 | "Banana Oat Smoothie" gives the query `Banana+Oat+Smoothie+recipe+tutorial` |
| Enrichment.DefaultRecipeUrlQueryIsLowerCase | app.py:197 | the fallback recipe's stored link starts its query with `b`, where the link built for "Banana Oat Smoothie" has `B` |
| Enrichment.DefaultRecipeUrlIsNotBuilt | app.py:190-197 | the fallback recipe's stored link differs from the link built from its name |
| Enrichment.FlaggedTags | app.py:125-137 | collecting tags flag by flag gives an empty list exactly when no flag is set; the tags keep the fixed flag order Vegetarian, Vegan, Gluten-free, Dairy-free, Very healthy, with none repeated; a flag's tag is present exactly when that flag is set |
| Enrichment.SelectIsSubsequence | app.py:128-137 | keeping the tags of the set flags, one check after another, keeps the tags in list order |
| Enrichment.SubsequenceOfDistinctUnique | app.py:128-137 | over distinct tags, an order-keeping selection is fixed by which tags it holds |
| Enrichment.FlaggedTagsUnique | app.py:128-137 | any list of flag tags in flag order that holds a flag's tag exactly when the flag is set equals the flag-by-flag tags |
| Enrichment.HealthBenefits | app.py:120-143 | 1 to 5 tags; the generic triple exactly when no flag is set; otherwise the flag-by-flag tags, in flag order, with no generic tag among them |
| Enrichment.HealthBenefitsTagIffFlag | app.py:128-143 | a flag's tag is listed exactly when that flag is set, and no generic tag is listed once any flag is set |
| Enrichment.FirstAmount | app.py:78-80 | `'N/A'` exactly when no nutrient has the name; otherwise the amount of the first nutrient with that name |
| Spoonacular.FormatRecipe | app.py:74-95 | a formatted hit keeps the hit's title as its name and gets the title's tutorial link; its image, summary and source link are the detail's own, or `No+Image` placeholder, `A delicious and healthy recipe!` and `#` when missing; calories, protein and fat are the first matching nutrient figures; the tags are the detail's dietary tags; no ingredients and no score |
| Spoonacular.FormatHits | app.py:63-96 | one recipe per detail reply with status 200, so never more than hits; each carries its own name's tutorial link |
| Spoonacular.FormatHitsSnoc | app.py:63-96 | a further hit appends its formatted recipe when its detail reply was 200 and nothing otherwise |
| Spoonacular.FormatHitsKeepsAll | app.py:71 | every hit is kept exactly when every detail reply was 200 |
| Spoonacular.FetchFromSpoonacular | app.py:36-104 | unavailable exactly when the key is the placeholder, the lookup failed, or a detail request raised; otherwise the formatted hits, one per detail reply with status 200, in hit order |
| LocalMatcher.QueryTerms | app.py:157 | one term per comma-separated piece, at least one; each term is its piece stripped and lower-cased, so it has no comma, no surrounding whitespace and no upper case |
| LocalMatcher.QueryTermsJoin | app.py:157 | normalised terms joined by commas parse back to the same terms, duplicates and empty terms included |
| LocalMatcher.BlankQueryTerms | app.py:157 | an empty or whitespace-only query is the single term `""` |
| LocalMatcher.QueryTermsOfPieces | app.py:157 | comma-free pieces joined by commas parse to the pieces, each stripped and lower-cased |
| LocalMatcher.QueryTermsIgnorePadding | app.py:157 | whitespace around the commas does not change the terms, as "banana, oats" gives banana and oats |
| LocalMatcher.SingleTermQuery | app.py:157 | a query without a comma is the single term it strips and lower-cases to |
| LocalMatcher.TermMatchesIff | app.py:163-166 | a term matches a recipe exactly when some lower-cased ingredient contains it |
| LocalMatcher.Score | app.py:166 | the score is between 0 and the number of terms; it is 0 exactly when no term matches and full exactly when every term matches |
| LocalMatcher.ScoreCountsMatchedTerms | app.py:166 | the score is the number of term positions that match, duplicates counted |
| LocalMatcher.EmptyTermMatches | app.py:163-166 | the empty term matches a recipe exactly when it lists at least one ingredient |
| LocalMatcher.EmptyTermScore | app.py:163-166 | under the single empty term a recipe scores 1 if it lists an ingredient and 0 otherwise |
| LocalMatcher.Candidates | app.py:160-170 | no more candidates than recipes; each carries its own score, between 1 and the number of terms |
| LocalMatcher.CandidatesMembership | app.py:161-170 | a recipe is a candidate exactly when it is a dataset recipe scoring at least 1, with that score attached |
| LocalMatcher.CandidatesKeepDatasetOrder | app.py:161-170 | for every positive score, the candidates with that score are the dataset's recipes with that score, in dataset order |
| LocalMatcher.EmptyTermCandidates | app.py:161-170 | under the single empty term the candidates are the recipes that list an ingredient, in dataset order |
| LocalMatcher.MatchLocal | app.py:172-174 | at most six recipes, in non-increasing score order |
| LocalMatcher.MatchLocalScores | app.py:166-174 | every returned recipe is a dataset recipe carrying its own score, between 1 and the number of terms |
| LocalMatcher.MatchLocalIsTopOfStableSort | app.py:173-174 | the result is the first min(6, n) elements of any stable descending sort of the candidates |
| LocalMatcher.MatchLocalHasNoZeroScore | app.py:168-174 | no returned recipe scores below 1 |
| LocalMatcher.MatchLocalTiesInDatasetOrder | app.py:173-174 | for every score, the returned recipes with that score are the first of the dataset's recipes with that score, in dataset order |
| LocalMatcher.MatchLocalCount | app.py:168-174 | min(6, number of candidates) recipes, all candidates, and all of them when there are at most six |
| LocalMatcher.MatchLocalLeftOutScoreLower | app.py:173-174 | a candidate that is cut off scores no higher than any returned recipe |
| LocalMatcher.MatchLocalNeverSkipsBetter | app.py:168-174 | a dataset recipe scoring more than some returned recipe is itself returned |
| LocalMatcher.BlankQueryReturnsStocked | app.py:157-174 | a blank query returns the first six recipes that list an ingredient, each scored 1, in dataset order |
| LocalMatcher.UnmatchedTermFindsNothing | app.py:163-174 | a single term that occurs in no ingredient scores 0 on every recipe, so the local search finds nothing |
| LocalMatcher.FetchFromLocalDataset | app.py:146-181 | the built-in list when the dataset failed to load; otherwise exactly the ranked local search over the loaded dataset (at most six recipes, each carrying its score) |
| LocalMatcher.LocalEmptyIffNoMatch | app.py:168-174 | the local search is empty exactly when no dataset recipe matches any of the terms |
| App.Dispatch | app.py:27-31 | a non-empty external result is used as is; otherwise exactly the local tier (at most six, the built-in list on load failure); the result is empty exactly when the external tier gave nothing, the dataset loaded, and nothing in it matches |
| App.Search | app.py:22-31 | a missing form field reads as `""`; a non-empty external result is returned, otherwise the local tier on the submitted text, in particular whenever the key is the placeholder or the lookup failed or found nothing |
| App.SearchUnconfiguredIsLocal | app.py:24-31 | with the placeholder key the search is the local tier on the submitted text, a single recipe on load failure |
| App.SearchBlankQuery | app.py:24-31 | a missing or blank field, with nothing from the external tier, returns the first six recipes that list an ingredient |
| App.SearchCanComeBackEmpty | app.py:27-31 | with an unconfigured key, a single-term query that occurs in no ingredient of a loaded dataset, of any size, yields an empty list |

## Left out

- Flask routing, the `index` page and template rendering (`app.py:2-18`,
  `app.py:33`, `app.py:203-204`): web plumbing with no logic.
- The HTTP requests, their parameters (`number=6`, `ranking=1`,
  `ignorePantry`), timeouts and JSON decoding (`app.py:45-72`). The lookup
  arrives as `None` (status other than 200, or an exception). Otherwise it is
  a sequence of hits, each paired with how its detail request ended. A hit's
  `id` only builds the detail URL and is not modelled.
- Spoonacular.FetchFromSpoonacular: does not bound the result to six
  recipes. That cap is the service's answer to `number=6`, not the code's.
- Reading the key from the environment (`app.py:12`): the key is a parameter.
  The code's fallback when the variable is unset is a literal key, not the
  placeholder. So the placeholder guard (`app.py:42-43`) fires only when the
  environment itself holds the placeholder.
- Opening and parsing `local_recipes.json` (`app.py:153-154`): the dataset is
  a parameter. `None` stands for every exception the handler catches, which
  also covers ingredient entries that are not strings. A recipe without
  an `ingredients` entry is a record with an empty ingredient list.
- Logging with `print` (`app.py:101`, `app.py:180`).
- Spoonacular.FormatRecipe: an absent key and a key present with the JSON
  value `null` are both `None` in `Hit.image`, `Detail.summary` and
  `Detail.sourceUrl`. Python's `.get(k, d)` falls back to `d` only for an
  absent key; a present `null` passes through as `None` (`app.py:87`,
  `app.py:88`, `app.py:94`). The model shows the default text where the
  code would pass on `None`.
- Nutrient amounts are `real`, because the code only passes them through.
- Unicode behaviour of `str.strip()` and `str.lower()`: whitespace is
  ASCII whitespace and case folding is ASCII `A`-`Z`.
- The in-place addition of `match_score` to dataset records (`app.py:169`).
  The model returns a copy of the record with the score attached.
