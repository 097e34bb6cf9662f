/** The recipe record the program passes to its result page, and the fixed
    fallback list used when the bundled dataset cannot be loaded. */
module Recipes {
  import opened Wrappers

  /** A nutrient figure: a number from the data, or the `'N/A'` sentinel. */
  datatype Amount = NotAvailable | Known(value: real)

  /** One recipe as the result page receives it. Records built from the
      external service carry a source link and no ingredients; records from
      the bundled dataset carry ingredients, and the local search attaches
      the match score it computed. */
  datatype Recipe = Recipe(
    name: string,
    image: string,
    description: string,
    calories: Amount,
    protein: Amount,
    fat: Amount,
    healthBenefits: seq<string>,
    youtubeUrl: string,
    sourceUrl: Option<string>,
    ingredients: seq<string>,
    matchScore: Option<nat>)

  /** The text fields of the built-in recipe. */
  const SmoothieName: string := "Banana Oat Smoothie"
  const SmoothieImage: string := "https://via.placeholder.com/300x200?text=Banana+Oat+Smoothie"
  const SmoothieDescription: string :=
    "A creamy and nutritious smoothie perfect for breakfast or post-workout."
  const SmoothieVideo: string :=
    "https://www.youtube.com/results?search_query=banana+oat+smoothie+recipe"

  /** The single built-in recipe returned when the dataset is unreadable. It
      carries figures for all three nutrients and its ingredient list, but no
      source link and no match score: it never went through the local search. */
  function DefaultRecipes(): (rs: seq<Recipe>)
    ensures |rs| == 1
    ensures rs[0].calories.Known? && rs[0].protein.Known? && rs[0].fat.Known?
    ensures |rs[0].healthBenefits| == 3
    ensures |rs[0].ingredients| == 4
    ensures rs[0].sourceUrl.None? && rs[0].matchScore.None?
  {
    [Recipe(
      SmoothieName, SmoothieImage, SmoothieDescription,
      Known(250.0), Known(8.0), Known(5.0),
      ["High in fiber", "Energy boosting", "Heart healthy"],
      SmoothieVideo,
      None,
      ["banana", "oats", "milk", "honey"],
      None)]
  }
}
