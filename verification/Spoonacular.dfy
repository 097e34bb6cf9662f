/** The external tier: a recipe-by-ingredients lookup followed by one detail
    request per hit. The HTTP exchanges themselves are not modelled; the
    replies they produced arrive as data, and the tier turns them into recipes
    or into "unavailable" (`None`). */
module Spoonacular {
  import opened Wrappers
  import opened Recipes
  import opened Enrichment

  /** The literal that marks the service key as not configured. */
  const PlaceholderKey: string := "YOUR_API_KEY_HERE"

  const PlaceholderImage: string := "https://via.placeholder.com/300x200?text=No+Image"
  const DefaultSummary: string := "A delicious and healthy recipe!"
  const UnknownSource: string := "#"

  /** One hit of the lookup call: its title and, if present, its image. */
  datatype Hit = Hit(title: string, image: Option<string>)

  /** The parts of a detail record the program reads. A missing nutrition
      block reads as an empty nutrient list. */
  datatype Detail = Detail(
    nutrients: seq<Nutrient>, summary: Option<string>, sourceUrl: Option<string>, flags: DietFlags)

  /** How the detail request for one hit ended: a 200 reply with its record,
      any other status, or an exception (network error, malformed payload). */
  datatype DetailReply = Fetched(detail: Detail) | BadStatus | Raised

  /** A hit together with the outcome of its detail request. */
  datatype Exchange = Exchange(hit: Hit, reply: DetailReply)

  /** A recipe record built from a hit and its detail record: the hit's
      title and tutorial link, the first figure for each of the three
      nutrients, the dietary tags, and a fixed default for each missing image,
      summary or source link. */
  function FormatRecipe(hit: Hit, detail: Detail): (r: Recipe)
    ensures r.name == hit.title && r.youtubeUrl == YoutubeUrl(hit.title)
    ensures hit.image.Some? ==> r.image == hit.image.value
    ensures hit.image.None? ==> r.image == PlaceholderImage
    ensures detail.summary.Some? ==> r.description == detail.summary.value
    ensures detail.summary.None? ==> r.description == DefaultSummary
    ensures r.calories == FirstAmount(detail.nutrients, "Calories")
    ensures r.protein == FirstAmount(detail.nutrients, "Protein")
    ensures r.fat == FirstAmount(detail.nutrients, "Fat")
    ensures r.healthBenefits == HealthBenefits(detail.flags) && 1 <= |r.healthBenefits| <= 5
    ensures detail.sourceUrl.Some? ==> r.sourceUrl == detail.sourceUrl
    ensures detail.sourceUrl.None? ==> r.sourceUrl == Some(UnknownSource)
    ensures r.ingredients == [] && r.matchScore.None?
  {
    Recipe(
      hit.title,
      hit.image.GetOr(PlaceholderImage),
      detail.summary.GetOr(DefaultSummary),
      FirstAmount(detail.nutrients, "Calories"),
      FirstAmount(detail.nutrients, "Protein"),
      FirstAmount(detail.nutrients, "Fat"),
      HealthBenefits(detail.flags),
      YoutubeUrl(hit.title),
      Some(detail.sourceUrl.GetOr(UnknownSource)),
      [],
      None)
  }

  /** How many detail requests came back with status 200. */
  function FetchedCount(exchanges: seq<Exchange>): nat {
    if |exchanges| == 0 then 0
    else (if exchanges[0].reply.Fetched? then 1 else 0) + FetchedCount(exchanges[1..])
  }

  /** The loop over the hits: a hit whose detail request did not return 200
      is skipped; the others are formatted, in hit order. */
  function FormatHits(exchanges: seq<Exchange>): (rs: seq<Recipe>)
    ensures |rs| == FetchedCount(exchanges) <= |exchanges|
    ensures forall i :: 0 <= i < |rs| ==>
      rs[i].youtubeUrl == YoutubeUrl(rs[i].name) && rs[i].matchScore.None?
  {
    if |exchanges| == 0 then []
    else Formatted(exchanges[0]) + FormatHits(exchanges[1..])
  }

  /** What one exchange contributes: its formatted recipe when the detail
      request returned 200, nothing otherwise. */
  function Formatted(e: Exchange): (rs: seq<Recipe>)
    ensures |rs| == if e.reply.Fetched? then 1 else 0
    ensures e.reply.Fetched? ==> rs == [FormatRecipe(e.hit, e.reply.detail)]
  {
    match e.reply
    case Fetched(d) => [FormatRecipe(e.hit, d)]
    case _ => []
  }

  /** Read from the other end: a further exchange adds its recipe at the end
      when its detail request succeeded, and nothing otherwise. */
  lemma {:induction false} FormatHitsSnoc(exchanges: seq<Exchange>, last: Exchange)
    ensures FormatHits(exchanges + [last]) == FormatHits(exchanges) + Formatted(last)
  {
    if |exchanges| > 0 {
      assert (exchanges + [last])[1..] == exchanges[1..] + [last];
      FormatHitsSnoc(exchanges[1..], last);
    } else {
      assert exchanges + [last] == [last];
    }
  }

  /** Every hit is kept exactly when every detail request returned 200. */
  lemma {:induction false} FormatHitsKeepsAll(exchanges: seq<Exchange>)
    ensures |FormatHits(exchanges)| == |exchanges|
        <==> forall i :: 0 <= i < |exchanges| ==> exchanges[i].reply.Fetched?
  {
    if |exchanges| > 0 {
      FormatHitsKeepsAll(exchanges[1..]);
      assert forall i :: 0 < i < |exchanges| ==> exchanges[1..][i - 1] == exchanges[i];
    }
  }

  /** Some detail request raised an exception. */
  predicate AnyRaised(exchanges: seq<Exchange>) {
    exists i :: 0 <= i < |exchanges| && exchanges[i].reply.Raised?
  }

  /** The external tier. `lookup` is `None` when the lookup call did not
      return 200 or raised. Unavailable (`None`) when the key is the
      placeholder, when the lookup failed, or when any detail request raised
      (partial results are dropped); otherwise the formatted hits. */
  function FetchFromSpoonacular(apiKey: string, lookup: Option<seq<Exchange>>): (r: Option<seq<Recipe>>)
    ensures r.None? <==> apiKey == PlaceholderKey || lookup.None? || AnyRaised(lookup.value)
    ensures r.Some? ==> r.value == FormatHits(lookup.value)
    ensures r.Some? ==> |r.value| == FetchedCount(lookup.value) <= |lookup.value|
  {
    if apiKey == PlaceholderKey then None
    else
      match lookup
      case None => None
      case Some(exchanges) =>
        if AnyRaised(exchanges) then None else Some(FormatHits(exchanges))
  }
}
