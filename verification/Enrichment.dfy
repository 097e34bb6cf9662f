/** The per-recipe annotations built while formatting a recipe: the tutorial
    search link, the dietary tags and the nutrient figures. */
module Enrichment {
  import opened Text
  import opened Recipes

  // ---------------------------------------------------------------------
  // tutorial link (search_youtube_video)

  const YoutubePrefix: string := "https://www.youtube.com/results?search_query="
  const YoutubeSuffix: string := "+recipe+tutorial"

  /** The tutorial search link for a recipe name: the fixed prefix, then the
      name with every space turned into `+` and every other character kept,
      then the fixed suffix. */
  function YoutubeUrl(recipeName: string): (u: string)
    ensures |u| == |YoutubePrefix| + |recipeName| + |YoutubeSuffix|
    ensures u[..|YoutubePrefix|] == YoutubePrefix
    ensures u[|u| - |YoutubeSuffix|..] == YoutubeSuffix
    ensures forall i :: 0 <= i < |recipeName| ==>
      u[|YoutubePrefix| + i] == (if recipeName[i] == ' ' then '+' else recipeName[i])
  {
    YoutubePrefix + ReplaceChar(recipeName, ' ', '+') + YoutubeSuffix
  }

  /** The search query part of the link holds no space, and when the name
      holds no `+` of its own the name can be read back from the link. */
  lemma YoutubeUrlRecoversName(recipeName: string)
    requires '+' !in recipeName
    ensures var u := YoutubeUrl(recipeName);
      var q := u[|YoutubePrefix|..|u| - |YoutubeSuffix|];
      ' ' !in q && ReplaceChar(q, '+', ' ') == recipeName
  {
    var u := YoutubeUrl(recipeName);
    var q := u[|YoutubePrefix|..|u| - |YoutubeSuffix|];
    assert q == ReplaceChar(recipeName, ' ', '+');
    ReplaceCharInverse(recipeName, ' ', '+');
  }

  /** The worked example: "Banana Oat Smoothie". */
  lemma YoutubeUrlExample()
    ensures YoutubeUrl("Banana Oat Smoothie") == YoutubePrefix + "Banana+Oat+Smoothie" + YoutubeSuffix
  {
    var words := ["Banana", "Oat", "Smoothie"];
    assert Join(words, ' ') == "Banana Oat Smoothie";
    assert Join(words, '+') == "Banana+Oat+Smoothie";
    ReplaceJoin(words, ' ', '+');
    assert ReplaceChar("Banana Oat Smoothie", ' ', '+') == "Banana+Oat+Smoothie";
  }

  /** The stored link of the built-in fallback recipe starts its query with
      a lower-case `b`, where the built link has `B`. */
  lemma DefaultRecipeUrlQueryIsLowerCase()
    ensures |DefaultRecipes()[0].youtubeUrl| > |YoutubePrefix|
    ensures DefaultRecipes()[0].youtubeUrl[|YoutubePrefix|] == 'b'
    ensures (YoutubePrefix + "Banana+Oat+Smoothie" + YoutubeSuffix)[|YoutubePrefix|] == 'B'
    ensures DefaultRecipes()[0].youtubeUrl != YoutubePrefix + "Banana+Oat+Smoothie" + YoutubeSuffix
  {
    var built := YoutubePrefix + "Banana+Oat+Smoothie" + YoutubeSuffix;
    assert built[45] == 'B' && DefaultRecipes()[0].youtubeUrl[45] == 'b';
  }

  /** The link stored in the built-in fallback recipe is not the one the link
      builder produces for that recipe's name: its query starts with a
      lower-case `b` where the built one has `B`. */
  lemma DefaultRecipeUrlIsNotBuilt()
    ensures DefaultRecipes()[0].name == "Banana Oat Smoothie"
    ensures DefaultRecipes()[0].youtubeUrl != YoutubeUrl("Banana Oat Smoothie")
  {
    YoutubeUrlExample();
    DefaultRecipeUrlQueryIsLowerCase();
  }

  // ---------------------------------------------------------------------
  // dietary tags (extract_health_benefits)

  /** The five dietary flags of a recipe detail record; a missing or falsy
      entry reads as false. */
  datatype DietFlags = DietFlags(
    vegetarian: bool, vegan: bool, glutenFree: bool, dairyFree: bool, veryHealthy: bool)

  /** One tag per flag, in the order the flags are examined. */
  const FlagTags: seq<string> :=
    ["Vegetarian-friendly", "Vegan-friendly", "Gluten-free", "Dairy-free", "Very healthy option"]

  /** The tags used when no flag is set. */
  const GenericTags: seq<string> :=
    ["Nutritious meal", "Balanced ingredients", "Home-cooked goodness"]

  function FlagList(f: DietFlags): (m: seq<bool>)
    ensures |m| == |FlagTags|
  {
    [f.vegetarian, f.vegan, f.glutenFree, f.dairyFree, f.veryHealthy]
  }

  predicate AnyFlag(f: DietFlags) {
    f.vegetarian || f.vegan || f.glutenFree || f.dairyFree || f.veryHealthy
  }

  /** The elements of `items` whose mask entry is true, in order. */
  function Select<T>(items: seq<T>, mask: seq<bool>): (r: seq<T>)
    requires |items| == |mask|
    ensures |r| <= |items|
  {
    if |items| == 0 then []
    else (if mask[0] then [items[0]] else []) + Select(items[1..], mask[1..])
  }

  /** A selection is empty exactly when no mask entry is set. */
  lemma {:induction false} SelectEmptyIff<T>(items: seq<T>, mask: seq<bool>)
    requires |items| == |mask|
    ensures |Select(items, mask)| == 0 <==> forall i :: 0 <= i < |mask| ==> !mask[i]
  {
    if |items| > 0 {
      SelectEmptyIff(items[1..], mask[1..]);
      assert forall i :: 0 < i < |mask| ==> mask[1..][i - 1] == mask[i];
    }
  }

  /** A selection only holds items of the list. */
  lemma {:induction false} SelectSubset<T>(items: seq<T>, mask: seq<bool>, x: T)
    requires |items| == |mask|
    requires x in Select(items, mask)
    ensures x in items
  {
    if |items| > 0 && !(mask[0] && x == items[0]) {
      SelectSubset(items[1..], mask[1..], x);
    }
  }

  /** From a list of distinct items, an item is selected exactly when its
      mask entry is set. */
  lemma {:induction false} SelectMember<T>(items: seq<T>, mask: seq<bool>, i: int)
    requires |items| == |mask| && 0 <= i < |items|
    requires forall a, b :: 0 <= a < b < |items| ==> items[a] != items[b]
    ensures items[i] in Select(items, mask) <==> mask[i]
  {
    var rest := Select(items[1..], mask[1..]);
    if i == 0 {
      if items[0] in rest {
        SelectSubset(items[1..], mask[1..], items[0]);
      }
    } else {
      SelectMember(items[1..], mask[1..], i - 1);
    }
  }

  /** `r` is `items` with some elements dropped: its elements appear in
      `items` in the same order, each taken from its own position. */
  predicate IsSubsequence<T(==)>(r: seq<T>, items: seq<T>)
    decreases |items|
  {
    |r| == 0 || (|items| > 0 && ((r[0] == items[0] && IsSubsequence(r[1..], items[1..]))
                                 || IsSubsequence(r, items[1..])))
  }

  /** A subsequence only holds elements of the list. */
  lemma {:induction false} SubsequenceSubset<T>(r: seq<T>, items: seq<T>, x: T)
    requires IsSubsequence(r, items) && x in r
    ensures x in items
    decreases |items|
  {
    if r[0] == items[0] && IsSubsequence(r[1..], items[1..]) {
      if x != r[0] {
        SubsequenceSubset(r[1..], items[1..], x);
      }
    } else {
      SubsequenceSubset(r, items[1..], x);
    }
  }

  /** A selection keeps the order of the list. */
  lemma {:induction false} SelectIsSubsequence<T>(items: seq<T>, mask: seq<bool>)
    requires |items| == |mask|
    ensures IsSubsequence(Select(items, mask), items)
  {
    if |items| > 0 {
      var rest := Select(items[1..], mask[1..]);
      SelectIsSubsequence(items[1..], mask[1..]);
      if mask[0] {
        assert Select(items, mask) == [items[0]] + rest;
        assert ([items[0]] + rest)[1..] == rest;
      } else {
        assert Select(items, mask) == rest;
      }
    }
  }

  /** Over a list of distinct items, a subsequence is fixed by which items it
      holds: two subsequences with the same members are equal. */
  lemma {:induction false} SubsequenceOfDistinctUnique<T>(r: seq<T>, s: seq<T>, items: seq<T>)
    requires forall a, b :: 0 <= a < b < |items| ==> items[a] != items[b]
    requires IsSubsequence(r, items) && IsSubsequence(s, items)
    requires forall x :: x in r <==> x in s
    ensures r == s
    decreases |items|
  {
    if |items| > 0 {
      var tail := items[1..];
      assert items[0] !in tail by {
        forall k | 0 <= k < |tail| ensures tail[k] != items[0] {
          assert tail[k] == items[k + 1];
        }
      }
      assert forall a, b :: 0 <= a < b < |tail| ==> tail[a] != tail[b] by {
        forall a, b | 0 <= a < b < |tail| ensures tail[a] != tail[b] {
          assert tail[a] == items[a + 1] && tail[b] == items[b + 1];
        }
      }
      SubsequenceHead(r, items);
      SubsequenceHead(s, items);
      if items[0] in r {
        assert r == [items[0]] + r[1..] && s == [items[0]] + s[1..];
        forall x ensures x in r[1..] <==> x in s[1..] {
          if x in r[1..] { SubsequenceSubset(r[1..], tail, x); }
          if x in s[1..] { SubsequenceSubset(s[1..], tail, x); }
          assert x in r <==> x == items[0] || x in r[1..];
          assert x in s <==> x == items[0] || x in s[1..];
        }
        SubsequenceOfDistinctUnique(r[1..], s[1..], tail);
      } else {
        SubsequenceOfDistinctUnique(r, s, tail);
      }
    }
  }

  /** When the list's head is not repeated in its tail, a subsequence either
      starts with that head and continues in the tail, or lies in the tail
      and does not hold the head. */
  lemma SubsequenceHead<T>(r: seq<T>, items: seq<T>)
    requires |items| > 0 && items[0] !in items[1..]
    requires IsSubsequence(r, items)
    ensures items[0] in r ==> |r| > 0 && r[0] == items[0] && IsSubsequence(r[1..], items[1..])
    ensures items[0] !in r ==> IsSubsequence(r, items[1..])
  {
    if |r| > 0 && r[0] == items[0] && IsSubsequence(r[1..], items[1..]) {
      if items[0] in r[1..] {
        SubsequenceSubset(r[1..], items[1..], items[0]);
      }
    } else if |r| > 0 && items[0] in r {
      SubsequenceSubset(r, items[1..], items[0]);
    }
  }

  /** The tags are distinct, and none of the generic tags is a flag's tag. */
  lemma TagsDistinct()
    ensures forall a, b :: 0 <= a < b < |FlagTags| ==> FlagTags[a] != FlagTags[b]
    ensures forall g :: g in GenericTags ==> g !in FlagTags
  {
  }

  /** The tags collected flag by flag, before the generic substitution: each
      flag, in order, adds its tag when it is set. The list is empty exactly
      when no flag is set, keeps the order of the flag tags (so no tag comes
      twice), and holds a flag's tag exactly when that flag is set. */
  function FlaggedTags(f: DietFlags): (tags: seq<string>)
    ensures |tags| == 0 <==> !AnyFlag(f)
    ensures IsSubsequence(tags, FlagTags)
    ensures forall t :: t in tags ==> t in FlagTags
    ensures forall i :: 0 <= i < |FlagTags| ==> (FlagTags[i] in tags <==> FlagList(f)[i])
  {
    var m := FlagList(f);
    var tags := Select(FlagTags, m);
    SelectEmptyIff(FlagTags, m);
    assert (forall i :: 0 <= i < |m| ==> !m[i]) <==> !AnyFlag(f) by {
      assert m[0] == f.vegetarian && m[1] == f.vegan && m[2] == f.glutenFree;
      assert m[3] == f.dairyFree && m[4] == f.veryHealthy;
    }
    assert forall t :: t in tags ==> t in FlagTags by {
      forall t | t in tags
        ensures t in FlagTags
      {
        SelectSubset(FlagTags, FlagList(f), t);
      }
    }
    SelectIsSubsequence(FlagTags, m);
    TagsDistinct();
    assert forall i :: 0 <= i < |FlagTags| ==> (FlagTags[i] in tags <==> FlagList(f)[i]) by {
      forall i | 0 <= i < |FlagTags|
        ensures FlagTags[i] in tags <==> FlagList(f)[i]
      {
        SelectMember(FlagTags, FlagList(f), i);
      }
    }
    tags
  }

  /** The flag-by-flag tags are the only list of flag tags in flag order that
      holds a flag's tag exactly when that flag is set. */
  lemma FlaggedTagsUnique(f: DietFlags, tags: seq<string>)
    requires IsSubsequence(tags, FlagTags)
    requires forall i :: 0 <= i < |FlagTags| ==> (FlagTags[i] in tags <==> FlagList(f)[i])
    ensures tags == FlaggedTags(f)
  {
    var want := FlaggedTags(f);
    TagsDistinct();
    forall x ensures x in tags <==> x in want {
      if x in tags { SubsequenceSubset(tags, FlagTags, x); }
      if x in tags || x in want {
        var i :| 0 <= i < |FlagTags| && FlagTags[i] == x;
      }
    }
    SubsequenceOfDistinctUnique(tags, want, FlagTags);
  }

  /** Tags for the flags that are set, one each, in flag order; the generic
      triple when none is set, and never a generic tag beside a flag tag. */
  function HealthBenefits(f: DietFlags): (tags: seq<string>)
    ensures 1 <= |tags| <= 5
    ensures tags == GenericTags <==> !AnyFlag(f)
    ensures AnyFlag(f) ==> tags == FlaggedTags(f) && IsSubsequence(tags, FlagTags)
    ensures AnyFlag(f) ==> forall g :: g in GenericTags ==> g !in tags
  {
    var benefits := FlaggedTags(f);
    TagsDistinct();
    assert GenericTags[0] in GenericTags;
    if |benefits| == 0 then GenericTags else benefits
  }

  /** A flag's tag is in the list exactly when that flag is set; no generic
      tag appears alongside a flag tag. */
  lemma HealthBenefitsTagIffFlag(f: DietFlags, i: int)
    requires 0 <= i < |FlagTags|
    ensures FlagTags[i] in HealthBenefits(f) <==> FlagList(f)[i]
    ensures AnyFlag(f) ==> forall g :: g in GenericTags ==> g !in HealthBenefits(f)
  {
  }

  // ---------------------------------------------------------------------
  // nutrient figures (the `next(...)` lookups)

  /** One entry of a detail record's nutrient list. */
  datatype Nutrient = Nutrient(name: string, amount: real)

  /** The amount of the first nutrient called `name`, or `'N/A'`. */
  function FirstAmount(nutrients: seq<Nutrient>, name: string): (a: Amount)
    ensures a.NotAvailable? <==> forall i :: 0 <= i < |nutrients| ==> nutrients[i].name != name
    ensures a.Known? ==> exists i :: 0 <= i < |nutrients| && nutrients[i].name == name
                                  && a.value == nutrients[i].amount
                                  && forall j :: 0 <= j < i ==> nutrients[j].name != name
  {
    if |nutrients| == 0 then NotAvailable
    else if nutrients[0].name == name then Known(nutrients[0].amount)
    else
      var a := FirstAmount(nutrients[1..], name);
      assert forall i :: 0 < i < |nutrients| ==> nutrients[i] == nutrients[1..][i - 1];
      a
  }
}
