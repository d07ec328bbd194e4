/**
 * The category column of `renderSection`: the distinct groups of the shown
 * items, ordered with the starred ones first and the crossed-out ones last,
 * the items behind each category button, the favourites button and the
 * category that is selected when the section is drawn.
 *
 * The alphabetical tie-break is `localeCompare(b, 'pt-BR')`, whose collation
 * tables are not modelled: it is the parameter `locale`. The tier properties
 * hold whatever it returns; the order within a tier is proved for any
 * `locale` that is a consistent order (`Collation`).
 */
module Categories {
  import opened Catalog
  import opened Grouping

  /** U+2B50 WHITE MEDIUM STAR. */
  const Star: char := '\U{2B50}'
  /** U+274C CROSS MARK. */
  const Cross: char := '\U{274C}'

  /** The group of items without one. */
  const Others: string := "Outros"

  /** The text of the favourites button, also the saved name of its view. */
  const FavoritesLabel: string := [Star] + " Favoritos"

  /** `i.group || 'Outros'`. */
  function CategoryOf(e: Entry): (r: string)
    ensures r != []
    ensures GroupOf(e) == [] ==> r == Others
    ensures GroupOf(e) != [] ==> r == GroupOf(e)
  {
    if GroupOf(e) != [] then GroupOf(e) else Others
  }

  // ---------------------------------------------------------------------------
  // The comparator
  // ---------------------------------------------------------------------------

  /** The comparator passed to `catArray.sort`, branch by branch. */
  function Compare(a: string, b: string, locale: (string, string) -> int): int {
    var aHasStar := Star in a;
    var bHasStar := Star in b;
    var aHasX := Cross in a;
    var bHasX := Cross in b;
    if aHasStar && !bHasStar then -1
    else if !aHasStar && bHasStar then 1
    else if aHasX && !bHasX then 1
    else if !aHasX && bHasX then -1
    else locale(a, b)
  }

  /** The place of a name's tier: starred before plain, and within each, without
      a cross before with one. */
  function Rank(a: string): nat {
    (if Star in a then 0 else 2) + (if Cross in a then 1 else 0)
  }

  /** The comparator orders by tier and leaves only equal tiers to `locale`. */
  lemma CompareByRank(a: string, b: string, locale: (string, string) -> int)
    ensures Compare(a, b, locale)
         == if Rank(a) < Rank(b) then -1 else if Rank(a) > Rank(b) then 1 else locale(a, b)
  {
  }

  // ---------------------------------------------------------------------------
  // The sort
  // ---------------------------------------------------------------------------

  /** `x` placed before the first element that `Compare` puts after it. */
  function InsertBy(x: string, s: seq<string>, locale: (string, string) -> int): (r: seq<string>)
    ensures |r| == |s| + 1
    ensures multiset(r) == multiset(s) + multiset{x}
  {
    if s == [] || Compare(x, s[0], locale) < 0 then [x] + s
    else
      assert s == [s[0]] + s[1..];
      [s[0]] + InsertBy(x, s[1..], locale)
  }

  /** `catArray.sort(compare)`, as a stable insertion sort taking the elements
      left to right. */
  function SortBy(s: seq<string>, locale: (string, string) -> int): (r: seq<string>)
    ensures |r| == |s|
    ensures multiset(r) == multiset(s)
  {
    if s == [] then []
    else
      assert s == s[..|s| - 1] + [s[|s| - 1]];
      InsertBy(s[|s| - 1], SortBy(s[..|s| - 1], locale), locale)
  }

  predicate RankSorted(s: seq<string>) {
    forall i, j :: 0 <= i < j < |s| ==> Rank(s[i]) <= Rank(s[j])
  }

  /** Inserting keeps the tiers in order, whatever `locale` says. */
  lemma {:induction false} InsertByRankSorted(x: string, s: seq<string>, locale: (string, string) -> int)
    requires RankSorted(s)
    ensures RankSorted(InsertBy(x, s, locale))
  {
    if s != [] {
      CompareByRank(x, s[0], locale);
      if Compare(x, s[0], locale) < 0 {
        ConsRankSorted(x, s);
      } else {
        var t := s[1..];
        InsertByRankSorted(x, t, locale);
        InsertByBound(x, t, locale, Rank(s[0]));
        ConsRankSorted(s[0], InsertBy(x, t, locale));
      }
    }
  }

  /** Every tier in the result of an insertion is at least a bound all the
      inputs meet. */
  lemma InsertByBound(x: string, t: seq<string>, locale: (string, string) -> int, lo: nat)
    requires lo <= Rank(x) && forall y :: y in t ==> lo <= Rank(y)
    ensures forall y :: y in InsertBy(x, t, locale) ==> lo <= Rank(y)
  {
    var r := InsertBy(x, t, locale);
    forall y | y in r
      ensures lo <= Rank(y)
    {
      assert y in multiset(r);
    }
  }

  lemma ConsRankSorted(x: string, s: seq<string>)
    requires RankSorted(s) && forall y :: y in s ==> Rank(x) <= Rank(y)
    ensures RankSorted([x] + s)
  {
    var r := [x] + s;
    forall i, j | 0 <= i < j < |r|
      ensures Rank(r[i]) <= Rank(r[j])
    {
      assert r[j] == s[j - 1];
      if i > 0 {
        assert r[i] == s[i - 1];
      }
    }
  }

  /** The sorted categories are in tier order, whatever `locale` says. */
  lemma {:induction false} SortByRankSorted(s: seq<string>, locale: (string, string) -> int)
    ensures RankSorted(SortBy(s, locale))
  {
    if s != [] {
      SortByRankSorted(s[..|s| - 1], locale);
      InsertByRankSorted(s[|s| - 1], SortBy(s[..|s| - 1], locale), locale);
    }
  }

  /** What `localeCompare` promises: its sign flips when the arguments are
      swapped, and "not after" is transitive. */
  ghost predicate Collation(locale: (string, string) -> int) {
    (forall a, b :: locale(a, b) < 0 <==> locale(b, a) > 0)
    && (forall a, b, c :: locale(a, b) <= 0 && locale(b, c) <= 0 ==> locale(a, c) <= 0)
  }

  /** Each name is not after any later one, by the comparator itself. */
  predicate SortedBy(s: seq<string>, locale: (string, string) -> int) {
    forall i, j :: 0 <= i < j < |s| ==> Compare(s[i], s[j], locale) <= 0
  }

  lemma CompareFlip(a: string, b: string, locale: (string, string) -> int)
    requires Collation(locale)
    ensures Compare(a, b, locale) >= 0 ==> Compare(b, a, locale) <= 0
  {
    CompareByRank(a, b, locale);
    CompareByRank(b, a, locale);
  }

  lemma CompareTrans(a: string, b: string, c: string, locale: (string, string) -> int)
    requires Collation(locale)
    ensures Compare(a, b, locale) <= 0 && Compare(b, c, locale) <= 0 ==> Compare(a, c, locale) <= 0
  {
    CompareByRank(a, b, locale);
    CompareByRank(b, c, locale);
    CompareByRank(a, c, locale);
  }

  lemma ConsSortedBy(x: string, s: seq<string>, locale: (string, string) -> int)
    requires SortedBy(s, locale) && forall y :: y in s ==> Compare(x, y, locale) <= 0
    ensures SortedBy([x] + s, locale)
  {
    var r := [x] + s;
    forall i, j | 0 <= i < j < |r|
      ensures Compare(r[i], r[j], locale) <= 0
    {
      assert r[j] == s[j - 1];
      if i > 0 {
        assert r[i] == s[i - 1];
      }
    }
  }

  /** With a consistent collation, inserting keeps the whole comparator order. */
  lemma {:induction false} InsertBySorted(x: string, s: seq<string>, locale: (string, string) -> int)
    requires Collation(locale) && SortedBy(s, locale)
    ensures SortedBy(InsertBy(x, s, locale), locale)
  {
    if s != [] {
      if Compare(x, s[0], locale) < 0 {
        forall y | y in s
          ensures Compare(x, y, locale) <= 0
        {
          var k :| 0 <= k < |s| && s[k] == y;
          if k > 0 {
            CompareTrans(x, s[0], y, locale);
          }
        }
        ConsSortedBy(x, s, locale);
      } else {
        var t := s[1..];
        assert SortedBy(t, locale) by {
          forall i, j | 0 <= i < j < |t|
            ensures Compare(t[i], t[j], locale) <= 0
          {
            assert t[i] == s[i + 1] && t[j] == s[j + 1];
          }
        }
        InsertBySorted(x, t, locale);
        CompareFlip(x, s[0], locale);
        var r := InsertBy(x, t, locale);
        forall y | y in r
          ensures Compare(s[0], y, locale) <= 0
        {
          assert y in multiset(r);
          if y != x {
            var k :| 0 <= k < |t| && t[k] == y;
            assert s[k + 1] == y;
          }
        }
        ConsSortedBy(s[0], r, locale);
      }
    }
  }

  /** With a consistent collation, the sorted categories are in the comparator's
      order: by tier, and alphabetically by `locale` within a tier. */
  lemma {:induction false} SortBySorted(s: seq<string>, locale: (string, string) -> int)
    requires Collation(locale)
    ensures SortedBy(SortBy(s, locale), locale)
  {
    if s != [] {
      SortBySorted(s[..|s| - 1], locale);
      InsertBySorted(s[|s| - 1], SortBy(s[..|s| - 1], locale), locale);
    }
  }

  // ---------------------------------------------------------------------------
  // The category column
  // ---------------------------------------------------------------------------

  /** `catArray`: the distinct categories of the shown items, sorted. */
  function CategoryList(items: seq<Entry>, locale: (string, string) -> int): (r: seq<string>)
    ensures multiset(r) == multiset(FirstKeys(items, CategoryOf))
  {
    SortBy(FirstKeys(items, CategoryOf), locale)
  }

  /** Each category of the shown items gets one button, and no other button is
      made. */
  lemma CategoryListMembers(items: seq<Entry>, locale: (string, string) -> int, c: string)
    ensures c in CategoryList(items, locale) <==> c in Keys(items, CategoryOf)
  {
    var r := CategoryList(items, locale);
    assert c in r <==> c in multiset(r);
    assert c in FirstKeys(items, CategoryOf) <==> c in multiset(FirstKeys(items, CategoryOf));
  }

  /** No category is listed twice. */
  lemma CategoryListDistinct(items: seq<Entry>, locale: (string, string) -> int)
    ensures var r := CategoryList(items, locale);
            forall i, j :: 0 <= i < j < |r| ==> r[i] != r[j]
  {
    var r := CategoryList(items, locale);
    var keys := FirstKeys(items, CategoryOf);
    forall i, j | 0 <= i < j < |r|
      ensures r[i] != r[j]
    {
      if r[i] == r[j] {
        TwoOccurrences(r, i, j);
        DistinctCount(keys, r[i]);
      }
    }
  }

  /** Starred categories come first and crossed-out, unstarred ones last. */
  lemma StarsFirstCrossesLast(items: seq<Entry>, locale: (string, string) -> int, i: nat, j: nat)
    requires i < j < |CategoryList(items, locale)|
    ensures var r := CategoryList(items, locale);
            (Star in r[j] ==> Star in r[i])
            && (Star !in r[i] && Cross in r[i] ==> Star !in r[j] && Cross in r[j])
  {
    SortByRankSorted(FirstKeys(items, CategoryOf), locale);
  }

  /** A sole starred name is sorted to the front. */
  lemma SoleStarFirst(s: seq<string>, locale: (string, string) -> int, x: string)
    requires x in s && Star in x
    requires forall y :: y in s && Star in y ==> y == x
    ensures |SortBy(s, locale)| > 0 && SortBy(s, locale)[0] == x
  {
    var r := SortBy(s, locale);
    SortByRankSorted(s, locale);
    var i := IndexIn(r, s, x);
    assert Rank(r[0]) <= Rank(r[i]);
    assert r[0] in multiset(s);
  }

  /** A sole crossed-out, unstarred name is sorted to the back. */
  lemma SoleCrossLast(s: seq<string>, locale: (string, string) -> int, x: string)
    requires x in s && Cross in x && Star !in x
    requires forall y :: y in s && Cross in y && Star !in y ==> y == x
    ensures |SortBy(s, locale)| > 0 && SortBy(s, locale)[|SortBy(s, locale)| - 1] == x
  {
    var r := SortBy(s, locale);
    SortByRankSorted(s, locale);
    var i := IndexIn(r, s, x);
    var last := r[|r| - 1];
    assert Rank(x) == 3;
    assert Rank(x) <= Rank(last);
    RankThree(last);
    assert last in multiset(s);
  }

  lemma RankThree(a: string)
    requires Rank(a) >= 3
    ensures Cross in a && Star !in a
  {
  }

  /** Where an element of `s` sits in a permutation `r` of it. */
  lemma IndexIn(r: seq<string>, s: seq<string>, x: string) returns (i: nat)
    requires multiset(r) == multiset(s) && x in s
    ensures i < |r| && r[i] == x
  {
    assert x in multiset(r);
    i :| 0 <= i < |r| && r[i] == x;
  }

  /** With one starred and one crossed-out group, the starred one heads the
      column and the crossed-out one ends it, whatever the collation. */
  lemma StarAndCrossExample(s: seq<string>, top: string, crossed: string, locale: (string, string) -> int)
    requires top == [Star] + " Top" && crossed == [Cross] + " Old"
    requires |s| == 4 && s[0] == "Zebra" && s[1] == top && s[2] == crossed && s[3] == "Anime"
    ensures var r := SortBy(s, locale);
            |r| == 4 && r[0] == top && r[3] == crossed
  {
    assert Star in top && Cross in crossed;
    PlainName("Zebra");
    PlainName("Anime");
    assert Star !in crossed && Cross !in top;
    assert forall y :: y in s ==> y == "Zebra" || y == top || y == crossed || y == "Anime";
    SoleStarFirst(s, locale, top);
    SoleCrossLast(s, locale, crossed);
  }

  /** The same four groups under a collation that puts `Anime` before `Zebra`:
      the whole column is `⭐ Top`, `Anime`, `Zebra`, `❌ Old`. */
  lemma StarAndCrossOrdered(s: seq<string>, top: string, crossed: string, locale: (string, string) -> int)
    requires top == [Star] + " Top" && crossed == [Cross] + " Old"
    requires |s| == 4 && s[0] == "Zebra" && s[1] == top && s[2] == crossed && s[3] == "Anime"
    requires Collation(locale) && locale("Anime", "Zebra") < 0
    ensures SortBy(s, locale) == [top, "Anime", "Zebra", crossed]
  {
    var r := SortBy(s, locale);
    StarAndCrossExample(s, top, crossed, locale);
    SortBySorted(s, locale);
    ZebraAfterAnime(locale);
    FourInOrder(r, s, top, crossed, Compare(r[1], r[2], locale), Compare("Zebra", "Anime", locale));
  }

  /** The arrangement of the example, once the ends are fixed and the middle
      pair is known not to be `Zebra` before `Anime`. */
  lemma FourInOrder(r: seq<string>, s: seq<string>, top: string, crossed: string, mid: int, za: int)
    requires top == [Star] + " Top" && crossed == [Cross] + " Old"
    requires |s| == 4 && s[0] == "Zebra" && s[1] == top && s[2] == crossed && s[3] == "Anime"
    requires |r| == 4 && r[0] == top && r[3] == crossed && multiset(r) == multiset(s)
    requires mid <= 0 && za > 0 && (r[1] == "Zebra" && r[2] == "Anime" ==> mid == za)
    ensures r == [top, "Anime", "Zebra", crossed]
  {
    assert s == [s[0], s[1], s[2], s[3]];
    assert top[0] == Star && crossed[0] == Cross;
    MiddlePair(r, top, "Zebra", "Anime", crossed);
    assert r == [r[0], r[1], r[2], r[3]];
  }

  /** The two middle places of a four-element arrangement with fixed ends hold
      the two middle elements, one way round or the other. */
  lemma MiddlePair<T>(r: seq<T>, p: T, x: T, y: T, q: T)
    requires x != y && x != p && x != q && y != p && y != q
    requires |r| == 4 && r[0] == p && r[3] == q
    requires multiset(r) == multiset([x, p, q, y])
    ensures (r[1] == x && r[2] == y) || (r[1] == y && r[2] == x)
  {
    assert r == [p] + [r[1]] + [r[2]] + [q];
    assert multiset(r)[x] == 1 && multiset(r)[y] == 1;
  }

  lemma ZebraAfterAnime(locale: (string, string) -> int)
    requires Collation(locale) && locale("Anime", "Zebra") < 0
    ensures Compare("Zebra", "Anime", locale) > 0
  {
    PlainName("Zebra");
    PlainName("Anime");
    CompareByRank("Zebra", "Anime", locale);
  }

  lemma PlainName(a: string)
    requires |a| == 5 && forall k :: 0 <= k < 5 ==> 'A' <= a[k] <= 'z'
    ensures Star !in a && Cross !in a
  {
  }

  /** The items behind a category button: `items.filter(i => (i.group || 'Outros') === cat)`. */
  function CategoryItems(items: seq<Entry>, cat: string): (r: seq<Entry>)
    ensures forall e :: e in r <==> e in items && CategoryOf(e) == cat
  {
    Members(items, CategoryOf, cat)
  }

  /** The items behind the favourites button:
      `allItems[section].filter(item => favoriteUrls.includes(item.url))`. */
  function FavoriteItems(items: seq<Entry>, favUrls: seq<string>): (r: seq<Entry>)
    ensures forall e :: e in r <==> e in items && e.url in favUrls
  {
    Filter(items, e => InList(e, favUrls))
  }

  /** The favourites view keeps the list order of the section: an item
      appended to the list is appended to the view when its address is a
      favourite, and only then. */
  lemma FavoriteItemsSnoc(items: seq<Entry>, x: Entry, favUrls: seq<string>)
    ensures FavoriteItems(items + [x], favUrls)
         == FavoriteItems(items, favUrls) + (if x.url in favUrls then [x] else [])
  {
    FilterSnoc(items, x, e => InList(e, favUrls));
  }

  predicate InList(e: Entry, urls: seq<string>) {
    e.url in urls
  }

  // ---------------------------------------------------------------------------
  // The view selected when the section is drawn
  // ---------------------------------------------------------------------------

  datatype View = FavoritesView | CategoryView(cat: string)

  /** The saved category when a button has its text (the favourites button is
      looked at first), else the first category, else the favourites view. An
      empty saved name counts as none. */
  function InitialView(cats: seq<string>, lastCat: string): (r: View)
    ensures r.CategoryView? ==> r.cat in cats
    ensures lastCat == FavoritesLabel ==> r == FavoritesView
    ensures lastCat != [] && lastCat != FavoritesLabel && lastCat in cats ==> r == CategoryView(lastCat)
    ensures (lastCat == [] || (lastCat != FavoritesLabel && lastCat !in cats))
            ==> r == if cats == [] then FavoritesView else CategoryView(cats[0])
  {
    if lastCat != [] && lastCat == FavoritesLabel then FavoritesView
    else if lastCat != [] && lastCat in cats then CategoryView(lastCat)
    else if cats != [] then CategoryView(cats[0])
    else FavoritesView
  }
}
