/**
 * What the catalog views compute from the lists: the alternatives of the
 * player modal and the one it starts on, the variants `playItem` collects,
 * the search filter, the tv cards grouped by base name and the movie cards
 * deduplicated by base title.
 */
module Views {
  import opened Wrappers
  import opened Text
  import opened Catalog
  import opened Names
  import opened Grouping
  import Favorites
  import Playlist

  // ---------------------------------------------------------------------------
  // Unique variants of the player modal
  // ---------------------------------------------------------------------------

  /** `arr.findIndex(x => x.url === url)`: the first index with that address, or -1. */
  function FindIndex(s: seq<Entry>, url: string): (r: int)
    ensures -1 <= r < |s|
    ensures r == -1 <==> forall i :: 0 <= i < |s| ==> s[i].url != url
    ensures r >= 0 ==> s[r].url == url && forall i :: 0 <= i < r ==> s[i].url != url
  {
    if s == [] then -1
    else if s[0].url == url then 0
    else
      var r := FindIndex(s[1..], url);
      assert forall i :: 1 <= i < |s| ==> s[i] == s[1..][i - 1];
      if r == -1 then -1 else r + 1
  }

  /** `variants.filter((v, i, arr) => arr.findIndex(x => x.url === v.url) === i)`,
      over the first `n` positions. */
  function FindIndexFilter(s: seq<Entry>, n: nat): seq<Entry>
    requires n <= |s|
  {
    if n == 0 then []
    else
      FindIndexFilter(s, n - 1) + (if FindIndex(s, s[n - 1].url) == n - 1 then [s[n - 1]] else [])
  }

  /** `uniqueVariants`: the first variant per address. */
  function UniqueVariants(variants: seq<Entry>): (r: seq<Entry>)
    ensures forall v :: v in r ==> v in variants
    ensures forall i, j :: 0 <= i < j < |r| ==> r[i].url != r[j].url
    ensures Keys(r, UrlOf) == Keys(variants, UrlOf)
  {
    KeepFirstBy(variants, UrlOf)
  }

  /** Every address among the variants is offered once. */
  lemma UniqueVariantsCover(variants: seq<Entry>, v: Entry)
    requires v in variants
    ensures exists w :: w in UniqueVariants(variants) && w.url == v.url
  {
    var r := UniqueVariants(variants);
    var i :| 0 <= i < |variants| && variants[i] == v;
    assert UrlOf(variants[i]) in Keys(r, UrlOf);
    KeysWitness(r, UrlOf, v.url);
  }

  /** The `findIndex` filter is the keep-first-per-address dedup. */
  lemma UniqueVariantsIsFindIndexFilter(variants: seq<Entry>)
    ensures UniqueVariants(variants) == FindIndexFilter(variants, |variants|)
  {
    FindIndexFilterPrefix(variants, |variants|);
    assert variants[..|variants|] == variants;
  }

  lemma {:induction false} FindIndexFilterPrefix(s: seq<Entry>, n: nat)
    requires n <= |s|
    ensures FindIndexFilter(s, n) == KeepFirstBy(s[..n], UrlOf)
  {
    if n > 0 {
      var t := s[..n - 1];
      var x := s[n - 1];
      var tail := if FindIndex(s, x.url) == n - 1 then [x] else [];
      assert FindIndexFilter(s, n) == FindIndexFilter(s, n - 1) + tail;
      FindIndexFilterPrefix(s, n - 1);
      SliceSnoc(s, n - 1);
      KeepFirstBySnoc(t, x, UrlOf);
      FirstIndexIsFirstKey(s, n - 1);
    }
  }

  /** Position `n` is where its address first occurs exactly when no earlier
      element has that address. */
  lemma FirstIndexIsFirstKey(s: seq<Entry>, n: nat)
    requires n < |s|
    ensures FindIndex(s, s[n].url) == n <==> s[n].url !in Keys(s[..n], UrlOf)
  {
    var t := s[..n];
    if s[n].url in Keys(t, UrlOf) {
      KeysWitness(t, UrlOf, s[n].url);
      var i :| 0 <= i < |t| && UrlOf(t[i]) == s[n].url;
      assert s[i] == t[i];
    } else {
      forall i | 0 <= i < n
        ensures s[i].url != s[n].url
      {
        assert s[i] == t[i];
        assert UrlOf(t[i]) in Keys(t, UrlOf);
      }
    }
  }

  /** `uniqueVariants.find(v => v.url === activeUrl) || uniqueVariants[0]`:
      the variant the modal starts playing; `None` when there is none. */
  function ToPlay(unique: seq<Entry>, activeUrl: string): (r: Option<Entry>)
    ensures r.Some? <==> unique != []
    ensures r.Some? ==> r.value in unique
    ensures (exists v :: v in unique && v.url == activeUrl) ==> r.Some? && r.value.url == activeUrl
    ensures (forall v :: v in unique ==> v.url != activeUrl) && unique != [] ==> r == Some(unique[0])
  {
    match Favorites.FindByUrl(unique, activeUrl)
    case Some(v) => Some(v)
    case None => if unique == [] then None else Some(unique[0])
  }

  /** The modal opens on the active address whenever some variant has it. */
  lemma ToPlayActive(variants: seq<Entry>, activeUrl: string)
    requires exists v :: v in variants && v.url == activeUrl
    ensures var r := ToPlay(UniqueVariants(variants), activeUrl);
            r.Some? && r.value.url == activeUrl && r.value in variants
  {
    var u := UniqueVariants(variants);
    var v :| v in variants && v.url == activeUrl;
    UniqueVariantsCover(variants, v);
  }

  // ---------------------------------------------------------------------------
  // Variants of playItem
  // ---------------------------------------------------------------------------

  /** `episode.baseName || getBaseChannelName(episode.name)`. */
  function TvKey(e: Entry): string {
    if e.baseName.Some? && e.baseName.value != [] then e.baseName.value
    else BaseChannelName(NameOf(e))
  }

  /** `getBaseMovieName(m.name)`. */
  function MovieKey(e: Entry): string {
    BaseMovieName(NameOf(e))
  }

  predicate HasBase(e: Entry, base: string) {
    e.baseName == Some(base)
  }

  predicate HasMovieBase(e: Entry, base: string) {
    MovieKey(e) == base
  }

  /** `allItems.tv.filter(i => i.baseName === base)`. */
  function ChannelVariants(tv: seq<Entry>, base: string): (r: seq<Entry>)
    ensures forall v :: v in r <==> v in tv && v.baseName == Some(base)
  {
    Filter(tv, e => HasBase(e, base))
  }

  /** `allItems.movies.filter(m => getBaseMovieName(m.name) === base)`. */
  function MovieVariants(movies: seq<Entry>, base: string): (r: seq<Entry>)
    ensures forall v :: v in r <==> v in movies && MovieKey(v) == base
  {
    Filter(movies, e => HasMovieBase(e, base))
  }

  /** The variants keep the list order of the channels: a channel appended to
      the list is appended to its variants when it has the base name, and
      only then. */
  lemma ChannelVariantsSnoc(tv: seq<Entry>, x: Entry, base: string)
    ensures ChannelVariants(tv + [x], base)
         == ChannelVariants(tv, base) + (if x.baseName == Some(base) then [x] else [])
  {
    FilterSnoc(tv, x, e => HasBase(e, base));
  }

  /** The movie variants keep the list order of the movies in the same way. */
  lemma MovieVariantsSnoc(movies: seq<Entry>, x: Entry, base: string)
    ensures MovieVariants(movies + [x], base)
         == MovieVariants(movies, base) + (if MovieKey(x) == base then [x] else [])
  {
    FilterSnoc(movies, x, e => HasMovieBase(e, base));
  }

  /** What `playItem` hands to the player modal: the variants and the type. */
  datatype Play = Play(variants: seq<Entry>, kind: Kind)

  /** `playItem(episode)`: the tv variants of its base name when the address is
      a tv one, else the movie variants of its base title when it is a movie
      one, else the episode alone as a series item. */
  function PlayItem(tv: seq<Entry>, movies: seq<Entry>, episode: Entry): (r: Play)
    ensures r.kind == Tv <==> exists i :: i in tv && i.url == episode.url
    ensures r.kind == Movies <==> (forall i :: i in tv ==> i.url != episode.url)
                                  && exists m :: m in movies && m.url == episode.url
    ensures r.kind == Tv ==> forall v :: v in r.variants <==> v in tv && v.baseName == Some(TvKey(episode))
    ensures r.kind == Movies ==> forall v :: v in r.variants <==> v in movies && MovieKey(v) == MovieKey(episode)
    ensures r.kind == Series ==> r.variants == [episode]
  {
    if exists i :: i in tv && i.url == episode.url then
      Play(ChannelVariants(tv, TvKey(episode)), Tv)
    else if exists m :: m in movies && m.url == episode.url then
      Play(MovieVariants(movies, MovieKey(episode)), Movies)
    else
      Play([episode], Series)
  }

  /** The tv list the parser builds: each entry's `baseName` is the base name of
      its own display name. */
  predicate WellFormedTv(tv: seq<Entry>) {
    forall e :: e in tv ==> e.baseName == Some(BaseChannelName(NameOf(e)))
  }

  lemma ParsedTvWellFormed(text: string)
    ensures WellFormedTv(Playlist.Parse(text, Tv))
  {
    forall e | e in Playlist.Parse(text, Tv)
      ensures e.baseName == Some(BaseChannelName(NameOf(e)))
    {
      Playlist.KindListMembers(Playlist.Completed(Playlist.SplitLines(text)), Tv, e);
    }
  }

  /** The key of a parsed channel is its `baseName`. */
  lemma TvKeyOfWellFormed(tv: seq<Entry>, e: Entry)
    requires WellFormedTv(tv) && e in tv
    ensures e.baseName == Some(TvKey(e))
  {
  }

  /** Playing a parsed channel offers the channel itself among its variants. */
  lemma PlayItemOffersChannel(tv: seq<Entry>, movies: seq<Entry>, episode: Entry)
    requires WellFormedTv(tv) && episode in tv
    ensures var r := PlayItem(tv, movies, episode);
            r.kind == Tv && episode in r.variants
  {
    TvKeyOfWellFormed(tv, episode);
  }

  /** Playing a movie offers the movie itself among its variants. */
  lemma PlayItemOffersMovie(tv: seq<Entry>, movies: seq<Entry>, episode: Entry)
    requires episode in movies && forall i :: i in tv ==> i.url != episode.url
    ensures var r := PlayItem(tv, movies, episode);
            r.kind == Movies && episode in r.variants
  {
  }

  // ---------------------------------------------------------------------------
  // Search
  // ---------------------------------------------------------------------------

  /** The item filter of `performSearch` for a non-empty query. */
  predicate Matches(e: Entry, section: Kind, query: string) {
    if section == Series then
      Contains(Lower(NameOf(e)), query)
    else
      (NameOf(e) != [] && Contains(Lower(NameOf(e)), query))
      || (GroupOf(e) != [] && Contains(Lower(GroupOf(e)), query))
  }

  /** `input.value.trim().toLowerCase()`. */
  function Query(input: string): string {
    Lower(Trim(input))
  }

  /** `performSearch(section)`: the whole list for a blank query, else the items
      matching it, in list order. */
  function Search(items: seq<Entry>, section: Kind, input: string): (r: seq<Entry>)
    requires section == Series && Query(input) != [] ==> forall i :: 0 <= i < |items| ==> IsNamed(items[i])
    ensures Query(input) == [] ==> r == items
    ensures forall e :: e in r <==> e in items && (Query(input) == [] || Matches(e, section, Query(input)))
    ensures |r| <= |items|
  {
    var q := Query(input);
    if q == [] then items
    else Filter(items, e => Matches(e, section, q))
  }

  /** The results keep the list order of the section: an item appended to the
      list is appended to the results when it matches the query (or the query
      is empty), and only then. */
  lemma SearchSnoc(items: seq<Entry>, x: Entry, section: Kind, input: string)
    requires section == Series && Query(input) != [] ==>
               forall i :: 0 <= i < |items| ==> IsNamed(items[i])
    requires section == Series && Query(input) != [] ==> IsNamed(x)
    ensures Search(items + [x], section, input)
         == Search(items, section, input)
            + (if Query(input) == [] || Matches(x, section, Query(input)) then [x] else [])
  {
    var q := Query(input);
    if q != [] {
      FilterSnoc(items, x, e => Matches(e, section, q));
    }
  }

  /** Searching the results again with the same query changes nothing. */
  lemma {:induction false} SearchTwice(items: seq<Entry>, section: Kind, input: string)
    requires forall i :: 0 <= i < |items| ==> IsNamed(items[i])
    ensures Search(Search(items, section, input), section, input) == Search(items, section, input)
  {
    var q := Query(input);
    if q != [] {
      FilterAll(Filter(items, e => Matches(e, section, q)), e => Matches(e, section, q));
    }
  }

  /** Filtering by a predicate every element meets keeps the whole sequence. */
  lemma {:induction false} FilterAll(s: seq<Entry>, p: Entry -> bool)
    requires forall i :: 0 <= i < |s| ==> p(s[i])
    ensures Filter(s, p) == s
  {
    if s != [] {
      var init := s[..|s| - 1];
      FilterAll(init, p);
      assert init + [s[|s| - 1]] == s;
    }
  }

  /** An empty name never matches, so tv and movie search finds entries without
      `#EXTINF` only through nothing at all. */
  lemma UnnamedNeverMatches(e: Entry, section: Kind, query: string)
    requires section != Series && e.meta.None? && query != []
    ensures !Matches(e, section, query)
  {
  }

  // ---------------------------------------------------------------------------
  // Cards
  // ---------------------------------------------------------------------------

  /** `Array.from(new Set(list.map(item => item.url)))`, then `.map(url => list.find(...))`
      over the given addresses. */
  function FindEach(list: seq<Entry>, urls: seq<string>): seq<Entry> {
    if urls == [] then []
    else
      FindEach(list, urls[..|urls| - 1])
        + (match Favorites.FindByUrl(list, urls[|urls| - 1])
           case Some(e) => [e]
           case None => [])
  }

  /** The distinct-address items of the tv view. */
  function UniqueItems(list: seq<Entry>): seq<Entry> {
    FindEach(list, FirstKeys(list, UrlOf))
  }

  /** The `Set`-then-`find` dedup is the keep-first-per-address dedup. */
  lemma {:induction false} UniqueItemsIsKeepFirst(list: seq<Entry>)
    ensures UniqueItems(list) == KeepFirstBy(list, UrlOf)
    decreases |list|
  {
    if list != [] {
      var init := list[..|list| - 1];
      var x := list[|list| - 1];
      assert init + [x] == list;
      UniqueItemsIsKeepFirst(init);
      FirstKeysSnoc(init, x, UrlOf);
      KeepFirstBySnoc(init, x, UrlOf);
      FindEachSnoc(init, x, FirstKeys(init, UrlOf));
      if x.url !in Keys(init, UrlOf) {
        FindByUrlNew(init, x);
      }
    }
  }

  /** Looking up addresses the first part already has ignores what comes after. */
  lemma {:induction false} FindEachSnoc(init: seq<Entry>, x: Entry, urls: seq<string>)
    requires forall u :: u in urls ==> u in Keys(init, UrlOf)
    ensures FindEach(init + [x], urls) == FindEach(init, urls)
  {
    if urls != [] {
      var u := urls[|urls| - 1];
      FindEachSnoc(init, x, urls[..|urls| - 1]);
      FindByUrlSnoc(init, x, u);
    }
  }

  lemma {:induction false} FindByUrlSnoc(init: seq<Entry>, x: Entry, u: string)
    requires u in Keys(init, UrlOf)
    ensures Favorites.FindByUrl(init + [x], u) == Favorites.FindByUrl(init, u)
  {
    KeysWitness(init, UrlOf, u);
    if init[0].url != u {
      assert (init + [x])[1..] == init[1..] + [x];
      var i :| 0 <= i < |init| && UrlOf(init[i]) == u;
      assert UrlOf(init[1..][i - 1]) in Keys(init[1..], UrlOf);
      FindByUrlSnoc(init[1..], x, u);
    }
  }

  lemma {:induction false} FindByUrlNew(init: seq<Entry>, x: Entry)
    requires x.url !in Keys(init, UrlOf)
    ensures Favorites.FindByUrl(init + [x], x.url) == Some(x)
  {
    if init != [] {
      assert (init + [x])[1..] == init[1..] + [x];
      assert init[0].url != x.url by {
        assert UrlOf(init[0]) in Keys(init, UrlOf);
      }
      forall i | 0 <= i < |init[1..]|
        ensures UrlOf(init[1..][i]) != x.url
      {
        assert init[1..][i] == init[i + 1];
        assert UrlOf(init[i + 1]) in Keys(init, UrlOf);
      }
      if x.url in Keys(init[1..], UrlOf) {
        KeysWitness(init[1..], UrlOf, x.url);
      }
      FindByUrlNew(init[1..], x);
    }
  }

  /** The tv view's `grouped` map and its keys in the order they are shown:
      the distinct-address items bucketed by base name. */
  method TvCards(list: seq<Entry>) returns (grouped: map<string, seq<Entry>>, bases: seq<string>)
    ensures bases == FirstKeys(KeepFirstBy(list, UrlOf), TvKey)
    ensures grouped.Keys == Keys(KeepFirstBy(list, UrlOf), TvKey)
    ensures forall b :: b in grouped ==> grouped[b] == Members(KeepFirstBy(list, UrlOf), TvKey, b)
  {
    UniqueItemsIsKeepFirst(list);
    var unique := UniqueItems(list);
    grouped, bases := GroupBy(unique, TvKey);
  }

  /** No tv card lists an address twice. */
  lemma TvCardUrlsDistinct(list: seq<Entry>, base: string)
    ensures var m := Members(KeepFirstBy(list, UrlOf), TvKey, base);
            forall i, j :: 0 <= i < j < |m| ==> m[i].url != m[j].url
  {
    MembersDistinct(KeepFirstBy(list, UrlOf), TvKey, UrlOf, base);
  }

  /** Every tv card has a primary variant: on a parsed tv list, the
      `allItems.tv.filter(i => i.baseName === base)` of a card's base name is not
      empty, so `variants[0]` exists. */
  lemma CardPrimaryExists(tv: seq<Entry>, list: seq<Entry>, base: string)
    requires WellFormedTv(tv)
    requires forall e :: e in list ==> e in tv
    requires base in Keys(KeepFirstBy(list, UrlOf), TvKey)
    ensures ChannelVariants(tv, base) != []
  {
    var r := KeepFirstBy(list, UrlOf);
    KeysWitness(r, TvKey, base);
    var i :| 0 <= i < |r| && TvKey(r[i]) == base;
    TvKeyOfWellFormed(tv, r[i]);
    assert r[i] in ChannelVariants(tv, base);
  }

  /** The movie view's `seenBaseNames` loop: the first movie per base title,
      in list order. */
  method DedupMovies(list: seq<Entry>) returns (unique: seq<Entry>)
    ensures unique == KeepFirstBy(list, MovieKey)
  {
    unique := [];
    var seen: set<string> := {};
    for i := 0 to |list|
      invariant unique == KeepFirstBy(list[..i], MovieKey)
      invariant seen == Keys(list[..i], MovieKey)
    {
      var item := list[i];
      var base := BaseMovieName(NameOf(item));
      SliceSnoc(list, i);
      KeysSnoc(list[..i], item, MovieKey);
      KeepFirstBySnoc(list[..i], item, MovieKey);
      if base !in seen {
        unique := unique + [item];
        seen := seen + {base};
      }
    }
    assert list[..|list|] == list;
  }

  /** One movie card per base title: no two cards share one, and every title of
      the list has its card. */
  lemma DedupMoviesCards(list: seq<Entry>)
    ensures var r := KeepFirstBy(list, MovieKey);
            (forall i, j :: 0 <= i < j < |r| ==> MovieKey(r[i]) != MovieKey(r[j]))
            && forall m :: m in list ==> exists c :: c in r && MovieKey(c) == MovieKey(m)
  {
    var r := KeepFirstBy(list, MovieKey);
    forall m | m in list
      ensures exists c :: c in r && MovieKey(c) == MovieKey(m)
    {
      var i :| 0 <= i < |list| && list[i] == m;
      assert MovieKey(list[i]) in Keys(r, MovieKey);
      KeysWitness(r, MovieKey, MovieKey(m));
    }
  }

  /** A bucket of a sequence with distinct `g`-keys has distinct `g`-keys. */
  lemma {:induction false} MembersDistinct<T(!new), K(!new), U(!new)>(s: seq<T>, f: T -> K, g: T -> U, k: K)
    requires forall i, j :: 0 <= i < j < |s| ==> g(s[i]) != g(s[j])
    ensures var m := Members(s, f, k); forall i, j :: 0 <= i < j < |m| ==> g(m[i]) != g(m[j])
  {
    if s != [] {
      var init := s[..|s| - 1];
      var x := s[|s| - 1];
      assert init + [x] == s;
      MembersDistinct(init, f, g, k);
      MembersSnoc(init, x, f, k);
      var m0 := Members(init, f, k);
      forall y | y in m0
        ensures g(y) != g(x)
      {
        var i :| 0 <= i < |init| && init[i] == y;
        assert s[i] == y;
      }
      var m := Members(s, f, k);
      forall i, j | 0 <= i < j < |m|
        ensures g(m[i]) != g(m[j])
      {
        if j < |m0| {
          assert m[i] == m0[i] && m[j] == m0[j];
        } else {
          assert m[i] == m0[i] && m[j] == x;
          assert m0[i] in m0;
        }
      }
    }
  }
}
