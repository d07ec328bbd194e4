/**
 * The set logic of the favourites and watched lists (`toggleFavorite`,
 * `isFavorite`, `toggleWatchedIcon`, `toggleWatchedMovieIcon`), on the stored
 * lists as values. `Store.Store` holds the lists and applies these functions.
 *
 * For `tv`, favourites work on the `baseName` group: `isFavorite` looks up the
 * first catalog entry with the address and asks whether some stored address
 * resolves, the same way, to an entry with the same `baseName`.
 */
module Favorites {
  import opened Wrappers
  import opened Catalog

  // ---------------------------------------------------------------------------
  // Lookups in the tv catalog
  // ---------------------------------------------------------------------------

  /** `allItems.tv.find(i => i.url === url)`: the first entry with that address. */
  function FindByUrl(tv: seq<Entry>, url: string): (r: Option<Entry>)
    ensures r.Some? ==> r.value in tv && r.value.url == url
    ensures r.None? <==> forall e :: e in tv ==> e.url != url
    ensures |tv| > 0 && tv[0].url == url ==> r == Some(tv[0])
    ensures r.Some? ==> exists i :: 0 <= i < |tv| && tv[i] == r.value && forall j :: 0 <= j < i ==> tv[j].url != url
  {
    if tv == [] then None
    else if tv[0].url == url then Some(tv[0])
    else
      var r' := FindByUrl(tv[1..], url);
      assert r'.Some? ==> exists i :: 0 < i < |tv| && tv[i] == r'.value && forall j :: 0 <= j < i ==> tv[j].url != url by {
        if r'.Some? {
          var i :| 0 <= i < |tv[1..]| && tv[1..][i] == r'.value && forall j :: 0 <= j < i ==> tv[1..][j].url != url;
          assert forall j :: 0 <= j < i + 1 ==> tv[j].url != url by {
            forall j | 0 <= j < i + 1 ensures tv[j].url != url {
              if j > 0 { assert tv[j] == tv[1..][j - 1]; }
            }
          }
        }
      }
      r'
  }

  /** `url` resolves, through `FindByUrl`, to an entry of group `base`. */
  predicate InGroup(tv: seq<Entry>, url: string, base: Option<string>) {
    FindByUrl(tv, url).Some? && FindByUrl(tv, url).value.baseName == base
  }

  /** No two tv entries share an address. */
  predicate UniqueUrls(tv: seq<Entry>) {
    forall i, j :: 0 <= i < j < |tv| ==> tv[i].url != tv[j].url
  }

  /** `allItems.tv.filter(i => i.baseName === base).map(i => i.url)`. */
  function GroupUrls(tv: seq<Entry>, base: Option<string>): (r: seq<string>)
    ensures forall u :: u in r <==> exists e :: e in tv && e.baseName == base && e.url == u
  {
    if tv == [] then []
    else (if tv[0].baseName == base then [tv[0].url] else []) + GroupUrls(tv[1..], base)
  }

  /** `us.some(u => favs.includes(u))`. */
  predicate AnyIn(us: seq<string>, favs: seq<string>) {
    exists u :: u in us && u in favs
  }

  // ---------------------------------------------------------------------------
  // isFavorite / toggleFavorite for tv
  // ---------------------------------------------------------------------------

  /** `isFavorite('tv', url)` once the stored tv list exists. */
  predicate IsFavoriteTv(tv: seq<Entry>, favs: seq<string>, url: string) {
    FindByUrl(tv, url).Some? && exists f :: f in favs && InGroup(tv, f, FindByUrl(tv, url).value.baseName)
  }

  /** The filter run on un-favouriting group `base`: a stored address survives
      only when it still resolves to an entry, and that entry is of another group. */
  function KeepOtherGroups(tv: seq<Entry>, favs: seq<string>, base: Option<string>): (r: seq<string>)
    ensures |r| <= |favs|
    ensures forall f :: f in r <==> f in favs && FindByUrl(tv, f).Some? && !InGroup(tv, f, base)
  {
    if favs == [] then []
    else
      var f := favs[0];
      var keep := FindByUrl(tv, f).Some? && FindByUrl(tv, f).value.baseName != base;
      (if keep then [f] else []) + KeepOtherGroups(tv, favs[1..], base)
  }

  /** The stored tv list after `toggleFavorite('tv', url)`: unchanged for an
      address not in the catalog; otherwise, when some address of the entry's
      group is stored, every address of that group (and every address no longer
      in the catalog) is dropped, and when none is, `url` alone is appended. */
  function ToggleTv(tv: seq<Entry>, favs: seq<string>, url: string): (r: seq<string>)
    ensures FindByUrl(tv, url).None? ==> r == favs
  {
    match FindByUrl(tv, url)
    case None => favs
    case Some(item) =>
      if AnyIn(GroupUrls(tv, item.baseName), favs) then KeepOtherGroups(tv, favs, item.baseName)
      else favs + [url]
  }

  /** An address that resolves to an entry resolves to the first one with it. */
  lemma {:induction false} FindFirst(tv: seq<Entry>, i: nat)
    requires i < |tv| && UniqueUrls(tv)
    ensures FindByUrl(tv, tv[i].url) == Some(tv[i])
  {
    if i > 0 {
      assert tv[0].url != tv[i].url;
      assert tv[1..][i - 1] == tv[i];
      FindFirst(tv[1..], i - 1);
    }
  }

  /** With distinct addresses, the test `toggleFavorite` makes (some address of
      the group is stored) is exactly `isFavorite` of the toggled address. */
  lemma DecisionIsFavorite(tv: seq<Entry>, favs: seq<string>, url: string)
    requires UniqueUrls(tv) && FindByUrl(tv, url).Some?
    ensures AnyIn(GroupUrls(tv, FindByUrl(tv, url).value.baseName), favs)
        <==> IsFavoriteTv(tv, favs, url)
  {
    var base := FindByUrl(tv, url).value.baseName;
    if u :| u in GroupUrls(tv, base) && u in favs {
      var e :| e in tv && e.baseName == base && e.url == u;
      var i :| 0 <= i < |tv| && tv[i] == e;
      FindFirst(tv, i);
      assert InGroup(tv, u, base);
    }
    if f :| f in favs && InGroup(tv, f, base) {
      var e := FindByUrl(tv, f).value;
      assert f in GroupUrls(tv, base);
    }
  }

  /** Favouriting a group that had no stored address appends only `url`, and
      from then on every address of that group reads as a favourite. */
  lemma ToggleTvAdds(tv: seq<Entry>, favs: seq<string>, url: string)
    requires FindByUrl(tv, url).Some?
    requires !AnyIn(GroupUrls(tv, FindByUrl(tv, url).value.baseName), favs)
    ensures ToggleTv(tv, favs, url) == favs + [url]
    ensures forall u :: InGroup(tv, u, FindByUrl(tv, url).value.baseName)
                    ==> IsFavoriteTv(tv, ToggleTv(tv, favs, url), u)
  {
    var r := ToggleTv(tv, favs, url);
    assert url in r && InGroup(tv, url, FindByUrl(tv, url).value.baseName);
  }

  /** Un-favouriting a group leaves no address of it a favourite, keeps only
      addresses still in the catalog, and leaves every other group as it was. */
  lemma ToggleTvRemoves(tv: seq<Entry>, favs: seq<string>, url: string)
    requires FindByUrl(tv, url).Some?
    requires AnyIn(GroupUrls(tv, FindByUrl(tv, url).value.baseName), favs)
    ensures forall u :: InGroup(tv, u, FindByUrl(tv, url).value.baseName)
                    ==> !IsFavoriteTv(tv, ToggleTv(tv, favs, url), u)
    ensures forall f :: f in ToggleTv(tv, favs, url) ==> FindByUrl(tv, f).Some?
    ensures forall u :: FindByUrl(tv, u).Some? && !InGroup(tv, u, FindByUrl(tv, url).value.baseName)
                    ==> (IsFavoriteTv(tv, ToggleTv(tv, favs, url), u) <==> IsFavoriteTv(tv, favs, u))
  {
  }

  /** With distinct addresses, a toggle on an address in the catalog flips its
      favourite status. */
  lemma ToggleTvFlips(tv: seq<Entry>, favs: seq<string>, url: string)
    requires UniqueUrls(tv) && FindByUrl(tv, url).Some?
    ensures IsFavoriteTv(tv, ToggleTv(tv, favs, url), url) <==> !IsFavoriteTv(tv, favs, url)
  {
    var base := FindByUrl(tv, url).value.baseName;
    DecisionIsFavorite(tv, favs, url);
    assert InGroup(tv, url, base);
    if AnyIn(GroupUrls(tv, base), favs) {
      ToggleTvRemoves(tv, favs, url);
    } else {
      ToggleTvAdds(tv, favs, url);
    }
  }

  /** Two entries share the address `"u"`, in groups `A` and `B`, and `"u"` is
      stored. Toggling the `B` entry `"v"` finds `"u"` among its group's
      addresses, so it un-favourites; but `"u"` resolves to its first entry, of
      group `A`, so the filter keeps it and `"v"` stays a non-favourite. */
  lemma SharedUrlToggleKeepsState()
    ensures var tv := [Entry(None, "u", Some("A")), Entry(None, "u", Some("B")), Entry(None, "v", Some("B"))];
            !IsFavoriteTv(tv, ["u"], "v")
            && ToggleTv(tv, ["u"], "v") == ["u"]
            && !IsFavoriteTv(tv, ToggleTv(tv, ["u"], "v"), "v")
  {
    var a := Entry(None, "u", Some("A"));
    var b := Entry(None, "u", Some("B"));
    var c := Entry(None, "v", Some("B"));
    var tv := [a, b, c];
    assert FindByUrl(tv, "u") == Some(a);
    assert tv[1..][1..][0] == c;
    assert FindByUrl(tv, "v") == Some(c);
    assert "u" in GroupUrls(tv, Some("B"));
    assert KeepOtherGroups(tv, ["u"], Some("B")) == ["u"];
  }

  // ---------------------------------------------------------------------------
  // Plain per-address lists
  // ---------------------------------------------------------------------------

  predicate NoDuplicates(s: seq<string>) {
    forall i, j :: 0 <= i < j < |s| ==> s[i] != s[j]
  }

  /** `s.indexOf(x)` for an `x` that occurs. */
  function IndexOf(s: seq<string>, x: string): (i: nat)
    requires x in s
    ensures i < |s| && s[i] == x && x !in s[..i]
  {
    if s[0] == x then 0
    else
      var i := IndexOf(s[1..], x);
      assert s[..i + 1] == [s[0]] + s[1..][..i];
      i + 1
  }

  /** `s.splice(s.indexOf(x), 1)`: the first occurrence of `x` removed. */
  function RemoveFirst(s: seq<string>, x: string): (r: seq<string>)
    requires x in s
    ensures multiset(r) == multiset(s) - multiset{x}
    ensures |r| == |s| - 1
  {
    var i := IndexOf(s, x);
    assert s == s[..i] + [x] + s[i + 1..];
    s[..i] + s[i + 1..]
  }

  /** `s.filter(u => u !== x)`. */
  function RemoveAll(s: seq<string>, x: string): (r: seq<string>)
    ensures x !in r
    ensures forall y :: y != x ==> multiset(r)[y] == multiset(s)[y]
    ensures |r| <= |s|
  {
    if s == [] then []
    else
      assert s == [s[0]] + s[1..];
      (if s[0] == x then [] else [s[0]]) + RemoveAll(s[1..], x)
  }

  /** The movies and series favourite toggle: remove the first occurrence of a
      stored address, append an absent one. */
  function TogglePlain(s: seq<string>, x: string): (r: seq<string>)
    ensures x !in s ==> r == s + [x]
    ensures x in s ==> multiset(r) == multiset(s) - multiset{x}
    ensures forall y :: y != x ==> multiset(r)[y] == multiset(s)[y]
  {
    if x in s then RemoveFirst(s, x) else s + [x]
  }

  /** Both watched toggles: remove every occurrence of a stored address, append
      an absent one. */
  function ToggleWatched(s: seq<string>, x: string): (r: seq<string>)
    ensures x in r <==> x !in s
    ensures forall y :: y != x ==> multiset(r)[y] == multiset(s)[y]
  {
    if x in s then RemoveAll(s, x) else s + [x]
  }

  /** Toggling an absent address twice gives the list back. */
  lemma TogglePlainTwice(s: seq<string>, x: string)
    requires x !in s
    ensures TogglePlain(TogglePlain(s, x), x) == s
  {
    var t := s + [x];
    var i := IndexOf(t, x);
    assert forall j :: 0 <= j < |s| ==> t[j] == s[j];
    assert i == |s|;
    assert t[..i] == s;
  }

  /** A list without repeats keeps none: each toggle flips exactly the one address. */
  lemma TogglePlainNoDuplicates(s: seq<string>, x: string)
    requires NoDuplicates(s)
    ensures NoDuplicates(TogglePlain(s, x))
    ensures x in TogglePlain(s, x) <==> x !in s
  {
    var r := TogglePlain(s, x);
    if x in s {
      var i := IndexOf(s, x);
      assert forall a :: 0 <= a < |r| ==> r[a] == s[if a < i then a else a + 1];
    } else {
      assert forall a :: 0 <= a < |s| ==> r[a] == s[a];
    }
  }

  lemma ToggleWatchedTwice(s: seq<string>, x: string)
    requires x !in s
    ensures ToggleWatched(ToggleWatched(s, x), x) == s
  {
    RemoveAllAbsent(s, x);
    RemoveAllLast(s, x);
  }

  lemma {:induction false} RemoveAllAbsent(s: seq<string>, x: string)
    requires x !in s
    ensures RemoveAll(s, x) == s
  {
    if s != [] {
      assert x !in s[1..];
      RemoveAllAbsent(s[1..], x);
    }
  }

  lemma {:induction false} RemoveAllLast(s: seq<string>, x: string)
    ensures RemoveAll(s + [x], x) == RemoveAll(s, x)
  {
    if s == [] {
      assert RemoveAll([x], x) == [] + RemoveAll([x][1..], x);
    } else {
      assert (s + [x])[1..] == s[1..] + [x];
      RemoveAllLast(s[1..], x);
    }
  }

  // ---------------------------------------------------------------------------
  // The favourites object (`kind -> list`)
  // ---------------------------------------------------------------------------

  /** `favorites[section] || []`. */
  function FavList(favorites: map<Kind, seq<string>>, k: Kind): seq<string> {
    if k in favorites then favorites[k] else []
  }

  /** `isFavorite(section, url)`: false while the kind has no stored list. */
  predicate IsFavorite(favorites: map<Kind, seq<string>>, tv: seq<Entry>, k: Kind, url: string) {
    k in favorites && (if k == Tv then IsFavoriteTv(tv, favorites[Tv], url) else url in favorites[k])
  }

  /** The favourites object after `toggleFavorite(section, url)`: the kind's list
      is created when missing, then toggled; the other kinds are untouched. */
  function ToggleFavorite(favorites: map<Kind, seq<string>>, tv: seq<Entry>, k: Kind, url: string)
    : (r: map<Kind, seq<string>>)
    ensures k in r
    ensures r[k] == if k == Tv then ToggleTv(tv, FavList(favorites, k), url)
                    else TogglePlain(FavList(favorites, k), url)
    ensures forall k' :: k' != k ==> (k' in r <==> k' in favorites) && (k' in r ==> r[k'] == favorites[k'])
  {
    var s := FavList(favorites, k);
    favorites[k := if k == Tv then ToggleTv(tv, s, url) else TogglePlain(s, url)]
  }

  /** For movies and series, over a stored list without repeats, a toggle flips
      `isFavorite` of the address and keeps the list free of repeats. */
  lemma ToggleFavoriteFlips(favorites: map<Kind, seq<string>>, tv: seq<Entry>, k: Kind, url: string)
    requires k != Tv && NoDuplicates(FavList(favorites, k))
    ensures IsFavorite(ToggleFavorite(favorites, tv, k, url), tv, k, url) <==> !IsFavorite(favorites, tv, k, url)
    ensures NoDuplicates(FavList(ToggleFavorite(favorites, tv, k, url), k))
  {
    TogglePlainNoDuplicates(FavList(favorites, k), url);
  }

  /** For tv, with distinct addresses in the catalog, a toggle of an address in
      the catalog flips `isFavorite`, the stored list being created when
      missing. */
  lemma ToggleFavoriteFlipsTv(favorites: map<Kind, seq<string>>, tv: seq<Entry>, url: string)
    requires UniqueUrls(tv) && FindByUrl(tv, url).Some?
    ensures IsFavorite(ToggleFavorite(favorites, tv, Tv, url), tv, Tv, url) <==> !IsFavorite(favorites, tv, Tv, url)
  {
    var s := FavList(favorites, Tv);
    ToggleTvFlips(tv, s, url);
    assert IsFavorite(favorites, tv, Tv, url) <==> IsFavoriteTv(tv, s, url);
  }
}
