/**
 * The player's state: the three catalog lists (`allItems`) and the lists kept
 * in the browser's storage (`favorites`, `watchedEpisodes`, `watchedMovies`),
 * with the operations that update them in place. The storage is modelled as
 * the fields it holds: each `get...`/`save...` pair becomes a read and a write
 * of a field.
 */
module Store {
  import opened Wrappers
  import opened Text
  import opened Catalog
  import opened Names
  import opened Playlist
  import Favorites
  import Views

  class Store {
    var tv: seq<Entry>
    var movies: seq<Entry>
    var series: seq<Entry>
    var favorites: map<Kind, seq<string>>
    var watchedEpisodes: seq<string>
    var watchedMovies: seq<string>

    /** An empty catalog and empty stored lists. */
    constructor()
      ensures tv == [] && movies == [] && series == []
      ensures favorites == map[] && watchedEpisodes == [] && watchedMovies == []
    {
      tv, movies, series := [], [], [];
      favorites := map[];
      watchedEpisodes, watchedMovies := [], [];
    }

    /** The three lists hold the entries completed by the lines `done`, each
        in the list of its kind. */
    ghost predicate Filed(done: seq<string>)
      reads this
    {
      && tv == KindList(Completed(done), Tv)
      && movies == KindList(Completed(done), Movies)
      && series == KindList(Completed(done), Series)
    }

    /** `parseM3U(text)`: rebuilds the three lists from the playlist text, one
        line at a time, and leaves the stored lists alone. Every channel's
        `baseName` is then the base name of its own display name. */
    method ParseM3U(text: string)
      modifies this
      ensures tv == Parse(text, Tv) && movies == Parse(text, Movies) && series == Parse(text, Series)
      ensures Views.WellFormedTv(tv)
      ensures favorites == old(favorites)
      ensures watchedEpisodes == old(watchedEpisodes) && watchedMovies == old(watchedMovies)
    {
      tv, movies, series := [], [], [];
      var current: Option<Meta> := None;
      var lines := SplitLines(text);
      for i := 0 to |lines|
        invariant current == Pending(lines[..i]) && Filed(lines[..i])
        invariant favorites == old(favorites)
        invariant watchedEpisodes == old(watchedEpisodes) && watchedMovies == old(watchedMovies)
      {
        assert lines[..i + 1] == lines[..i] + [lines[i]];
        current := ParseLine(lines[..i], lines[i], current);
      }
      assert lines[..|lines|] == lines;
      Views.ParsedTvWellFormed(text);
    }

    /** The body of the `forEach` over the lines: an `#EXTINF` line becomes
        the pending metadata, an address line completes the pending item and
        files it, anything else (blank lines, other directives) is skipped. */
    method ParseLine(ghost done: seq<string>, line: string, current: Option<Meta>)
      returns (next: Option<Meta>)
      requires current == Pending(done) && Filed(done)
      modifies this`tv, this`movies, this`series
      ensures next == Pending(done + [line]) && Filed(done + [line])
    {
      Snoc(done, line);
      if StartsWith(line, "#EXTINF") {
        ExtinfNotAddress(line);
        assert Completed(done + [line]) == Completed(done);
        next := Some(ParseExtinf(line));
      } else if line != [] && line[0] != '#' {
        var url := Trim(line);
        ghost var raw := RawEntry(current, url);
        assert Completed(done + [line]) == Completed(done) + [raw];
        KindListSnoc(Completed(done), raw, Tv);
        KindListSnoc(Completed(done), raw, Movies);
        KindListSnoc(Completed(done), raw, Series);
        Push(Classify(url), current, url);
        next := None;
      } else {
        assert Completed(done + [line]) == Completed(done);
        next := current;
      }
    }

    /** The completed item `{...current, url}` pushed onto the list of kind
        `k`, the tv one with its `baseName`; no kind drops it. The kind is the
        one `Classify` picks (the `if` chain of `/series/i`, `/movie/i` and
        the `.ts`/`.m3u8` tests). */
    method Push(k: Option<Kind>, current: Option<Meta>, url: string)
      modifies this`tv, this`movies, this`series
      ensures tv == (if k == Some(Tv) then old(tv) + [ToEntry(RawEntry(current, url), Tv)] else old(tv))
      ensures movies == (if k == Some(Movies) then old(movies) + [ToEntry(RawEntry(current, url), Movies)] else old(movies))
      ensures series == (if k == Some(Series) then old(series) + [ToEntry(RawEntry(current, url), Series)] else old(series))
    {
      match k
      case Some(Series) =>
        series := series + [Entry(current, url, None)];
      case Some(Movies) =>
        movies := movies + [Entry(current, url, None)];
      case Some(Tv) =>
        var base := GetBaseChannelName(NameOr(current));
        tv := tv + [Entry(current, url, Some(base))];
      case None =>
    }

    /** `isFavorite(section, url)`. */
    predicate IsFavorite(k: Kind, url: string)
      reads this
    {
      Favorites.IsFavorite(favorites, tv, k, url)
    }

    /** `toggleFavorite(section, url)`: flips the address in the kind's stored
        list (for tv, the channel's whole `baseName` group), creating the list
        when it is missing; the catalog and the other lists stay as they were. */
    method ToggleFavorite(k: Kind, url: string)
      modifies this
      ensures favorites == Favorites.ToggleFavorite(old(favorites), tv, k, url)
      ensures k in favorites
      ensures k != Tv && Favorites.NoDuplicates(Favorites.FavList(old(favorites), k))
              ==> (IsFavorite(k, url) <==> !old(IsFavorite(k, url)))
      ensures k == Tv && Favorites.UniqueUrls(tv) && Favorites.FindByUrl(tv, url).Some?
              ==> (IsFavorite(k, url) <==> !old(IsFavorite(k, url)))
      ensures tv == old(tv) && movies == old(movies) && series == old(series)
      ensures watchedEpisodes == old(watchedEpisodes) && watchedMovies == old(watchedMovies)
    {
      ghost var before := favorites;
      favorites := Favorites.ToggleFavorite(favorites, tv, k, url);
      if k != Tv && Favorites.NoDuplicates(Favorites.FavList(before, k)) {
        Favorites.ToggleFavoriteFlips(before, tv, k, url);
      }
      if k == Tv && Favorites.UniqueUrls(tv) && Favorites.FindByUrl(tv, url).Some? {
        Favorites.ToggleFavoriteFlipsTv(before, tv, url);
      }
    }

    /** `toggleWatchedIcon(url)`: marks an unwatched episode watched and an
        already watched one unwatched (every copy of its address is removed). */
    method ToggleWatchedEpisode(url: string)
      modifies this
      ensures watchedEpisodes == Favorites.ToggleWatched(old(watchedEpisodes), url)
      ensures url in watchedEpisodes <==> url !in old(watchedEpisodes)
      ensures watchedMovies == old(watchedMovies) && favorites == old(favorites)
      ensures tv == old(tv) && movies == old(movies) && series == old(series)
    {
      watchedEpisodes := Favorites.ToggleWatched(watchedEpisodes, url);
    }

    /** `toggleWatchedMovieIcon(url)`: the same toggle on the watched movies. */
    method ToggleWatchedMovie(url: string)
      modifies this
      ensures watchedMovies == Favorites.ToggleWatched(old(watchedMovies), url)
      ensures url in watchedMovies <==> url !in old(watchedMovies)
      ensures watchedEpisodes == old(watchedEpisodes) && favorites == old(favorites)
      ensures tv == old(tv) && movies == old(movies) && series == old(series)
    {
      watchedMovies := Favorites.ToggleWatched(watchedMovies, url);
    }
  }
}
