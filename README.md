# M3U web player: the playlist-to-catalog engine in Dafny

This project models the core of a browser IPTV player that reads an M3U /
extended-M3U playlist (`js/main.js`). It covers:

- `parseM3U`, which splits the text into lines and keeps one pending
  `#EXTINF` entry. Each address line completes an entry, which goes to the
  `series`, `movies` or `tv` list by tests on its address. Entries that fit
  none of the three are dropped.
- The name normalisers `getBaseChannelName`, `getBaseMovieName`,
  `getVariantExtra` and `getVariantLabel`, with their regular expressions
  written out as string functions.
- The favourites store (`toggleFavorite`, `isFavorite`). For channels it
  works on the whole `baseName` group; for movies and series it works per
  address.
- The two watched lists (`toggleWatchedIcon`, `toggleWatchedMovieIcon`).
- The category list of a section: distinct groups, with a missing group read
  as `"Outros"`, sorted by the star / cross / collation comparator.
- The grouping and filtering inside the views:
  - the show key and season buckets of the series view;
  - the favourite-shows view;
  - tv cards by base name;
  - movie cards deduplicated by base title;
  - unique variants and the variant a modal starts on;
  - the variants `playItem` gathers;
  - the search filter.

The files, one module each:

| file | module | contents |
|---|---|---|
| `wrappers.dfy` | `Wrappers` | `Option` |
| `text.dfy` | `Text` | JavaScript white space, `trim`, ASCII case folding, `includes`/`startsWith` |
| `catalog.dfy` | `Catalog` | kinds, `#EXTINF` metadata, raw and catalog entries |
| `playlist.dfy` | `Playlist` | line splitting, `#EXTINF` parsing, classification, what the parse yields |
| `names.dfy` | `Names` | the four name normalisers |
| `names_examples.dfy` | `NameExamples` | worked inputs for the normalisers |
| `favorites.dfy` | `Favorites` | the favourites and watched toggles as functions on the stored lists |
| `grouping.dfy` | `Grouping` | filter, keys, buckets, keep-first-per-key, the bucket-filling loop |
| `series.dfy` | `Series` | show key, season, numeric season order, series cards, favourite shows |
| `views.dfy` | `Views` | variants, `playItem`, search, tv cards, movie dedup |
| `categories.dfy` | `Categories` | categories, their sort, category and favourites views |
| `store.dfy` | `Store` | class `Store`: the catalog and the stored lists, updated in place |

State the source changes in place is a class. `Store.Store` holds:

- the three catalog lists (`allItems`);
- the favourites object, as a map from kind to address list;
- the two watched lists.

`ParseM3U` is the line loop, proved against the function `Playlist.Parse`.
The toggles are methods, proved against the functions of `Favorites`.
`Names.GetBaseChannelName` keeps the source's `while` loop. The bucket-filling
`forEach` loops (`Grouping.GroupBy`) and the `seenBaseNames` loop
(`Views.DedupMovies`) are methods with loop invariants. Everything else is a
pure function with lemmas about it.

Four behaviours of the code worth knowing, which the model follows:

- Neither base-name function is idempotent. `"X [ALT] HD"` gives `"X [ALT]"`
  and then `"X"`; `"[H]D"` gives `"HD"` and then `""`. See
  `NameExamples.ChannelBaseNotIdempotent` and
  `NameExamples.MovieBaseNotIdempotent`.
- `getBaseMovieName` deletes every bracket and parenthesis character, not
  only empty pairs: the comment at js/main.js:881 speaks of removing empty
  brackets and parentheses, but the pattern on line 882 matches each such
  character on its own (`Names.DeleteBrackets`).
- The favourites are lists, not sets. A movie or series toggle removes only
  the first copy of an address.
- For channels, two catalog entries with the same address and different base
  names make a toggle that changes nothing (`Favorites.SharedUrlToggleKeepsState`).

## Model

| member | source | states |
|---|---|---|
| `Text.Trim` | js/main.js:177 | `String.prototype.trim`: the result is a piece of the input, no longer than it, with no white space at either end |
| `Text.TrimSpaceOutside` | js/main.js:177 | `trim` cuts only white space: everything before and after the piece it keeps is white space |
| `Text.IsSpace` | js/main.js:177 | the characters `trim` and `\s` treat as white space: the ECMAScript WhiteSpace and LineTerminator characters |
| `Text.IsWordChar` | js/main.js:880 | the characters of `\w` (ASCII letters, digits and `_`), which decide where `\b` sits |
| `Text.EqualsCI` | js/main.js:209-210 | two strings of equal length that agree character by character up to ASCII case, the comparison an `/i` literal makes |
| `Text.Contains` | js/main.js:648-652 | `includes`: the pattern starts at some position of the string |
| `Text.Lower` | js/main.js:640 | lower-casing keeps the length and folds each character (ASCII letters only) |
| `Playlist.SplitLines` | js/main.js:174 | `split(/\r?\n/)` yields at least one line and no line holds a `\n` |
| `Playlist.SplitLinesCount` | js/main.js:174 | there is one line more than the text has `\n` characters |
| `Playlist.SplitLinesJoin` | js/main.js:174 | for text without `\r`, joining the lines with `\n` gives the text back |
| `Playlist.AfterLastComma` | js/main.js:177 | `split(',').pop()` is a suffix of the line with no comma, preceded by a comma when it is not the whole line |
| `Playlist.ValueStop` | js/main.js:178-179 | the lazy `(.*?)"` stops at the first `"` or line terminator after the key |
| `Playlist.AttrAt` | js/main.js:178-179 | where `key(.*?)"` matches at an index, the capture sits between the key and a closing `"` and holds no `"` or line terminator |
| `Playlist.AttrAtMatches` | js/main.js:178-179 | the converse: wherever the key, a value free of `"` and line terminators, and a `"` follow one another, the pattern matches there and captures that value |
| `Playlist.Attr` | js/main.js:178-179 | `exec` gives nothing exactly when the pattern matches at no index; otherwise the capture at the leftmost index where it matches |
| `Playlist.AttrFirst` | js/main.js:178-179 | when the key first occurs at `k` followed by a clean value and `"`, `exec` captures that value |
| `Playlist.FirstMatch` | js/main.js:178-179 | `exec` reports the leftmost index where the attribute pattern matches, and none before it |
| `Playlist.ParseExtinf` | js/main.js:176-180 | the name is `trim` of the text after the last comma (so trimmed, comma-free and in the line); the logo is the `tvg-logo` capture or `""`; the group is the `group-title` capture or `"Outros"` |
| `Playlist.ParseExtinfRoundTrip` | js/main.js:176-180 | an `#EXTINF` line built from a logo, a group and a trimmed comma-free name parses back to exactly that metadata, for values without `"` (and a logo without `=`) |
| `Playlist.ExtinfName` | js/main.js:177 | the name of such a line comes back unchanged |
| `Playlist.ExtinfLogo` | js/main.js:178 | the logo of such a line comes back unchanged |
| `Playlist.ExtinfGroup` | js/main.js:179 | the group of such a line comes back unchanged |
| `Playlist.AttrContains` | js/main.js:178-180 | a captured attribute value occurs in the line between its key and a `"` |
| `Playlist.Classify` | js/main.js:183-189 | the if-chain as written: `/series/i`, then `/movie/i`, then `/.ts/i` or `/.m3u8/i` with the dot unescaped, else dropped; its outcomes are stated by `ClassifyCases` |
| `Playlist.ClassifyCases` | js/main.js:183-189 | each outcome exactly: `series` when the address contains "series" in any case; `movies` when it does not but contains "movie"; `tv` when it contains neither and `/.ts/i` or `/.m3u8/i` matches anywhere; dropped otherwise |
| `Playlist.AnyCharThenAt` | js/main.js:187 | `/.p/i` matches as soon as some non-terminator character is followed by `p` in any case |
| `Playlist.AnyCharThenWitness` | js/main.js:187 | a match of `/.p/i` has a position where it matches |
| `Playlist.MissingCharNotContainsCI` | js/main.js:183-185 | a pattern with a character the address lacks, in any case, does not match |
| `Playlist.DotTsIsTv` | js/main.js:183-188 | an address ending in `.ts` that names neither a series nor a movie goes to tv |
| `Playlist.DotM3u8IsTv` | js/main.js:183-188 | an address ending in `.m3u8` that names neither a series nor a movie goes to tv |
| `Playlist.DotMatchIsTv` | js/main.js:187 | a match of `/.ts/i` or `/.m3u8/i` anywhere in such an address sends it to tv |
| `Playlist.TailDotMatch` | js/main.js:187 | an address ending in `.` and the pattern letters matches the pattern there |
| `Playlist.SportsIsTv` | js/main.js:187 | the unescaped dot makes `/sports/` a tv address |
| `Playlist.Pending` | js/main.js:172-191 | `current` after a run of lines: the metadata of the last `#EXTINF` line, reset to the empty object by an address line, unchanged by blank and other `#` lines |
| `Playlist.Completed` | js/main.js:172-191 | the entries pushed, one per address line in input order, each pairing the pending metadata with the trimmed line |
| `Playlist.CompletedCount` | js/main.js:175-192 | exactly one entry is completed per address line |
| `Playlist.Snoc` | js/main.js:175-192 | one more line: an `#EXTINF` line replaces the pending entry; an address line completes the pending entry with its trimmed address and resets it; other lines change nothing |
| `Playlist.ExtinfNotAddress` | js/main.js:176-181 | an `#EXTINF` line is never taken as an address |
| `Playlist.IgnoredLines` | js/main.js:176-192 | blank lines and other `#` lines leave the pending entry and the completed entries unchanged |
| `Playlist.Pairing` | js/main.js:176-191 | an `#EXTINF` line, ignored lines, then an address line complete one entry with that line's metadata and the trimmed address |
| `Playlist.Orphan` | js/main.js:181-191 | an address line right after another completes an entry with no metadata |
| `Playlist.ToEntry` | js/main.js:182-188 | the pushed item keeps the metadata and address; only tv items get a `baseName`, `""` for an item without a name |
| `Playlist.KindList` | js/main.js:183-189 | a kind's list has at most one item per completed entry |
| `Playlist.Dropped` | js/main.js:183-189 | entries no pattern claims are at most the completed ones |
| `Playlist.KindListAppend` | js/main.js:175-192 | the lists grow in input order: later entries land after earlier ones |
| `Playlist.KindListSnoc` | js/main.js:183-189 | a completed entry is appended to the list of its kind, and to no other |
| `Playlist.Partition` | js/main.js:183-189 | the three lists and the dropped entries account for every completed entry exactly once |
| `Playlist.KindListMembers` | js/main.js:183-189 | an item is in kind `k`'s list exactly when it comes from a completed entry classified `k` |
| `Playlist.KindListFrom` | js/main.js:183-189 | every item of a kind's list comes from a completed entry of that kind |
| `Playlist.KindListHas` | js/main.js:183-189 | every completed entry of a kind is in that kind's list |
| `Playlist.Parse` | js/main.js:170-192 | the catalog `parseM3U` builds: kind `k`'s list is the completed entries classified into `k`, in input order, starting from empty lists |
| `Names.HasQualitySuffix` | js/main.js:202-203 | `quality.test(base)`: some position starts white space, then a quality token in any case, running to the end |
| `Names.FirstQualitySuffix` | js/main.js:202-203 | finds the leftmost index where `(\s+(FHD\|FULL ?HD\|…))$` matches, and there is none before it |
| `Names.CutQualitySuffix` | js/main.js:203 | `replace(quality, '').trim()` cuts at the leftmost index where the suffix pattern matches (it runs to the end there) and trims what precedes it; the name gets strictly shorter |
| `Names.StripQualities` | js/main.js:202-203 | when the loop stops, no quality suffix is left; a trimmed name stays trimmed, and the result is a prefix of the name |
| `Names.CutKeepsPrefix` | js/main.js:203 | one cut keeps a prefix of a name that does not start with white space |
| `Names.DropAltMarker` | js/main.js:200 | removes exactly the last five characters when they are `[ALT]` in any case, and otherwise leaves the name alone; together with the `trim()` that follows, this equals `replace(/\s*\[ALT\]$/i, '')`, whose leading white space the trim removes |
| `Names.DroppedAltKeepsPrefix` | js/main.js:199-200 | dropping the marker and trimming keeps a prefix of the trimmed name |
| `Names.BaseChannelName` | js/main.js:197-205 | `""` for an empty name; otherwise a trimmed prefix of `name.trim()` on which the quality suffix matches nowhere |
| `Names.ChannelBaseFixed` | js/main.js:197-205 | a name with neither a trailing `[ALT]` nor a trailing quality token is its own base name once trimmed |
| `Names.GetBaseChannelName` | js/main.js:197-205 | the `while` loop computes `BaseChannelName(name)` |
| `Names.BracketedTokenLen` | js/main.js:879 | a match of `\[(ALT\|DUB\|…)\]` at the start runs from a `[` to a `]` |
| `Names.BracketedTokenFirst` | js/main.js:879 | the match is the first alternative, in the pattern's order, that appears bracketed at the start, and there is none exactly when no alternative does |
| `Names.AnnotationLen` | js/main.js:879 | a match of `\s*\[(ALT\|DUB\|L\|Cinema\|CAM)\]` at the start fits in the string |
| `Names.AnnotationShape` | js/main.js:879 | a match is the whole run of leading white space followed by a bracketed token, and there is one exactly when such a token follows the white space |
| `Names.StripAnnotations` | js/main.js:879 | the global replace never lengthens the name |
| `Names.StripAnnotationsKeeps` | js/main.js:879 | the replace only deletes: every character of the result was in the name |
| `Names.StripAnnotationsInOrder` | js/main.js:879 | the result is the name with some characters removed, the rest kept in their order |
| `Names.StripAnnotationsCopies` | js/main.js:879 | a stretch in which no annotation starts is copied unchanged, and the replace goes on after it |
| `Names.StripAnnotationsFirstMatch` | js/main.js:879 | the first annotation is cut out whole: what precedes it is kept and the replace resumes just after it |
| `Names.StripAnnotationsNoMatch` | js/main.js:879 | a name in which no annotation starts anywhere is left unchanged |
| `Names.QualityWordLen` | js/main.js:880 | a whole-word quality token matched at `i` fits in the string |
| `Names.QualityWordFirst` | js/main.js:880 | the match at `i` is the first alternative, in the pattern's order, that appears there as a whole word, case-insensitively; there is none exactly when no alternative does |
| `Names.QualityWordMatch` | js/main.js:880 | a match is one of the quality tokens, in any case, with a word boundary on both sides |
| `Names.StripQualityWords` | js/main.js:880 | the global replace never lengthens the name |
| `Names.StripQualityWordsKeeps` | js/main.js:880 | the replace only deletes: every character of the result was in the name |
| `Names.StripQualityWordsInOrder` | js/main.js:880 | the result is the name with some characters removed, the rest kept in their order |
| `Names.StripQualityWordsCopies` | js/main.js:880 | a stretch in which no quality word starts is copied unchanged, and the replace goes on after it |
| `Names.StripQualityWordsFirstMatch` | js/main.js:880 | the first quality word is cut out whole: what precedes it is kept and the replace resumes just after the word |
| `Names.KeptIndices` | js/main.js:880 | a stretch is copied by the step-by-step definition exactly when no quality word starts at any of its indices |
| `Names.StripQualityWordsNoMatch` | js/main.js:880 | a name in which no quality word starts anywhere is left unchanged |
| `Names.DeleteBrackets` | js/main.js:882 | the result is the name with characters deleted, in their order (a subsequence), holds no `[`, `]`, `(` or `)`, and equals the name when it has none; with `DeleteBracketsConcat` this means each bracket character is deleted and every other one kept |
| `Names.DeleteBracketsConcat` | js/main.js:882 | the deletion works character by character and keeps the order of the rest: two pieces give their results side by side |
| `Names.BaseMovieName` | js/main.js:874-884 | `""` for an empty name; otherwise trimmed and free of brackets and parentheses |
| `Names.VariantExtra` | js/main.js:207-213 | `""` exactly for an empty full name; when the full name starts with the base in any case, the trimmed rest or `"Principal"` when nothing is left; otherwise the trimmed full name or `"Principal"`; `"Principal"` when the full name is the base up to trailing white space |
| `Names.VariantExtraRoundTrip` | js/main.js:207-213 | a base, a space and a trimmed extra give back the extra |
| `Names.NothingBeyondBase` | js/main.js:209-211 | a full name that is the base up to trailing white space leaves nothing after the prefix is stripped |
| `Names.VariantLabel` | js/main.js:457-467 | a movie gets one of the four labels: `Legendado` exactly when `[L]` is present; `4K` exactly when `4K` is and `[L]` is not; `Cinema` exactly when `[Cinema]`, `HDCAM`, `[CAM]` or `(CAM)` is and neither of those is; else `Dublado`. A channel gets `getVariantExtra` of its base name, `""` exactly for an empty name |
| `Names.ChannelLabelIsExtra` | js/main.js:463-466 | a channel named by its base name, a space and a trimmed extra is labelled with that extra |
| `Names.IsCinema` | js/main.js:461 | `/\[Cinema\]|HDCAM|\[CAM\]|\(CAM\)/i.test(name)`: one of the four literals occurs in any case |
| `NameExamples.StripAnnotationsNoBracket` | js/main.js:879 | a name without `[` loses no annotation |
| `NameExamples.InceptionDub` | js/main.js:874-884 | `getBaseMovieName("Inception [DUB]")` is `"Inception"` |
| `NameExamples.Inception4K` | js/main.js:874-884 | `getBaseMovieName("Inception 4K")` is `"Inception"` |
| `NameExamples.MovieBaseNotIdempotent` | js/main.js:874-884 | `"[H]D"` gives `"HD"` and a second application gives `""` |
| `NameExamples.ChannelBaseNotIdempotent` | js/main.js:197-205 | `"X [ALT] HD"` gives `"X [ALT]"` and a second application gives `"X"` |
| `NameExamples.AltHDLabel` | js/main.js:457-467 | the variant `"X [ALT] HD"` of the channel `"X [ALT]"` is labelled `"HD"` |
| `NameExamples.MovieBaseFixed` | js/main.js:874-884 | a trimmed name without brackets, parentheses or quality words is its own base title |
| `Favorites.FindByUrl` | js/main.js:280 | `find` returns the first entry with the address (no earlier entry has it), and nothing exactly when no entry has it |
| `Favorites.AnyIn` | js/main.js:284 | `favoriteUrlsForBase.some(favUrl => favorites.tv.includes(favUrl))`: some address of the group is stored |
| `Favorites.IsFavoriteTv` | js/main.js:322-330 | `isFavorite('tv', url)`: the address resolves to a channel and some stored address resolves to a channel of the same `baseName` |
| `Favorites.GroupUrls` | js/main.js:282 | the addresses are exactly those of the catalog entries with that `baseName` |
| `Favorites.KeepOtherGroups` | js/main.js:286-289 | a stored address survives exactly when it resolves to a catalog entry of another group |
| `Favorites.ToggleTv` | js/main.js:279-293 | an address not in the tv catalog leaves the stored list unchanged |
| `Favorites.FindFirst` | js/main.js:280 | with distinct addresses, each entry is the one `find` returns for its address |
| `Favorites.DecisionIsFavorite` | js/main.js:284 | with distinct addresses, the test `toggleFavorite` makes is `isFavorite` |
| `Favorites.ToggleTvAdds` | js/main.js:290-292 | favouriting a group with no stored address appends only that address, after which every address of the group is a favourite |
| `Favorites.ToggleTvRemoves` | js/main.js:285-289 | un-favouriting a group makes none of its addresses a favourite; only addresses still in the catalog stay stored; other groups keep their state |
| `Favorites.ToggleTvFlips` | js/main.js:279-293 | with distinct addresses, a toggle on a catalog address flips whether it is a favourite |
| `Favorites.SharedUrlToggleKeepsState` | js/main.js:279-333 | an address shared by two groups makes the toggle of the second group change nothing |
| `Favorites.IndexOf` | js/main.js:295 | `indexOf` is the first index of the address |
| `Favorites.RemoveFirst` | js/main.js:299 | `splice(index, 1)` removes exactly one copy of the address |
| `Favorites.RemoveAll` | js/main.js:228 | the `filter` removes every copy and keeps every other address as often as it was |
| `Favorites.TogglePlain` | js/main.js:294-302 | an absent address is appended; a present one loses one copy; other addresses keep their counts |
| `Favorites.ToggleWatched` | js/main.js:227-233 | after the toggle the address is present exactly when it was absent; other addresses keep their counts |
| `Favorites.TogglePlainTwice` | js/main.js:294-302 | toggling an absent address twice restores the list |
| `Favorites.TogglePlainNoDuplicates` | js/main.js:294-302 | a list without repeats keeps none, and the toggle flips membership |
| `Favorites.ToggleWatchedTwice` | js/main.js:223-240 | toggling an unwatched address twice restores the list |
| `Favorites.RemoveAllAbsent` | js/main.js:228 | filtering out an absent address changes nothing |
| `Favorites.RemoveAllLast` | js/main.js:228-233 | the address just pushed is filtered out along with the rest |
| `Favorites.ToggleFavorite` | js/main.js:271-303 | the kind's list is created when missing and then toggled (for tv through the group, otherwise per address); every other kind's list is untouched |
| `Favorites.ToggleFavoriteFlips` | js/main.js:294-333 | for movies and series over a list without repeats, the toggle flips `isFavorite` and keeps the list free of repeats |
| `Favorites.ToggleFavoriteFlipsTv` | js/main.js:279-293 | for tv, with distinct catalog addresses, a toggle on a catalog address flips `isFavorite`, also when no tv list was stored |
| `Favorites.FavList` | js/main.js:272-275 | `favorites[section] || []`: the kind's stored list, empty while it is missing |
| `Favorites.IsFavorite` | js/main.js:318-333 | `isFavorite(section, url)`: false while the kind has no stored list; the group test for tv, plain membership for the other kinds |
| `Grouping.Keys` | js/main.js:369 | every element's key is among the keys |
| `Grouping.KeysWitness` | js/main.js:369 | every key is some element's key |
| `Grouping.Filter` | js/main.js:360 | `filter` keeps exactly the elements that pass, nothing else |
| `Grouping.FilterSnoc` | js/main.js:360 | `filter` works in list order: one more element is appended to the result exactly when it passes |
| `Grouping.KeptFiltered` | js/main.js:720-728 | what keep-first-per-key keeps of a filtered list comes from the list and passes the filter |
| `Grouping.Members` | js/main.js:733-734 | a bucket holds exactly the elements with its key |
| `Grouping.MembersOfMissingKey` | js/main.js:733 | a key no element has has an empty bucket |
| `Grouping.FirstKeys` | js/main.js:369 | `Array.from(new Set(...))` lists every key once and nothing else |
| `Grouping.KeepFirstBy` | js/main.js:816-825 | keep-first-per-key returns input elements with distinct keys, covering every key of the input |
| `Grouping.KeepFirstByKeepsFirst` | js/main.js:818-824 | an element whose key no earlier element has is kept |
| `Grouping.KeepFirstByTwice` | js/main.js:816-825 | deduplicating again changes nothing |
| `Grouping.DistinctKeysKept` | js/main.js:816-825 | a list with distinct keys is kept whole |
| `Grouping.GroupBy` | js/main.js:731-735 | the `forEach` bucket loop yields, for each key, exactly the elements with that key in input order, with keys in order of first appearance |
| `Grouping.GroupStep` | js/main.js:733-734 | one element lands at the end of its key's bucket, which is created when missing |
| `Series.DigitRun` | js/main.js:544 | `\d+` takes the whole run of digits |
| `Series.MarkerLen` | js/main.js:544 | a match of `S(\d+)E(\d+)` starts with an `S` and fits in the name |
| `Series.MarkerMatches` | js/main.js:544 | the length is positive exactly when `S`, digits, `E`, digits start at the index, and it is then `S`, the whole first digit run, `E` and the whole second digit run |
| `Series.FirstMarker` | js/main.js:544 | `match` finds a position where the marker matches |
| `Series.FirstMarkerLeftmost` | js/main.js:544 | no marker matches before the one found |
| `Series.ShowKey` | js/main.js:715 | the show key is trimmed, and without a marker it is the trimmed name |
| `Series.Unmarked` | js/main.js:715 | `replace(/S\d+E\d+/i, '')`: the leftmost marker cut out, or the name unchanged when it has none |
| `Series.KeyAroundMarker` | js/main.js:715 | with a marker, the show key is the text before the first marker followed by the text after it, trimmed |
| `Series.Season` | js/main.js:544-545 | without a marker the episode is in season 1 |
| `Series.DecimalValue` | js/main.js:545 | `parseInt` of a digit run: the decimal value of its digits |
| `Series.SeasonOf` | js/main.js:544-545 | the season an episode is filed under, `Season` of its name |
| `Series.ShowOf` | js/main.js:732 | the show an episode is grouped under, `ShowKey` of its name |
| `Series.DecimalRunIs` | js/main.js:545 | `parseInt` of the season digits is their decimal value |
| `Series.MarkerAt` | js/main.js:544 | a marker with digit runs of given lengths matches with that length |
| `Series.NoMarkerIn` | js/main.js:544 | no marker starts inside a prefix in which every `S` is not followed by a digit |
| `Series.EpisodeName` | js/main.js:544-545 | `t + "S" + a + "E" + b + u` is in show `trim(t + u)` and in season `parseInt(a)`, when no marker starts in `t` and `u` does not go on with a digit |
| `Series.EpisodeOfShape` | js/main.js:544-545 | the same facts, stated from the position of each piece |
| `Series.EpisodeShowKey` | js/main.js:715 | the show key of such a name is `trim(t + u)` |
| `Series.EpisodeSeason` | js/main.js:544-545 | the season of such a name is `parseInt(a)` |
| `Series.EpisodeMarker` | js/main.js:544 | the first marker of such a name is the one right after `t`; it ends where `u` begins, its length is `2 + |a| + |b|` and its season digits are exactly `a` |
| `Series.SeasonAt` | js/main.js:545 | the season is the value of the digits after the first marker's `S` |
| `Series.MarkerPosition` | js/main.js:544 | a marker at `i` with none before is the first |
| `Series.ShowXEpisode2` | js/main.js:544-545 | `"Show X S01E02"` is season 1 of `"Show X"` |
| `Series.ShowXEpisodeMiddle` | js/main.js:544-545 | `"Show X S01E02 Parte 1"` is season 1 of `"Show X  Parte 1"`: a marker in the middle is cut out with both spaces around it kept |
| `Series.Insert` | js/main.js:550 | insertion adds exactly the one element |
| `Series.InsertSorted` | js/main.js:550 | insertion keeps a sorted list sorted |
| `Series.SortSeasons` | js/main.js:550 | the numeric sort is a permutation of the season keys |
| `Series.SortSeasonsSorted` | js/main.js:550 | the seasons come out in ascending numeric order |
| `Series.SortSeasonsStrict` | js/main.js:550 | distinct season keys come out strictly ascending |
| `Series.NumericOrder` | js/main.js:550 | season 10 comes after season 2 |
| `Series.SeasonBuckets` | js/main.js:542-550 | `seasonsMap` holds, per season, exactly that season's episodes in order; the seasons are listed strictly ascending, each once |
| `Series.FavoriteShows` | js/main.js:711-718 | `favBaseNames`: the shows of the catalog episodes whose address is stored as a favourite |
| `Series.FavoriteShowEpisodes` | js/main.js:711-728 | the favourites view lists each address at most once |
| `Series.FavoriteShowEpisodesSound` | js/main.js:711-728 | the favourites view holds only catalog episodes of shows with a favourited episode |
| `Series.FavoriteShowEpisodesComplete` | js/main.js:711-728 | every episode of such a show has its address in the favourites view |
| `Series.FavoriteEpisodeShowsItsShow` | js/main.js:711-728 | a favourited episode brings every episode of its show into the view |
| `Series.SeriesCards` | js/main.js:730-736 | `seriesMap` has one card per show key, holding exactly that show's episodes in order |
| `Views.FindIndex` | js/main.js:477 | `findIndex` is `-1` exactly when no element has the address, else the first index with it |
| `Views.FindIndexFilter` | js/main.js:477 | `filter((v, i, arr) => arr.findIndex(x => x.url === v.url) === i)` over the first `n` positions: a variant is kept when its index is the first with its address |
| `Views.UniqueVariants` | js/main.js:477 | the unique variants are input variants with distinct addresses, covering every address |
| `Views.UniqueVariantsCover` | js/main.js:477 | every variant's address is offered by some unique variant |
| `Views.UniqueVariantsIsFindIndexFilter` | js/main.js:477 | the `findIndex` filter is keep-first-per-address |
| `Views.FindIndexFilterPrefix` | js/main.js:477 | the same, for every prefix of the variants |
| `Views.FirstIndexIsFirstKey` | js/main.js:477 | `findIndex` returns `n` exactly when no earlier variant has that address |
| `Views.ToPlay` | js/main.js:501 | the modal starts on a variant with the active address when there is one, else on the first variant; there is none only for no variants |
| `Views.ToPlayActive` | js/main.js:477-501 | when some variant has the active address, the modal starts on such a variant |
| `Views.TvKey` | js/main.js:621 | `episode.baseName || getBaseChannelName(episode.name)`: the stored base name when non-empty, else the name's channel base name |
| `Views.MovieKey` | js/main.js:625 | `getBaseMovieName(name)` of the entry |
| `Views.ChannelVariants` | js/main.js:622 | the tv variants are exactly the catalog channels with that `baseName` |
| `Views.ChannelVariantsSnoc` | js/main.js:622 | the variants keep catalog order: a channel appended to the catalog is appended to the variants exactly when it has the base name |
| `Views.MovieVariants` | js/main.js:626 | the movie variants are exactly the catalog movies with that base title |
| `Views.MovieVariantsSnoc` | js/main.js:626 | the movie variants keep catalog order in the same way |
| `Views.PlayItem` | js/main.js:615-634 | the type is `tv` exactly when a channel has the address; `movies` exactly when no channel has it but a movie does; the variants are the group of the base name, the movies of the base title, or the episode alone |
| `Views.ParsedTvWellFormed` | js/main.js:187-188 | every parsed channel's `baseName` is the base name of its own name |
| `Views.TvKeyOfWellFormed` | js/main.js:621 | on parsed channels, `baseName \|\| getBaseChannelName(name)` is the `baseName` |
| `Views.PlayItemOffersChannel` | js/main.js:620-623 | playing a parsed channel offers that channel among its variants |
| `Views.PlayItemOffersMovie` | js/main.js:624-627 | playing a movie offers that movie among its variants |
| `Views.Query` | js/main.js:640 | `input.value.trim().toLowerCase()` |
| `Views.Matches` | js/main.js:645-653 | the search filter for a non-empty query: for series the lower-cased name contains it; otherwise a non-empty name or a non-empty group contains it, lower-cased |
| `Views.Search` | js/main.js:638-655 | a blank query keeps the whole list; otherwise the result is exactly the items whose name (or, outside series, group) contains the lower-cased query |
| `Views.SearchSnoc` | js/main.js:638-655 | the results keep list order: an item appended to the list is appended to the results exactly when the query is blank or the item matches |
| `Views.SearchTwice` | js/main.js:638-655 | searching the results again with the same input changes nothing |
| `Views.FilterAll` | js/main.js:645 | filtering by a test every item passes keeps the whole list |
| `Views.UnnamedNeverMatches` | js/main.js:651 | a tv or movie item without metadata never matches a non-empty query |
| `Views.FindEach` | js/main.js:772-773 | `.map(url => list.find(item => item.url === url))` over the given addresses, keeping found items in address order |
| `Views.UniqueItems` | js/main.js:772-773 | `Array.from(new Set(list.map(item => item.url)))` then `find` for each: the first item per address, in order of first appearance |
| `Views.UniqueItemsIsKeepFirst` | js/main.js:772-773 | the `Set`-then-`find` dedup is keep-first-per-address |
| `Views.FindEachSnoc` | js/main.js:773 | looking up addresses already present ignores later items |
| `Views.FindByUrlNew` | js/main.js:773 | a new address is found on the item that introduces it |
| `Views.FindByUrlSnoc` | js/main.js:773 | `find` on a list that already holds the address ignores an item appended later |
| `Views.TvCards` | js/main.js:770-778 | `grouped` holds, per base name, exactly the distinct-address items with that base name, in order, with base names in order of first appearance |
| `Views.TvCardUrlsDistinct` | js/main.js:772-777 | no tv card lists an address twice |
| `Views.CardPrimaryExists` | js/main.js:779-781 | on a parsed tv list every card has a primary variant |
| `Views.DedupMovies` | js/main.js:814-825 | the `seenBaseNames` loop keeps the first movie per base title |
| `Views.DedupMoviesCards` | js/main.js:816-825 | no two movie cards share a base title, and every base title of the list has a card |
| `Views.MembersDistinct` | js/main.js:776 | a bucket of items with distinct addresses has distinct addresses |
| `Categories.CategoryOf` | js/main.js:369 | an item's category is its group when it has one and `"Outros"` otherwise, so never empty |
| `Categories.Compare` | js/main.js:372-385 | the comparator branch by branch: ⭐ before no ⭐, then ❌ after no ❌, then the collation |
| `Categories.Rank` | js/main.js:373-382 | the tier of a name: starred before plain, and within each, without ❌ before with ❌ |
| `Categories.CompareByRank` | js/main.js:372-385 | the comparator orders by tier (star, plain, cross) and leaves only equal tiers to the collation |
| `Categories.InsertBy` | js/main.js:372-385 | insertion adds exactly the one name |
| `Categories.SortBy` | js/main.js:372-385 | the sort is a permutation of the categories |
| `Categories.InsertByRankSorted` | js/main.js:372-385 | insertion keeps the tiers in order, whatever the collation |
| `Categories.SortByRankSorted` | js/main.js:372-385 | the sorted categories are in tier order, whatever the collation |
| `Categories.InsertBySorted` | js/main.js:372-385 | with a consistent collation (sign flips on swap, "not after" transitive), insertion keeps the list in the comparator's order |
| `Categories.SortBySorted` | js/main.js:371-385 | with a consistent collation, each category is not after any later one by the comparator: by tier, and alphabetically by the collation within a tier |
| `Categories.CategoryList` | js/main.js:369-385 | the category list is a permutation of the distinct groups |
| `Categories.CategoryListMembers` | js/main.js:369 | a category is listed exactly when some item has it |
| `Categories.CategoryListDistinct` | js/main.js:369 | no category is listed twice |
| `Categories.StarsFirstCrossesLast` | js/main.js:371-385 | every starred category precedes every unstarred one; among unstarred ones, every crossed one follows every uncrossed one |
| `Categories.SoleStarFirst` | js/main.js:378-379 | a sole starred category is first |
| `Categories.SoleCrossLast` | js/main.js:381-382 | a sole crossed, unstarred category is last |
| `Categories.StarAndCrossExample` | js/main.js:371-385 | `Zebra`, `⭐ Top`, `❌ Old`, `Anime` sort with `⭐ Top` first and `❌ Old` last, whatever the collation |
| `Categories.StarAndCrossOrdered` | js/main.js:371-385 | under a consistent collation that puts `Anime` before `Zebra`, the same four sort to exactly `⭐ Top`, `Anime`, `Zebra`, `❌ Old` |
| `Categories.CategoryItems` | js/main.js:393 | a category button shows exactly the items of that category |
| `Categories.FavoriteItems` | js/main.js:358-360 | the favourites button shows exactly the items whose address is stored |
| `Categories.FavoriteItemsSnoc` | js/main.js:358-360 | the favourites view keeps list order: an item appended to the list is appended to the view exactly when its address is stored |
| `Categories.InitialView` | js/main.js:405-429 | the saved category is reopened when a button has its text (favourites first); otherwise the first category, or favourites when there are no categories |
| `Store.Store.constructor` | js/main.js:1 | the catalog and the stored lists start empty |
| `Store.Store.ParseM3U` | js/main.js:170-195 | the lists become exactly `Parse(text, k)`; every channel's `baseName` is its own base name; the stored lists are untouched |
| `Store.Store.ParseLine` | js/main.js:175-192 | one line advances the pending entry and files every completed entry in its kind's list, as `Pending`/`Completed` say |
| `Store.Store.Push` | js/main.js:182-189 | the completed item is appended to the list of its kind, with `baseName` on tv, and the other lists are untouched |
| `Store.Store.ToggleFavorite` | js/main.js:271-316 | the favourites become `ToggleFavorite` of the old ones; the kind's list exists; `isFavorite` flips for movies and series without repeats, and for tv with distinct catalog addresses and the address in the catalog; catalog and watched lists are untouched |
| `Store.Store.IsFavorite` | js/main.js:318-333 | `isFavorite(section, url)` on the store's current favourites and tv catalog |
| `Store.Store.ToggleWatchedEpisode` | js/main.js:223-240 | the watched episodes become the toggle of the old list, and the address is now watched exactly when it was not |
| `Store.Store.ToggleWatchedMovie` | js/main.js:440-454 | the same for watched movies |

## Left out

- IndexedDB caching, `fetch` with the proxy fallback, `localStorage` and JSON: these are I/O. The stored lists are fields of `Store.Store`. The model does not capture that `JSON.parse` of corrupt stored data throws.
- The DOM, Bootstrap, events, icons and the modals' markup are presentation. Only the lists they are built from are modelled. This includes:
  - the star shown on cards;
  - the chevron state from `allWatched`;
  - the click on the active category after a toggle.
- `playVariant` is not modelled: its host rewrite, `.ts` to `.m3u8` rewrite and title choice feed the external Playerjs player.
- Collation: `localeCompare(…, 'pt-BR')` is a parameter `locale`; every order property is proved for any `locale`.
- `Categories.SortBy`: `Array.prototype.sort` is modelled as a stable insertion sort. The order within a tier (`SortBySorted`) is proved only for a collation that is a consistent order (`Collation`); with any other, an engine may order names within one tier differently, and only the tier properties, which hold for the model's sort, remain.
- `Series.SeriesCards`: the shows are listed in order of first appearance. `Object.keys` lists integer-like keys (a show named `"24"`) first, in ascending order; this ordering is not modelled.
- `Series.SeriesCards`: `seriesMap` is a plain `{}` object. A show key that names an inherited property (`"constructor"`, `"toString"`, `"__proto__"`) finds a truthy value that is not an array, and `push` throws there. The model treats every key as a fresh bucket.
- `Views.TvCards`: the same two points apply to base names: integer-like ones come first, and a base name such as `"constructor"` makes `grouped[base] ||= []` keep the inherited value, whose `push` throws.
- `Series.Season`: `parseInt` yields a double. Season digits worth more than 2^53 are rounded, and those past about 1.8e308 become `Infinity`. The model keeps the exact integer value.
- `Text.Lower`: only ASCII letters are lower-cased, while `toLowerCase` folds all of Unicode. The search is exact for ASCII names and queries only. The `/i` regular expressions are exact: all their patterns are ASCII.
- `Names.VariantExtra`: case-insensitive prefix stripping folds ASCII letters only. A non-ASCII base name that differs from the full name only in case is not stripped in the model.
- Series names: the series code reads `item.name` without a guard, and the source throws on an entry with no `#EXTINF`. `Series.SeasonBuckets`, `Series.SeriesCards`, `Series.FavoriteShowEpisodes` and `Views.Search` (series section) therefore require named entries.
- Idempotence of the two base-name functions is not proved, because it is false. Two lemmas exhibit the counterexamples.
