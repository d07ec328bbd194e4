/**
 * Series episodes: the `S<digits>E<digits>` marker, the show key the cards are
 * grouped by (`item.name.replace(/S\d+E\d+/i, '').trim()`), the season an
 * episode goes to (`parseInt(match[1])`, or 1 without a marker), the numeric
 * season order, and the episode list of the favourites view.
 *
 * The source reads `item.name` of series entries without a guard, so every
 * operation here that does so requires named entries.
 */
module Series {
  import opened Wrappers
  import opened Text
  import opened Catalog
  import opened Grouping

  // ---------------------------------------------------------------------------
  // The episode marker `/S(\d+)E(\d+)/i`
  // ---------------------------------------------------------------------------

  predicate IsS(c: char) {
    c == 'S' || c == 's'
  }

  predicate IsE(c: char) {
    c == 'E' || c == 'e'
  }

  /** The run of digits that starts at `i`. */
  function DigitRun(s: string, i: nat): (n: nat)
    requires i <= |s|
    ensures i + n <= |s|
    ensures forall j :: i <= j < i + n ==> IsDigit(s[j])
    ensures i + n == |s| || !IsDigit(s[i + n])
    decreases |s| - i
  {
    if i < |s| && IsDigit(s[i]) then 1 + DigitRun(s, i + 1) else 0
  }

  /** The length of the match of `/S(\d+)E(\d+)/i` at index `i`, or 0 when it
      does not match there. Each `\d+` takes its whole digit run: giving a digit
      back would leave a digit where `E` is needed, or end the match early. */
  function MarkerLen(s: string, i: nat): (n: nat)
    requires i <= |s|
    ensures n > 0 ==> i + n <= |s| && IsS(s[i])
  {
    if i < |s| && IsS(s[i]) then
      var d1 := DigitRun(s, i + 1);
      if d1 > 0 && i + 1 + d1 < |s| && IsE(s[i + 1 + d1]) then
        var d2 := DigitRun(s, i + 2 + d1);
        if d2 > 0 then 2 + d1 + d2 else 0
      else 0
    else 0
  }

  /** `S`, `la` digits, `E` and `lb` digits at index `i` of `s`. */
  predicate MarkerShape(s: string, i: nat, la: nat, lb: nat) {
    && 0 < la && 0 < lb && i + 2 + la + lb <= |s|
    && IsS(s[i]) && IsE(s[i + 1 + la])
    && (forall j :: i + 1 <= j < i + 1 + la ==> IsDigit(s[j]))
    && (forall j :: i + 2 + la <= j < i + 2 + la + lb ==> IsDigit(s[j]))
  }

  /** `MarkerLen` is the match of the regular expression: positive exactly when
      some `S\d+E\d+` starts at `i`, and then made of the whole first digit run,
      the `E` and the whole second digit run. */
  lemma MarkerMatches(s: string, i: nat)
    requires i <= |s|
    ensures MarkerLen(s, i) > 0 <==> exists la, lb :: MarkerShape(s, i, la, lb)
    ensures MarkerLen(s, i) > 0 ==>
      (i < |s| && var la := DigitRun(s, i + 1);
       (i + 2 + la <= |s| && var lb := DigitRun(s, i + 2 + la);
        (MarkerShape(s, i, la, lb) && MarkerLen(s, i) == 2 + la + lb
         && (i + 2 + la + lb == |s| || !IsDigit(s[i + 2 + la + lb])))))
  {
    if exists la, lb :: MarkerShape(s, i, la, lb) {
      var la, lb :| MarkerShape(s, i, la, lb);
      ShapeMatches(s, i, la, lb);
    }
    if MarkerLen(s, i) > 0 {
      MatchHasShape(s, i);
    }
  }

  lemma ShapeMatches(s: string, i: nat, la: nat, lb: nat)
    requires MarkerShape(s, i, la, lb)
    ensures MarkerLen(s, i) > 0
  {
    DigitRunIs(s, i + 1, la);
    assert IsDigit(s[i + 2 + la]);
  }

  lemma MatchHasShape(s: string, i: nat)
    requires i <= |s| && MarkerLen(s, i) > 0
    ensures i < |s| && i + 2 + DigitRun(s, i + 1) <= |s|
    ensures var la := DigitRun(s, i + 1); var lb := DigitRun(s, i + 2 + la);
      MarkerShape(s, i, la, lb) && MarkerLen(s, i) == 2 + la + lb
  {
  }

  /** The leftmost index at or after `k` where the marker matches. */
  function FirstMarker(s: string, k: nat): (r: Option<nat>)
    requires k <= |s|
    ensures r.Some? ==> k <= r.value < |s| && MarkerLen(s, r.value) > 0
    decreases |s| - k
  {
    if k == |s| then None
    else if MarkerLen(s, k) > 0 then Some(k)
    else FirstMarker(s, k + 1)
  }

  /** `FirstMarker` finds the leftmost match: none starts before the one it
      reports, and none at all when it reports none. */
  lemma {:induction false} FirstMarkerLeftmost(s: string, k: nat, j: nat)
    requires k <= j <= |s|
    requires FirstMarker(s, k).None? || j < FirstMarker(s, k).value
    ensures MarkerLen(s, j) == 0
    decreases |s| - k
  {
    if k < |s| && MarkerLen(s, k) == 0 && j > k {
      FirstMarkerLeftmost(s, k + 1, j);
    }
  }

  /** `name.replace(/S\d+E\d+/i, '')`: the leftmost marker cut out, or the name
      unchanged when it has none. */
  function Unmarked(name: string): string {
    CutMarker(name, FirstMarker(name, 0))
  }

  /** The name with the marker that starts at `m`, if anywhere, cut out. */
  function CutMarker(name: string, m: Option<nat>): (r: string)
    requires m.Some? ==> m.value < |name| && MarkerLen(name, m.value) > 0
  {
    if m.None? then name else Cut(name, m.value, m.value + MarkerLen(name, m.value))
  }

  /** `s` without its piece from `i` to `j`. */
  function Cut(s: string, i: nat, j: nat): string
    requires i <= j <= |s|
  {
    s[..i] + s[j..]
  }

  /** `name.replace(/S\d+E\d+/i, '').trim()`: the show an episode belongs to. */
  function ShowKey(name: string): (r: string)
    ensures IsTrimmed(r)
    ensures FirstMarker(name, 0).None? ==> r == Trim(name)
  {
    Trim(Unmarked(name))
  }

  /** The value of a string of decimal digits, as `parseInt` reads it. */
  function DecimalValue(ds: string): nat {
    if ds == [] then 0
    else 10 * DecimalValue(ds[..|ds| - 1]) + DigitValue(ds[|ds| - 1])
  }

  function DigitValue(c: char): nat {
    if IsDigit(c) then c as int - '0' as int else 0
  }

  /** The season `openSeriesModal` files an episode under: the first digit run
      of the marker, or 1 when the name has no marker. */
  function Season(name: string): (r: nat)
    ensures FirstMarker(name, 0).None? ==> r == 1
  {
    SeasonFrom(name, FirstMarker(name, 0))
  }

  /** The season given where the marker starts, if anywhere. */
  function SeasonFrom(name: string, m: Option<nat>): nat
    requires m.Some? ==> m.value < |name|
  {
    if m.None? then 1 else FirstDigits(name, m.value)
  }

  /** The value of the season digits of a marker at `i`. */
  function FirstDigits(name: string, i: nat): nat
    requires i < |name|
  {
    DecimalRun(name, i + 1, DigitRun(name, i + 1))
  }

  /** The value of the `n` digits of `s` from index `j`. */
  function DecimalRun(s: string, j: nat, n: nat): nat
    requires j + n <= |s|
  {
    if n == 0 then 0 else 10 * DecimalRun(s, j, n - 1) + DigitValue(s[j + n - 1])
  }

  lemma {:induction false} DecimalRunIs(s: string, j: nat, a: string)
    requires j + |a| <= |s| && forall k :: 0 <= k < |a| ==> s[j + k] == a[k]
    ensures DecimalRun(s, j, |a|) == DecimalValue(a)
  {
    if a != [] {
      var a' := a[..|a| - 1];
      DecimalRunIs(s, j, a');
      assert s[j + |a| - 1] == a[|a| - 1];
    }
  }

  /** No marker can start inside `t`, whatever follows it: every `S` in it is
      followed, within `t`, by a character that is not a digit. */
  predicate NoMarkerStart(t: string) {
    forall i :: 0 <= i < |t| && IsS(t[i]) ==> i + 1 < |t| && !IsDigit(t[i + 1])
  }

  predicate AllDigits(s: string) {
    forall i :: 0 <= i < |s| ==> IsDigit(s[i])
  }

  /** A digit run is the whole run when it is followed by a non-digit or the end. */
  lemma {:induction false} DigitRunIs(s: string, i: nat, n: nat)
    requires i + n <= |s|
    requires forall j :: i <= j < i + n ==> IsDigit(s[j])
    requires i + n == |s| || !IsDigit(s[i + n])
    ensures DigitRun(s, i) == n
    decreases n
  {
    if n > 0 {
      assert IsDigit(s[i]);
      DigitRunIs(s, i + 1, n - 1);
    }
  }

  /** The marker matches at `i` with digit runs of lengths `la` and `lb`, the
      second one ending at the end of the string or before a non-digit. */
  lemma MarkerAt(s: string, i: nat, la: nat, lb: nat)
    requires MarkerShape(s, i, la, lb)
    requires i + 2 + la + lb == |s| || !IsDigit(s[i + 2 + la + lb])
    ensures MarkerLen(s, i) == 2 + la + lb
    ensures DigitRun(s, i + 1) == la
  {
    DigitRunIs(s, i + 1, la);
    DigitRunIs(s, i + 2 + la, lb);
  }

  /** No marker starts inside a prefix `t` with `NoMarkerStart(t)`. */
  lemma NoMarkerIn(s: string, t: string)
    requires NoMarkerStart(t) && |t| <= |s| && s[..|t|] == t
    ensures forall j :: 0 <= j < |t| ==> MarkerLen(s, j) == 0
  {
    forall j | 0 <= j < |t|
      ensures MarkerLen(s, j) == 0
    {
      assert s[j] == t[j];
      if IsS(t[j]) {
        assert s[j + 1] == t[j + 1];
        DigitRunIs(s, j + 1, 0);
      }
    }
  }

  /** `t + "S" + a + "E" + b + u` is in season `a` of show `Trim(t + u)`, when
      no marker starts in `t` and `u` does not go on with a digit. */
  lemma EpisodeName(name: string, t: string, a: string, b: string, u: string)
    requires name == t + "S" + a + "E" + b + u
    requires NoMarkerStart(t)
    requires a != [] && b != [] && AllDigits(a) && AllDigits(b)
    requires u == [] || !IsDigit(u[0])
    ensures ShowKey(name) == Trim(t + u)
    ensures Season(name) == DecimalValue(a)
  {
    EpisodePieces(name, t, a, b, u);
    EpisodeOfShape(name, t, a, b, u);
  }

  /** The layout of `t + "S" + a + "E" + b + u`, position by position. */
  predicate EpisodeShape(name: string, t: string, a: string, b: string, u: string) {
    && |name| == |t| + 2 + |a| + |b| + |u|
    && name[..|t|] == t && name[|t|] == 'S' && name[|t| + 1 + |a|] == 'E'
    && (forall j :: 0 <= j < |a| ==> name[|t| + 1 + j] == a[j])
    && (forall j :: 0 <= j < |b| ==> name[|t| + 2 + |a| + j] == b[j])
    && (forall j :: 0 <= j < |u| ==> name[|t| + 2 + |a| + |b| + j] == u[j])
  }

  lemma EpisodePieces(name: string, t: string, a: string, b: string, u: string)
    requires name == t + "S" + a + "E" + b + u
    ensures EpisodeShape(name, t, a, b, u)
  {
  }

  lemma EpisodeOfShape(name: string, t: string, a: string, b: string, u: string)
    requires EpisodeShape(name, t, a, b, u)
    requires NoMarkerStart(t)
    requires a != [] && b != [] && AllDigits(a) && AllDigits(b)
    requires u == [] || !IsDigit(u[0])
    ensures ShowKey(name) == Trim(t + u)
    ensures Season(name) == DecimalValue(a)
  {
    EpisodeShowKey(name, t, a, b, u);
    EpisodeSeason(name, t, a, b, u);
  }

  lemma EpisodeShowKey(name: string, t: string, a: string, b: string, u: string)
    requires EpisodeShape(name, t, a, b, u)
    requires NoMarkerStart(t)
    requires a != [] && b != [] && AllDigits(a) && AllDigits(b)
    requires u == [] || !IsDigit(u[0])
    ensures ShowKey(name) == Trim(t + u)
  {
    EpisodeMarker(name, t, a, b, u);
    EpisodeShow(name, t, a, b, u);
  }

  lemma EpisodeSeason(name: string, t: string, a: string, b: string, u: string)
    requires EpisodeShape(name, t, a, b, u)
    requires NoMarkerStart(t)
    requires a != [] && b != [] && AllDigits(a) && AllDigits(b)
    requires u == [] || !IsDigit(u[0])
    ensures Season(name) == DecimalValue(a)
  {
    EpisodeMarker(name, t, a, b, u);
    assert DigitsAt(name, |t| + 1, a);
    SeasonAt(name, |t|, a);
  }

  /** `a` is written in `s` from index `j`. */
  predicate DigitsAt(s: string, j: nat, a: string) {
    j + |a| <= |s| && forall k :: 0 <= k < |a| ==> s[j + k] == a[k]
  }

  /** The marker of such a name is the one after `t`, and it ends where `u`
      begins. */
  lemma EpisodeMarker(name: string, t: string, a: string, b: string, u: string)
    requires EpisodeShape(name, t, a, b, u)
    requires NoMarkerStart(t)
    requires a != [] && b != [] && AllDigits(a) && AllDigits(b)
    requires u == [] || !IsDigit(u[0])
    ensures FirstMarker(name, 0) == Some(|t|)
    ensures MarkerLen(name, |t|) == 2 + |a| + |b|
    ensures DigitRun(name, |t| + 1) == |a|
  {
    var i := |t|;
    NoMarkerIn(name, t);
    forall j | i + 1 <= j < i + 1 + |a|
      ensures IsDigit(name[j])
    {
      assert name[i + 1 + (j - i - 1)] == a[j - i - 1];
    }
    forall j | i + 2 + |a| <= j < i + 2 + |a| + |b|
      ensures IsDigit(name[j])
    {
      assert name[i + 2 + |a| + (j - i - 2 - |a|)] == b[j - i - 2 - |a|];
    }
    if u != [] {
      assert name[i + 2 + |a| + |b|] == u[0];
    }
    MarkerAt(name, i, |a|, |b|);
    MarkerPosition(name, i);
  }

  lemma EpisodeShow(name: string, t: string, a: string, b: string, u: string)
    requires EpisodeShape(name, t, a, b, u)
    requires FirstMarker(name, 0) == Some(|t|) && MarkerLen(name, |t|) == 2 + |a| + |b|
    ensures ShowKey(name) == Trim(t + u)
  {
    var m := |t| + 2 + |a| + |b|;
    TailIs(name, m, u);
    KeyAroundMarker(name, |t|, m, t, u);
  }

  /** With a marker, the key is the name with its leftmost marker cut out,
      trimmed: the key of a name whose first marker, from `i` to `m`, has `t`
      before it and `u` after it is `t + u`, trimmed. */
  lemma KeyAroundMarker(name: string, i: nat, m: nat, t: string, u: string)
    requires FirstMarker(name, 0) == Some(i) && i + MarkerLen(name, i) == m <= |name|
    requires name[..i] == t && name[m..] == u
    ensures ShowKey(name) == Trim(t + u)
  {
    assert Unmarked(name) == Cut(name, i, m);
  }

  lemma TailIs(s: string, m: nat, u: string)
    requires m + |u| == |s| && forall j :: 0 <= j < |u| ==> s[m + j] == u[j]
    ensures s[m..] == u
  {
    assert forall j :: 0 <= j < |u| ==> s[m..][j] == s[m + j];
  }

  lemma SeasonAt(name: string, i: nat, a: string)
    requires FirstMarker(name, 0) == Some(i)
    requires DigitsAt(name, i + 1, a) && DigitRun(name, i + 1) == |a|
    ensures Season(name) == DecimalValue(a)
  {
    assert Season(name) == FirstDigits(name, i);
    DecimalRunIs(name, i + 1, a);
  }

  /** When no marker starts before `i` and one starts at `i`, the first is at `i`. */
  lemma MarkerPosition(s: string, i: nat)
    requires i < |s| && MarkerLen(s, i) > 0
    requires forall j :: 0 <= j < i ==> MarkerLen(s, j) == 0
    ensures FirstMarker(s, 0) == Some(i)
  {
    var r := FirstMarker(s, 0);
    if r.None? || i < r.value {
      FirstMarkerLeftmost(s, 0, i);
    }
  }

  lemma ShowXPrefix()
    ensures NoMarkerStart("Show X ") && DecimalValue("01") == 1
    ensures AllDigits("01") && AllDigits("02")
  {
    var t := "Show X ";
    assert forall i :: 0 <= i < |t| && IsS(t[i]) ==> i == 0;
  }

  /** `"Show X S01E02"` is season 1 of `"Show X"`. */
  lemma ShowXEpisode2(name: string)
    requires name == "Show X S01E02"
    ensures ShowKey(name) == "Show X" && Season(name) == 1
  {
    var t := "Show X ";
    assert name == t + "S" + "01" + "E" + "02" + [] by {
      assert forall k :: 0 <= k < |name| ==> name[k] == (t + "S" + "01" + "E" + "02" + [])[k];
    }
    ShowXPrefix();
    assert t + [] == t;
    EpisodeName(name, t, "01", "02", []);
    ShowXTrim();
  }

  /** A marker in the middle of the name is cut out and the text on both sides
      is kept, with both of the spaces that were around the marker:
      `"Show X S01E02 Parte 1"` is season 1 of `"Show X  Parte 1"`. */
  lemma ShowXEpisodeMiddle(name: string)
    requires name == "Show X S01E02 Parte 1"
    ensures ShowKey(name) == "Show X  Parte 1" && Season(name) == 1
  {
    var t, u := "Show X ", " Parte 1";
    assert name == t + "S" + "01" + "E" + "02" + u by {
      assert forall k :: 0 <= k < |name| ==> name[k] == (t + "S" + "01" + "E" + "02" + u)[k];
    }
    ShowXPrefix();
    EpisodeName(name, t, "01", "02", u);
    MiddleTrim();
  }

  lemma MiddleTrim()
    ensures Trim("Show X " + " Parte 1") == "Show X  Parte 1"
  {
    var v := "Show X " + " Parte 1";
    assert v == "Show X  Parte 1" by {
      assert forall k :: 0 <= k < |v| ==> v[k] == "Show X  Parte 1"[k];
    }
    assert IsTrimmed(v) by {
      assert v[0] == 'S' && v[|v| - 1] == '1';
    }
    TrimTrimmed(v);
  }

  lemma ShowXTrim()
    ensures Trim("Show X ") == "Show X"
  {
    var u := "Show X";
    assert IsTrimmed(u) by {
      assert u[0] == 'S' && u[|u| - 1] == 'X';
    }
    assert u + [' '] == "Show X ";
    TrimTrailingSpace(u, ' ');
  }

  /** A trimmed, non-empty string with one space after it trims back to itself. */
  lemma TrimTrailingSpace(u: string, c: char)
    requires u != [] && IsTrimmed(u) && IsSpace(c)
    ensures Trim(u + [c]) == u
  {
    var t := u + [c];
    assert t[0] == u[0];
    TrimStartNoop(t);
    assert t[..|t| - 1] == u;
    assert TrimEnd(t) == TrimEnd(u);
    TrimTrimmed(u);
    TrimStartNoop(u);
  }

  // ---------------------------------------------------------------------------
  // Seasons in numeric order
  // ---------------------------------------------------------------------------

  predicate StrictlyIncreasing(s: seq<nat>) {
    forall i, j :: 0 <= i < j < |s| ==> s[i] < s[j]
  }

  predicate Sorted(s: seq<nat>) {
    forall i, j :: 0 <= i < j < |s| ==> s[i] <= s[j]
  }

  /** `x` put in its place in a sorted sequence. */
  function Insert(x: nat, s: seq<nat>): (r: seq<nat>)
    ensures multiset(r) == multiset(s) + multiset{x}
  {
    if s == [] || x <= s[0] then [x] + s
    else
      assert s == [s[0]] + s[1..];
      [s[0]] + Insert(x, s[1..])
  }

  /** Inserting keeps a sorted sequence sorted. */
  lemma {:induction false} InsertSorted(x: nat, s: seq<nat>)
    requires Sorted(s)
    ensures Sorted(Insert(x, s))
  {
    if s == [] || x <= s[0] {
      ConsSorted(x, s);
    } else {
      var t := s[1..];
      InsertSorted(x, t);
      InsertBound(x, t, s[0]);
      ConsSorted(s[0], Insert(x, t));
    }
  }

  /** A bound every input meets holds for every element after the insertion. */
  lemma InsertBound(x: nat, t: seq<nat>, lo: nat)
    requires lo <= x && forall y :: y in t ==> lo <= y
    ensures forall y :: y in Insert(x, t) ==> lo <= y
  {
    var r := Insert(x, t);
    forall y | y in r
      ensures lo <= y
    {
      assert multiset(r)[y] > 0;
      assert multiset(r)[y] == multiset(t)[y] + multiset{x}[y];
      if y != x {
        assert multiset(t)[y] > 0;
        assert y in t;
      }
    }
  }

  lemma ConsSorted(x: nat, s: seq<nat>)
    requires Sorted(s) && forall y :: y in s ==> x <= y
    ensures Sorted([x] + s)
  {
    var r := [x] + s;
    forall i, j | 0 <= i < j < |r|
      ensures r[i] <= r[j]
    {
      assert r[j] == s[j - 1] && s[j - 1] in s;
      if i > 0 {
        assert r[i] == s[i - 1];
      }
    }
  }

  /** `keys.sort((a, b) => a - b)`: the season numbers in ascending numeric order. */
  function SortSeasons(keys: seq<nat>): (r: seq<nat>)
    ensures multiset(r) == multiset(keys)
  {
    if keys == [] then []
    else
      assert keys == [keys[0]] + keys[1..];
      Insert(keys[0], SortSeasons(keys[1..]))
  }

  /** The numeric sort leaves the seasons in ascending order. */
  lemma {:induction false} SortSeasonsSorted(keys: seq<nat>)
    ensures Sorted(SortSeasons(keys))
  {
    if keys != [] {
      SortSeasonsSorted(keys[1..]);
      InsertSorted(keys[0], SortSeasons(keys[1..]));
    }
  }

  /** Distinct keys sort strictly upward. */
  lemma SortSeasonsStrict(keys: seq<nat>)
    requires forall i, j :: 0 <= i < j < |keys| ==> keys[i] != keys[j]
    ensures StrictlyIncreasing(SortSeasons(keys))
  {
    var r := SortSeasons(keys);
    SortSeasonsSorted(keys);
    forall i, j | 0 <= i < j < |r|
      ensures r[i] < r[j]
    {
      DistinctAfterSort(keys, r, i, j);
    }
  }

  /** A sequence with the same elements as a duplicate-free one has no
      duplicates either. */
  lemma DistinctAfterSort(keys: seq<nat>, r: seq<nat>, i: nat, j: nat)
    requires forall i, j :: 0 <= i < j < |keys| ==> keys[i] != keys[j]
    requires multiset(r) == multiset(keys) && i < j < |r|
    ensures r[i] != r[j]
  {
    DistinctCount(keys, r[i]);
    if r[i] == r[j] {
      TwoOccurrences(r, i, j);
    }
  }

  /** Season 10 comes after season 2: the order is numeric, not by text. */
  lemma NumericOrder()
    ensures SortSeasons([10, 2]) == [2, 10]
  {
    assert SortSeasons([2]) == [2];
  }

  // ---------------------------------------------------------------------------
  // The season buckets of the series modal
  // ---------------------------------------------------------------------------

  function SeasonOf(e: Entry): nat {
    Season(NameOf(e))
  }

  function ShowOf(e: Entry): string {
    ShowKey(NameOf(e))
  }

  /** `seasonsMap` of `openSeriesModal` and the order its seasons are shown in:
      each season's episodes in list order, the seasons ascending. */
  method SeasonBuckets(episodes: seq<Entry>) returns (buckets: map<nat, seq<Entry>>, seasons: seq<nat>)
    requires forall i :: 0 <= i < |episodes| ==> IsNamed(episodes[i])
    ensures StrictlyIncreasing(seasons)
    ensures forall k :: k in seasons <==> k in buckets
    ensures buckets.Keys == Keys(episodes, SeasonOf)
    ensures forall k :: k in buckets ==> buckets[k] == Members(episodes, SeasonOf, k)
  {
    var order;
    buckets, order := GroupBy(episodes, SeasonOf);
    seasons := SortSeasons(order);
    SortSeasonsStrict(order);
    assert forall k :: k in seasons <==> k in multiset(order);
  }

  // ---------------------------------------------------------------------------
  // The favourites view of the series tab
  // ---------------------------------------------------------------------------

  /** `favBaseNames`: the shows with at least one favourited episode. */
  function FavoriteShows(series: seq<Entry>, favUrls: seq<string>): set<string> {
    set e | e in series && e.url in favUrls :: ShowOf(e)
  }

  predicate OfShows(e: Entry, shows: set<string>) {
    ShowOf(e) in shows
  }

  /** `sourceList` of the favourites view: every episode of a show with a
      favourited episode, the first entry per address only, in catalog order. */
  function FavoriteShowEpisodes(series: seq<Entry>, favUrls: seq<string>): (r: seq<Entry>)
    requires forall i :: 0 <= i < |series| ==> IsNamed(series[i])
    ensures forall i, j :: 0 <= i < j < |r| ==> r[i].url != r[j].url
  {
    var shows := FavoriteShows(series, favUrls);
    KeepFirstBy(Filter(series, e => OfShows(e, shows)), UrlOf)
  }

  /** The favourites view holds catalog episodes of favourite shows only. */
  lemma FavoriteShowEpisodesSound(series: seq<Entry>, favUrls: seq<string>, e: Entry)
    requires forall i :: 0 <= i < |series| ==> IsNamed(series[i])
    requires e in FavoriteShowEpisodes(series, favUrls)
    ensures e in series && ShowOf(e) in FavoriteShows(series, favUrls)
  {
    var shows := FavoriteShows(series, favUrls);
    var p := e => OfShows(e, shows);
    KeptFiltered(series, p, UrlOf, e);
    assert p(e);
  }

  /** Every episode of a favourite show has its address in the favourites view. */
  lemma FavoriteShowEpisodesComplete(series: seq<Entry>, favUrls: seq<string>, i: nat)
    requires forall i :: 0 <= i < |series| ==> IsNamed(series[i])
    requires i < |series| && ShowOf(series[i]) in FavoriteShows(series, favUrls)
    ensures series[i].url in Keys(FavoriteShowEpisodes(series, favUrls), UrlOf)
  {
    var shows := FavoriteShows(series, favUrls);
    var inFav := Filter(series, e => OfShows(e, shows));
    assert OfShows(series[i], shows);
    assert series[i] in inFav;
    var k :| 0 <= k < |inFav| && inFav[k] == series[i];
    assert UrlOf(inFav[k]) in Keys(inFav, UrlOf);
    assert Keys(KeepFirstBy(inFav, UrlOf), UrlOf) == Keys(inFav, UrlOf);
  }

  /** `seriesMap` of the series view: one card per show, holding the show's
      episodes in list order, the shows in order of first appearance. */
  method SeriesCards(list: seq<Entry>) returns (cards: map<string, seq<Entry>>, shows: seq<string>)
    requires forall i :: 0 <= i < |list| ==> IsNamed(list[i])
    ensures shows == FirstKeys(list, ShowOf)
    ensures cards.Keys == Keys(list, ShowOf)
    ensures forall k :: k in cards ==> cards[k] == Members(list, ShowOf, k)
  {
    cards, shows := GroupBy(list, ShowOf);
  }

  /** A favourited episode brings its whole show into the favourites view. */
  lemma FavoriteEpisodeShowsItsShow(series: seq<Entry>, favUrls: seq<string>, i: nat, j: nat)
    requires forall k :: 0 <= k < |series| ==> IsNamed(series[k])
    requires i < |series| && j < |series|
    requires series[i].url in favUrls && ShowOf(series[j]) == ShowOf(series[i])
    ensures series[j].url in Keys(FavoriteShowEpisodes(series, favUrls), UrlOf)
  {
    assert ShowOf(series[i]) in FavoriteShows(series, favUrls) by {
      assert series[i] in series;
    }
    FavoriteShowEpisodesComplete(series, favUrls, j);
  }
}
