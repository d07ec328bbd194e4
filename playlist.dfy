/**
 * `parseM3U`: the playlist text is cut into lines, `#EXTINF` lines open a pending
 * entry, address lines complete it, and each completed entry is classified by its
 * address into one of the three kind lists or dropped.
 *
 * The loop itself is `Store.ParseM3U`; this module holds the functions that
 * specify it. They run over the lines from the last one backwards
 * (`Pending`, `Completed`, `KindList`), which is the shape a loop that appends
 * proves against.
 */
module Playlist {
  import opened Wrappers
  import opened Text
  import opened Catalog
  import opened Names

  // ---------------------------------------------------------------------------
  // Lines (`text.split(/\r?\n/)`)
  // ---------------------------------------------------------------------------

  predicate NoNewline(s: string) {
    forall i :: 0 <= i < |s| ==> s[i] != '\n'
  }

  /** `text.split(/\r?\n/)`: cut at every `\n`, and drop a `\r` standing just
      before it; a `\r` anywhere else stays in its line. */
  function SplitLines(t: string): (r: seq<string>)
    ensures |r| >= 1
    ensures forall i :: 0 <= i < |r| ==> NoNewline(r[i])
    decreases |t|
  {
    if t == [] then [[]]
    else if t[0] == '\n' then [[]] + SplitLines(t[1..])
    else if |t| >= 2 && t[0] == '\r' && t[1] == '\n' then [[]] + SplitLines(t[2..])
    else
      var rest := SplitLines(t[1..]);
      [[t[0]] + rest[0]] + rest[1..]
  }

  /** The lines put back together with `\n` between them. */
  function JoinLines(lines: seq<string>): string
    requires |lines| >= 1
  {
    if |lines| == 1 then lines[0] else lines[0] + "\n" + JoinLines(lines[1..])
  }

  function CountNewlines(t: string): nat {
    if t == [] then 0 else (if t[0] == '\n' then 1 else 0) + CountNewlines(t[1..])
  }

  predicate NoCarriageReturn(t: string) {
    forall i :: 0 <= i < |t| ==> t[i] != '\r'
  }

  /** Every `\n` ends one line: the text has one line more than it has `\n`s. */
  lemma {:induction false} SplitLinesCount(t: string)
    ensures |SplitLines(t)| == CountNewlines(t) + 1
    decreases |t|
  {
    if t == [] {
    } else if t[0] == '\n' {
      SplitLinesCount(t[1..]);
    } else if |t| >= 2 && t[0] == '\r' && t[1] == '\n' {
      SplitLinesCount(t[2..]);
      assert CountNewlines(t) == CountNewlines(t[1..]);
      assert t[1..][1..] == t[2..];
    } else {
      SplitLinesCount(t[1..]);
    }
  }

  lemma JoinLinesCons(c: char, first: string, rest: seq<string>)
    ensures JoinLines([[c] + first] + rest) == [c] + JoinLines([first] + rest)
  {
    var ls := [[c] + first] + rest;
    var ms := [first] + rest;
    if rest != [] {
      assert ls[1..] == rest && ms[1..] == rest;
      var tail := JoinLines(rest);
      assert JoinLines(ls) == ([c] + first) + "\n" + tail;
      assert JoinLines(ms) == first + "\n" + tail;
      assert ([c] + first) + "\n" + tail == [c] + (first + "\n" + tail);
    }
  }

  /** Without carriage returns, joining the lines with `\n` gives the text back. */
  lemma {:induction false} SplitLinesJoin(t: string)
    requires NoCarriageReturn(t)
    ensures JoinLines(SplitLines(t)) == t
    decreases |t|
  {
    if t == [] {
    } else if t[0] == '\n' {
      SplitLinesJoin(t[1..]);
      var rest := SplitLines(t[1..]);
      assert ([[]] + rest)[1..] == rest;
    } else {
      assert t[0] != '\r';
      SplitLinesJoin(t[1..]);
      var rest := SplitLines(t[1..]);
      assert rest == [rest[0]] + rest[1..];
      JoinLinesCons(t[0], rest[0], rest[1..]);
    }
  }

  // ---------------------------------------------------------------------------
  // `#EXTINF` lines
  // ---------------------------------------------------------------------------

  /** `line.split(',').pop()`: what follows the last comma, or the whole line. */
  function AfterLastComma(s: string): (r: string)
    ensures |r| <= |s| && r == s[|s| - |r|..]
    ensures forall i :: 0 <= i < |r| ==> r[i] != ','
    ensures |r| < |s| ==> s[|s| - |r| - 1] == ','
  {
    if s == [] then []
    else if s[|s| - 1] == ',' then []
    else AfterLastComma(s[..|s| - 1]) + [s[|s| - 1]]
  }

  /** Where the lazy `(.*?)"` that starts at `j` stops looking: the first `"` or
      line terminator at or after `j`, or the end of the line. */
  function ValueStop(s: string, j: nat): (k: nat)
    requires j <= |s|
    ensures j <= k <= |s|
    ensures forall i :: j <= i < k ==> s[i] != '"' && !IsLineTerminator(s[i])
    ensures k < |s| ==> s[k] == '"' || IsLineTerminator(s[k])
    decreases |s| - j
  {
    if j == |s| || s[j] == '"' || IsLineTerminator(s[j]) then j else ValueStop(s, j + 1)
  }

  /** `key(.*?)"` tried at index `k` of `s`: the captured value when it matches there. */
  function AttrAt(s: string, key: string, k: nat): (r: Option<string>)
    requires k <= |s|
    ensures r.Some? ==> StartsWith(s[k..], key + r.value + "\"")
    ensures r.Some? ==> forall i :: 0 <= i < |r.value| ==> r.value[i] != '"' && !IsLineTerminator(r.value[i])
  {
    if StartsWith(s[k..], key) then
      var e := ValueStop(s, k + |key|);
      if e < |s| && s[e] == '"' then
        var v := s[k + |key|..e];
        assert s[k..][..|key + v + "\""|] == s[k..k + |key|] + v + "\"";
        Some(v)
      else None
    else None
  }

  /** The leftmost index at or after `k` where `key(.*?)"` matches. */
  function FirstMatch(s: string, key: string, k: nat): (r: Option<nat>)
    requires k <= |s|
    ensures r.Some? ==> k <= r.value <= |s| && AttrAt(s, key, r.value).Some?
    ensures forall j :: k <= j <= |s| && (r.None? || j < r.value) ==> AttrAt(s, key, j).None?
    decreases |s| - k
  {
    if AttrAt(s, key, k).Some? then Some(k)
    else if k == |s| then None
    else FirstMatch(s, key, k + 1)
  }

  /** No `"` and no line terminator: what `(.*?)"` can capture. */
  predicate QuoteFree(v: string) {
    forall i :: 0 <= i < |v| ==> v[i] != '"' && !IsLineTerminator(v[i])
  }

  /** The converse of `AttrAt`'s contract: wherever `key`, a quote-free value and
      a `"` follow one another, `key(.*?)"` matches there and captures that value. */
  lemma AttrAtMatches(s: string, key: string, k: nat, v: string)
    requires k <= |s| && StartsWith(s[k..], key + v + "\"") && QuoteFree(v)
    ensures AttrAt(s, key, k) == Some(v)
  {
    var w := key + v + "\"";
    var j := k + |key|;
    var e := j + |v|;
    assert s[k..][..|key|] == w[..|key|] == key;
    forall i | j <= i < e
      ensures s[i] == v[i - j]
    {
      assert s[i] == s[k..][i - k] == w[i - k];
    }
    assert s[e] == s[k..][e - k] == w[e - k] == '"';
    assert ValueStop(s, j) == e;
    assert s[j..e] == v;
  }

  /** `/key(.*?)"/.exec(line)`, reduced to its capture group: the capture of the
      leftmost match, or nothing when `key(.*?)"` matches nowhere. */
  function Attr(line: string, key: string): (r: Option<string>)
    ensures r.None? <==> forall j :: 0 <= j <= |line| ==> AttrAt(line, key, j).None?
    ensures r.Some? ==> exists j :: 0 <= j <= |line| && AttrAt(line, key, j) == r
                                    && forall i :: 0 <= i < j ==> AttrAt(line, key, i).None?
  {
    match FirstMatch(line, key, 0)
    case Some(j) =>
      assert forall i :: 0 <= i < j ==> AttrAt(line, key, i).None?;
      AttrAt(line, key, j)
    case None => None
  }

  /** The capture of `key(.*?)"` when its first match is at `k`. */
  lemma AttrFirst(line: string, key: string, k: nat, v: string)
    requires k <= |line| && StartsWith(line[k..], key + v + "\"") && QuoteFree(v)
    requires forall j :: 0 <= j < k ==> !StartsWith(line[j..], key)
    ensures Attr(line, key) == Some(v)
  {
    AttrAtMatches(line, key, k, v);
    assert forall j :: 0 <= j < k ==> AttrAt(line, key, j).None?;
  }

  const LogoKey := "tvg-logo=\""
  const GroupKey := "group-title=\""

  /** The pending entry an `#EXTINF` line opens: the trimmed text after its last
      comma, the `tvg-logo` value or `""`, the `group-title` value or `"Outros"`. */
  function ParseExtinf(line: string): (r: Meta)
    ensures r.name == Trim(AfterLastComma(line))
    ensures Attr(line, LogoKey).Some? ==> r.logo == Attr(line, LogoKey).value
    ensures Attr(line, LogoKey).None? ==> r.logo == ""
    ensures Attr(line, GroupKey).Some? ==> r.group == Attr(line, GroupKey).value
    ensures Attr(line, GroupKey).None? ==> r.group == "Outros"
    ensures IsTrimmed(r.name) && IsInfix(r.name, line)
    ensures forall i :: 0 <= i < |r.name| ==> r.name[i] != ','
    ensures r.logo == [] || Contains(line, LogoKey + r.logo + "\"")
    ensures !Contains(line, GroupKey) ==> r.group == "Outros"
  {
    var tail := AfterLastComma(line);
    var name := Trim(tail);
    TrimAll(tail, c => c != ',');
    InfixOfSuffix(name, line, |line| - |tail|);
    AttrContains(line, LogoKey);
    AttrContains(line, GroupKey);
    Meta(name, Attr(line, LogoKey).GetOr(""), Attr(line, GroupKey).GetOr("Outros"))
  }

  // ---------------------------------------------------------------------------
  // The `#EXTINF` line a playlist writer emits, read back
  // ---------------------------------------------------------------------------

  /** `#EXTINF:-1 tvg-logo="<logo>" group-title="<group>",<name>`. */
  function ExtinfLine(logo: string, group: string, name: string): string {
    "#EXTINF:-1 " + LogoKey + logo + "\" " + GroupKey + group + "\"," + name
  }

  /** Parsing such a line gives back its name, logo and group, as long as the
      name is trimmed and comma-free, the values are quote-free and the logo has
      no `=` (which could fake a `group-title="` inside it). */
  lemma ParseExtinfRoundTrip(logo: string, group: string, name: string)
    requires QuoteFree(logo) && QuoteFree(group) && '=' !in logo
    requires IsTrimmed(name) && ',' !in name
    ensures ParseExtinf(ExtinfLine(logo, group, name)) == Meta(name, logo, group)
  {
    ExtinfName(logo, group, name);
    ExtinfLogo(logo, group, name);
    ExtinfGroup(logo, group, name);
  }

  /** What follows the last comma, when the tail after a comma has none. */
  lemma {:induction false} AfterLastCommaAfter(a: string, n: string)
    requires ',' !in n
    ensures AfterLastComma(a + "," + n) == n
    decreases |n|
  {
    var s := a + "," + n;
    if n == [] {
      assert s[|s| - 1] == ',';
    } else {
      var m := n[..|n| - 1];
      assert s[|s| - 1] == n[|n| - 1];
      assert s[..|s| - 1] == a + "," + m;
      AfterLastCommaAfter(a, m);
      assert m + [n[|n| - 1]] == n;
    }
  }

  lemma ExtinfName(logo: string, group: string, name: string)
    requires IsTrimmed(name) && ',' !in name
    ensures Trim(AfterLastComma(ExtinfLine(logo, group, name))) == name
  {
    var a := "#EXTINF:-1 " + LogoKey + logo + "\" " + GroupKey + group + "\"";
    assert ExtinfLine(logo, group, name) == a + "," + name;
    AfterLastCommaAfter(a, name);
    TrimTrimmed(name);
  }

  lemma ExtinfLogo(logo: string, group: string, name: string)
    requires QuoteFree(logo)
    ensures Attr(ExtinfLine(logo, group, name), LogoKey) == Some(logo)
  {
    var line := ExtinfLine(logo, group, name);
    LogoShape(logo, group, name);
    NoLogoKeyBefore(line);
    AttrFirst(line, LogoKey, 11, logo);
  }

  lemma LogoShape(logo: string, group: string, name: string)
    ensures var line := ExtinfLine(logo, group, name);
            StartsWith(line[11..], LogoKey + logo + "\"")
            && forall i :: 0 <= i < 20 ==> line[i] != '"'
  {
    var line := ExtinfLine(logo, group, name);
    var h := "#EXTINF:-1 ";
    var w := LogoKey + logo + "\"";
    var u := w + " " + GroupKey + group + "\"," + name;
    assert line == h + u;
    assert line[11..] == u;
    assert u[..|w|] == w;
    assert u[..10] == LogoKey;
    NoQuoteBefore(line, h, u);
  }

  /** Without a `"` among the first 20 characters, `tvg-logo="` cannot start
      before index 11. */
  lemma NoLogoKeyBefore(line: string)
    requires |line| >= 20 && forall i :: 0 <= i < 20 ==> line[i] != '"'
    ensures forall j :: 0 <= j < 11 ==> !StartsWith(line[j..], LogoKey)
  {
    forall j | 0 <= j < 11
      ensures !StartsWith(line[j..], LogoKey)
    {
      assert line[j..][9] == line[j + 9] != LogoKey[9];
    }
  }

  /** Up to the `"` that opens the logo value, the line has no `"`. */
  lemma NoQuoteBefore(line: string, h: string, u: string)
    requires h == "#EXTINF:-1 " && line == h + u
    requires |u| >= 10 && u[..10] == LogoKey
    ensures forall i :: 0 <= i < 20 ==> line[i] != '"'
  {
    forall i | 0 <= i < 20
      ensures line[i] != '"'
    {
      if i < 11 {
        assert line[i] == h[i];
      } else {
        assert line[i] == u[..10][i - 11];
      }
    }
  }

  lemma ExtinfGroup(logo: string, group: string, name: string)
    requires QuoteFree(logo) && QuoteFree(group) && '=' !in logo
    ensures Attr(ExtinfLine(logo, group, name), GroupKey) == Some(group)
  {
    var line := ExtinfLine(logo, group, name);
    var pre := "#EXTINF:-1 " + LogoKey + logo + "\" ";
    var k := |pre|;
    GroupShape(logo, group, name, pre);
    ExtinfEquals(logo, line, pre);
    NoGroupKeyBefore(line, k);
    AttrFirst(line, GroupKey, k, group);
  }

  lemma GroupShape(logo: string, group: string, name: string, pre: string)
    requires pre == "#EXTINF:-1 " + LogoKey + logo + "\" "
    ensures var line := ExtinfLine(logo, group, name);
            |line| >= |pre| + 11
            && StartsWith(line[|pre|..], GroupKey + group + "\"")
            && line[..|pre| + 11] == pre + GroupKey[..11]
  {
    var line := ExtinfLine(logo, group, name);
    var w := GroupKey + group + "\"";
    var rest := "," + name;
    var k := |pre|;
    assert line == pre + w + rest;
    assert line[k..] == w + rest;
    assert (w + rest)[..|w|] == w;
    assert line[..k + 11] == pre + GroupKey[..11];
  }

  /** With `=` only at index 19 and `-` at index 8, `group-title="` cannot start
      before `k`. */
  lemma NoGroupKeyBefore(line: string, k: nat)
    requires |line| >= k + 11 && line[8] == '-' && GroupKey[0] == 'g'
    requires forall i :: 0 <= i < k + 11 && line[i] == '=' ==> i == 19
    ensures forall j :: 0 <= j < k ==> !StartsWith(line[j..], GroupKey)
  {
    forall j | 0 <= j < k
      ensures !StartsWith(line[j..], GroupKey)
    {
      if j == 8 {
        assert line[j..][0] != GroupKey[0];
      } else {
        assert line[j..][11] == line[j + 11] != GroupKey[11];
      }
    }
  }

  /** The only `=` before the group value's key ends is the one of `tvg-logo=`. */
  lemma ExtinfEquals(logo: string, line: string, pre: string)
    requires '=' !in logo
    requires pre == "#EXTINF:-1 " + LogoKey + logo + "\" "
    requires |line| >= |pre| + 11 && line[..|pre| + 11] == pre + GroupKey[..11]
    ensures line[8] == '-' && GroupKey[0] == 'g'
    ensures forall i :: 0 <= i < |pre| + 11 && line[i] == '=' ==> i == 19
  {
    var head := "#EXTINF:-1 tvg-logo=\"";
    assert pre == head + logo + "\" ";
    assert line[8] == line[..|pre| + 11][8] == head[8];
    forall i | 0 <= i < |pre| + 11 && line[i] == '='
      ensures i == 19
    {
      var c := line[..|pre| + 11][i];
    }
  }

  /** What `Attr` captures really occurs in the line, between the key and a `"`. */
  lemma AttrContains(line: string, key: string)
    ensures Attr(line, key).Some? ==> Contains(line, key + Attr(line, key).value + "\"")
    ensures Attr(line, key).Some? ==> Contains(line, key)
  {
    match FirstMatch(line, key, 0)
    case Some(j) =>
      var v := AttrAt(line, key, j);
      if v.Some? {
        ContainsAt(line, key + v.value + "\"", j);
        assert line[j..][..|key|] == (key + v.value + "\"")[..|key|];
        ContainsAt(line, key, j);
      }
    case None =>
  }

  /** An occurrence at index `j` makes `Contains` true. */
  lemma {:induction false} ContainsAt(s: string, p: string, j: nat)
    requires j <= |s| && StartsWith(s[j..], p)
    ensures Contains(s, p)
    decreases j
  {
    if j > 0 {
      assert s[1..][j - 1..] == s[j..];
      ContainsAt(s[1..], p, j - 1);
    }
  }

  // ---------------------------------------------------------------------------
  // Classification
  // ---------------------------------------------------------------------------

  /** `/.p/i.test(s)`: some character other than a line terminator, then `p` up
      to ASCII case. The dot is not escaped, so it matches any such character. */
  predicate AnyCharThenCI(s: string, p: string)
    decreases |s|
  {
    s != [] && ((!IsLineTerminator(s[0]) && StartsWithCI(s[1..], p)) || AnyCharThenCI(s[1..], p))
  }

  /** The kind an address goes to, first match wins: `/series/i`, then
      `/movie/i`, then `/.ts/i` or `/.m3u8/i`; no match drops the entry. */
  function Classify(url: string): Option<Kind> {
    if ContainsCI(url, "series") then Some(Series)
    else if ContainsCI(url, "movie") then Some(Movies)
    else if AnyCharThenCI(url, "ts") || AnyCharThenCI(url, "m3u8") then Some(Tv)
    else None
  }

  /** Each kind, and dropping, in terms of the patterns: a kind is taken exactly
      when its pattern matches and no earlier pattern does. */
  lemma ClassifyCases(url: string)
    ensures Classify(url) == Some(Series) <==> ContainsCI(url, "series")
    ensures Classify(url) == Some(Movies) <==> !ContainsCI(url, "series") && ContainsCI(url, "movie")
    ensures Classify(url) == Some(Tv) <==>
      (!ContainsCI(url, "series") && !ContainsCI(url, "movie")
       && (AnyCharThenCI(url, "ts") || AnyCharThenCI(url, "m3u8")))
    ensures Classify(url) == None <==>
      (!ContainsCI(url, "series") && !ContainsCI(url, "movie")
       && !AnyCharThenCI(url, "ts") && !AnyCharThenCI(url, "m3u8"))
  {
  }

  /** The regular expression `/.p/i` matches at index `k` (its dot at `k - 1`). */
  predicate DotMatchAt(s: string, p: string, k: int) {
    1 <= k <= |s| && !IsLineTerminator(s[k - 1]) && StartsWithCI(s[k..], p)
  }

  /** `AnyCharThenCI` holds exactly when the pattern matches at some index. */
  lemma {:induction false} AnyCharThenAt(s: string, p: string, k: int)
    requires DotMatchAt(s, p, k)
    ensures AnyCharThenCI(s, p)
    decreases k
  {
    if k > 1 {
      assert s[1..][k - 1..] == s[k..];
      assert DotMatchAt(s[1..], p, k - 1);
      AnyCharThenAt(s[1..], p, k - 1);
    }
  }

  lemma {:induction false} AnyCharThenWitness(s: string, p: string)
    requires AnyCharThenCI(s, p)
    ensures exists k :: DotMatchAt(s, p, k)
    decreases |s|
  {
    if !IsLineTerminator(s[0]) && StartsWithCI(s[1..], p) {
      assert DotMatchAt(s, p, 1);
    } else {
      AnyCharThenWitness(s[1..], p);
      var k :| DotMatchAt(s[1..], p, k);
      assert s[1..][k..] == s[k + 1..];
      assert DotMatchAt(s, p, k + 1);
    }
  }

  /** A `p` that holds a character `s` lacks (up to case) does not occur in `s`. */
  lemma {:induction false} MissingCharNotContainsCI(s: string, p: string, j: nat)
    requires j < |p|
    requires forall i :: 0 <= i < |s| ==> LowerChar(s[i]) != LowerChar(p[j])
    ensures !ContainsCI(s, p)
    decreases |s|
  {
    if StartsWithCI(s, p) {
      EqualsCIAt(s[..|p|], p, j);
    }
    if s != [] {
      assert forall i :: 0 <= i < |s[1..]| ==> s[1..][i] == s[i + 1];
      MissingCharNotContainsCI(s[1..], p, j);
    }
  }

  /** Case-insensitively equal strings agree, up to case, at every index. */
  lemma {:induction false} EqualsCIAt(a: string, b: string, j: nat)
    requires EqualsCI(a, b) && j < |a|
    ensures LowerChar(a[j]) == LowerChar(b[j])
    decreases j
  {
    if j > 0 {
      EqualsCIAt(a[1..], b[1..], j - 1);
    }
  }

  /** Wherever in the address `/.ts/i` or `/.m3u8/i` matches, the address is a
      channel unless it names a series or a movie. */
  lemma DotMatchIsTv(url: string, p: string, k: int)
    requires p == "ts" || p == "m3u8"
    requires DotMatchAt(url, p, k)
    requires !ContainsCI(url, "series") && !ContainsCI(url, "movie")
    ensures Classify(url) == Some(Tv)
  {
    AnyCharThenAt(url, p, k);
  }

  /** An address ending in `.ts` is a channel unless it names a series or a movie. */
  lemma DotTsIsTv(url: string)
    requires |url| >= 3 && url[|url| - 3..] == ".ts"
    requires !ContainsCI(url, "series") && !ContainsCI(url, "movie")
    ensures Classify(url) == Some(Tv)
  {
    TailDotMatch(url, "ts");
    DotMatchIsTv(url, "ts", |url| - 2);
  }

  /** An address ending in `.m3u8` is a channel unless it names a series or a movie. */
  lemma DotM3u8IsTv(url: string)
    requires |url| >= 5 && url[|url| - 5..] == ".m3u8"
    requires !ContainsCI(url, "series") && !ContainsCI(url, "movie")
    ensures Classify(url) == Some(Tv)
  {
    TailDotMatch(url, "m3u8");
    DotMatchIsTv(url, "m3u8", |url| - 4);
  }

  /** A string ending in `.` and `p` matches `/.p/i` at the start of that `p`. */
  lemma TailDotMatch(url: string, p: string)
    requires |url| >= |p| + 1 && url[|url| - |p| - 1..] == "." + p
    ensures DotMatchAt(url, p, |url| - |p|)
  {
    var k := |url| - |p|;
    var tail := url[k - 1..];
    assert url[k - 1] == tail[0] == '.';
    assert url[k..] == tail[1..] == p;
    StartsWithIsCI(url[k..], p);
  }

  /** The unescaped dot at work: a `/sports/` path is taken for a channel. */
  lemma SportsIsTv()
    ensures Classify("/sports/") == Some(Tv)
  {
    var s := "/sports/";
    SportsNamesNothing();
    assert s[4] == 'r' && s[5..][..2] == "ts";
    StartsWithIsCI(s[5..], "ts");
    assert DotMatchAt(s, "ts", 5);
    AnyCharThenAt(s, "ts", 5);
  }

  lemma SportsNamesNothing()
    ensures !ContainsCI("/sports/", "series") && !ContainsCI("/sports/", "movie")
  {
    var s := "/sports/";
    assert forall i :: 0 <= i < |s| ==> LowerChar(s[i]) != 'e';
    MissingCharNotContainsCI(s, "series", 1);
    MissingCharNotContainsCI(s, "movie", 4);
  }

  // ---------------------------------------------------------------------------
  // The accumulator and the completed entries
  // ---------------------------------------------------------------------------

  /** A metadata line (`line.startsWith('#EXTINF')`, case-sensitive). */
  predicate IsExtinf(line: string) {
    StartsWith(line, "#EXTINF")
  }

  /** An address line: not empty and not starting with `#`. */
  predicate IsAddress(line: string) {
    line != [] && line[0] != '#'
  }

  /** Blank lines and comments other than `#EXTINF` change nothing. */
  predicate Ignored(line: string) {
    !IsExtinf(line) && !IsAddress(line)
  }

  /** `current` after the lines: opened by the last `#EXTINF` line, reset to the
      empty object by an address line. */
  function Pending(lines: seq<string>): Option<Meta> {
    if lines == [] then None
    else
      var line := lines[|lines| - 1];
      if IsExtinf(line) then Some(ParseExtinf(line))
      else if IsAddress(line) then None
      else Pending(lines[..|lines| - 1])
  }

  /** The entries the lines complete, one per address line, in input order. */
  function Completed(lines: seq<string>): seq<RawEntry> {
    if lines == [] then []
    else
      var init := lines[..|lines| - 1];
      var line := lines[|lines| - 1];
      Completed(init) + (if IsAddress(line) then [RawEntry(Pending(init), Trim(line))] else [])
  }

  function AddressCount(lines: seq<string>): nat {
    if lines == [] then 0
    else AddressCount(lines[..|lines| - 1]) + (if IsAddress(lines[|lines| - 1]) then 1 else 0)
  }

  /** Exactly one entry per address line. */
  lemma {:induction false} CompletedCount(lines: seq<string>)
    ensures |Completed(lines)| == AddressCount(lines)
  {
    if lines != [] {
      CompletedCount(lines[..|lines| - 1]);
    }
  }

  /** The step the loop takes on one more line. */
  lemma Snoc(init: seq<string>, line: string)
    ensures Pending(init + [line])
         == if IsExtinf(line) then Some(ParseExtinf(line))
            else if IsAddress(line) then None
            else Pending(init)
    ensures Completed(init + [line])
         == Completed(init) + (if IsAddress(line) then [RawEntry(Pending(init), Trim(line))] else [])
  {
    var b := init + [line];
    assert b[..|b| - 1] == init && b[|b| - 1] == line;
  }

  /** A metadata line is never an address line. */
  lemma ExtinfNotAddress(line: string)
    requires IsExtinf(line)
    ensures !IsAddress(line)
  {
    assert line[0] == "#EXTINF"[0];
  }

  /** Ignored lines leave the accumulator and the completed entries as they were. */
  lemma {:induction false} IgnoredLines(pre: seq<string>, mid: seq<string>)
    requires forall i :: 0 <= i < |mid| ==> Ignored(mid[i])
    ensures Pending(pre + mid) == Pending(pre)
    ensures Completed(pre + mid) == Completed(pre)
    decreases |mid|
  {
    if mid == [] {
      assert pre + mid == pre;
    } else {
      var m := mid[..|mid| - 1];
      var line := mid[|mid| - 1];
      assert Ignored(line);
      assert forall i :: 0 <= i < |m| ==> m[i] == mid[i];
      assert pre + mid == (pre + m) + [line];
      IgnoredLines(pre, m);
      Snoc(pre + m, line);
    }
  }

  /** An `#EXTINF` line and the next address line, with only ignored lines between
      them, complete one entry carrying that line's metadata and the trimmed address. */
  lemma Pairing(pre: seq<string>, ext: string, mid: seq<string>, addr: string)
    requires IsExtinf(ext) && IsAddress(addr)
    requires forall i :: 0 <= i < |mid| ==> Ignored(mid[i])
    ensures Completed(pre + [ext] + mid + [addr])
         == Completed(pre) + [RawEntry(Some(ParseExtinf(ext)), Trim(addr))]
  {
    var meta := ParseExtinf(ext);
    var a := pre + [ext];
    ExtinfNotAddress(ext);
    Snoc(pre, ext);
    assert Pending(a) == Some(meta) && Completed(a) == Completed(pre);
    IgnoredLines(a, mid);
    var b := a + mid;
    assert Pending(b) == Some(meta) && Completed(b) == Completed(pre);
    Snoc(b, addr);
  }

  /** An address line right after another one completes an entry with no
      metadata at all (`current` is the empty object again). */
  lemma Orphan(pre: seq<string>, a1: string, a2: string)
    requires IsAddress(a1) && IsAddress(a2)
    ensures Completed(pre + [a1, a2])
         == Completed(pre + [a1]) + [RawEntry(None, Trim(a2))]
  {
    assert a1[0] != "#EXTINF"[0];
    Snoc(pre, a1);
    AppendTwo(pre, a1, a2);
    Snoc(pre + [a1], a2);
  }

  lemma AppendTwo(s: seq<string>, x: string, y: string)
    ensures s + [x, y] == (s + [x]) + [y]
  {
  }

  // ---------------------------------------------------------------------------
  // The three kind lists
  // ---------------------------------------------------------------------------

  /** The item pushed onto kind `k`'s list; only `tv` items get a `baseName`,
      computed from the name, or from `""` when there is none. */
  function ToEntry(raw: RawEntry, k: Kind): (e: Entry)
    ensures e.meta == raw.meta && e.url == raw.url
    ensures e.baseName.Some? <==> k == Tv
    ensures k == Tv && raw.meta.None? ==> e.baseName == Some([])
  {
    Entry(raw.meta, raw.url, if k == Tv then Some(BaseChannelName(NameOr(raw.meta))) else None)
  }

  /** Kind `k`'s list: the completed entries classified into `k`, in order. */
  function KindList(raws: seq<RawEntry>, k: Kind): (r: seq<Entry>)
    ensures |r| <= |raws|
  {
    if raws == [] then []
    else
      var last := raws[|raws| - 1];
      KindList(raws[..|raws| - 1], k)
        + (if Classify(last.url) == Some(k) then [ToEntry(last, k)] else [])
  }

  /** The entries no pattern claims. */
  function Dropped(raws: seq<RawEntry>): (r: seq<RawEntry>)
    ensures |r| <= |raws|
  {
    if raws == [] then []
    else
      var last := raws[|raws| - 1];
      Dropped(raws[..|raws| - 1]) + (if Classify(last.url).None? then [last] else [])
  }

  /** The catalog `parseM3U` builds from the text: kind `k`'s list. */
  function Parse(text: string, k: Kind): seq<Entry> {
    KindList(Completed(SplitLines(text)), k)
  }

  /** The lists grow in input order: a later chunk of entries lands after an earlier one. */
  lemma {:induction false} KindListAppend(a: seq<RawEntry>, b: seq<RawEntry>, k: Kind)
    ensures KindList(a + b, k) == KindList(a, k) + KindList(b, k)
    decreases |b|
  {
    if b == [] {
      assert a + b == a;
    } else {
      var c := b[..|b| - 1];
      var last := b[|b| - 1];
      assert b == c + [last];
      KindListAppend(a, c, k);
      AppendStep(a, c, last, k);
    }
  }

  /** One step of `KindListAppend`: a further entry after `c`. */
  lemma AppendStep(a: seq<RawEntry>, c: seq<RawEntry>, last: RawEntry, k: Kind)
    requires KindList(a + c, k) == KindList(a, k) + KindList(c, k)
    ensures KindList(a + (c + [last]), k) == KindList(a, k) + KindList(c + [last], k)
  {
    var x := if Classify(last.url) == Some(k) then [ToEntry(last, k)] else [];
    assert a + (c + [last]) == (a + c) + [last];
    KindListSnoc(a + c, last, k);
    KindListSnoc(c, last, k);
    var ka, kc := KindList(a, k), KindList(c, k);
    assert (ka + kc) + x == ka + (kc + x);
  }

  /** Each completed entry goes to exactly one list or is dropped: the three
      lists and the dropped entries account for every entry once. */
  lemma {:induction false} Partition(raws: seq<RawEntry>)
    ensures |KindList(raws, Tv)| + |KindList(raws, Movies)| + |KindList(raws, Series)|
            + |Dropped(raws)| == |raws|
  {
    if raws != [] {
      Partition(raws[..|raws| - 1]);
    }
  }

  lemma KindListSnoc(init: seq<RawEntry>, last: RawEntry, k: Kind)
    ensures KindList(init + [last], k)
         == KindList(init, k) + (if Classify(last.url) == Some(k) then [ToEntry(last, k)] else [])
  {
    var b := init + [last];
    assert b[..|b| - 1] == init && b[|b| - 1] == last;
  }

  /** Kind `k`'s list holds exactly the entries classified into `k`. */
  lemma KindListMembers(raws: seq<RawEntry>, k: Kind, e: Entry)
    ensures e in KindList(raws, k)
        <==> exists raw :: raw in raws && Classify(raw.url) == Some(k) && e == ToEntry(raw, k)
  {
    if e in KindList(raws, k) {
      KindListFrom(raws, k, e);
    }
    if raw :| raw in raws && Classify(raw.url) == Some(k) && e == ToEntry(raw, k) {
      KindListHas(raws, k, raw);
    }
  }

  /** Every entry of a kind list comes from a completed entry of that kind. */
  lemma {:induction false} KindListFrom(raws: seq<RawEntry>, k: Kind, e: Entry)
    requires e in KindList(raws, k)
    ensures exists raw :: raw in raws && Classify(raw.url) == Some(k) && e == ToEntry(raw, k)
    decreases |raws|
  {
    var init := raws[..|raws| - 1];
    var last := raws[|raws| - 1];
    KindListSnoc(init, last, k);
    assert raws == init + [last];
    if e in KindList(init, k) {
      KindListFrom(init, k, e);
      var raw :| raw in init && Classify(raw.url) == Some(k) && e == ToEntry(raw, k);
      assert raw in raws;
    } else {
      assert last in raws;
    }
  }

  /** Every completed entry of a kind is in that kind's list. */
  lemma {:induction false} KindListHas(raws: seq<RawEntry>, k: Kind, raw: RawEntry)
    requires raw in raws && Classify(raw.url) == Some(k)
    ensures ToEntry(raw, k) in KindList(raws, k)
    decreases |raws|
  {
    var init := raws[..|raws| - 1];
    var last := raws[|raws| - 1];
    KindListSnoc(init, last, k);
    assert raws == init + [last];
    if raw != last {
      assert raw in init;
      KindListHas(init, k, raw);
    }
  }
}
