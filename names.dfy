/**
 * Name normalisation: the canonical "base name" that groups the variants of a
 * channel or of a movie, and the labels shown for the variants of one group.
 *
 * The channel normaliser strips decorations at the END of the name only (one
 * `[ALT]` marker, then quality tokens one after another); the movie normaliser
 * strips bracketed annotations and quality words ANYWHERE and then deletes every
 * bracket and parenthesis character. Neither is idempotent (see the two
 * `...NotIdempotent` lemmas).
 */
module Names {
  import opened Text
  import opened Catalog

  // ---------------------------------------------------------------------------
  // Channels (getBaseChannelName)
  // ---------------------------------------------------------------------------

  /** The alternatives of `(FHD|FULL ?HD|UHD|4K|HD|SD|1080P|720P)`, `FULL ?HD` spelled out. */
  const ChannelQualityTokens: seq<string> :=
    ["FHD", "FULL HD", "FULLHD", "UHD", "4K", "HD", "SD", "1080P", "720P"]

  /** `t` equals one of `toks` up to ASCII case. */
  predicate EqualsAnyCI(t: string, toks: seq<string>)
    decreases |toks|
  {
    toks != [] && (EqualsCI(t, toks[0]) || EqualsAnyCI(t, toks[1..]))
  }

  /** `t` is one or more white-space characters followed by one quality token. */
  predicate IsQualityTail(t: string)
    decreases |t|
  {
    |t| >= 2 && IsSpace(t[0])
    && (EqualsAnyCI(t[1..], ChannelQualityTokens) || IsQualityTail(t[1..]))
  }

  /** `/(\s+(FHD|FULL ?HD|…))$/i` matches `s` from index `i`: white space, then one
      quality token, then the end of the string. */
  predicate QualitySuffixAt(s: string, i: int) {
    0 <= i < |s| && IsQualityTail(s[i..])
  }

  /** The leftmost index, from `i` on, where the quality suffix matches; `|s|` if none. */
  function FirstQualitySuffix(s: string, i: nat): (r: nat)
    requires i <= |s|
    ensures i <= r <= |s|
    ensures r < |s| ==> QualitySuffixAt(s, r)
    ensures forall j :: i <= j < r ==> !QualitySuffixAt(s, j)
    decreases |s| - i
  {
    if i == |s| then |s|
    else if QualitySuffixAt(s, i) then i
    else FirstQualitySuffix(s, i + 1)
  }

  /** `quality.test(base)`. */
  predicate HasQualitySuffix(s: string) {
    FirstQualitySuffix(s, 0) < |s|
  }

  /** `base.replace(quality, '').trim()`: the leftmost match runs to the end, so the
      replacement keeps what precedes it. */
  function CutQualitySuffix(s: string): (r: string)
    requires HasQualitySuffix(s)
    ensures |r| < |s|
    ensures var k := FirstQualitySuffix(s, 0);
      IsQualityTail(s[k..]) && (forall j :: 0 <= j < k ==> !QualitySuffixAt(s, j))
      && r == Trim(s[..k])
  {
    Trim(s[..FirstQualitySuffix(s, 0)])
  }

  /** What the `while (quality.test(base))` loop leaves of `s`. */
  function StripQualities(s: string): (r: string)
    ensures forall j :: !QualitySuffixAt(r, j)
    ensures (s == [] || !IsSpace(s[0])) ==> |r| <= |s| && r == s[..|r|]
    ensures IsTrimmed(s) ==> IsTrimmed(r)
    decreases |s|
  {
    if HasQualitySuffix(s) then
      var c := CutQualitySuffix(s);
      CutKeepsPrefix(s);
      var r := StripQualities(c);
      if s == [] || !IsSpace(s[0]) then
        PrefixOfPrefix(r, c, s);
        r
      else
        r
    else
      s
  }

  lemma PrefixOfPrefix(r: string, c: string, s: string)
    requires |c| <= |s| && c == s[..|c|]
    requires |r| <= |c| && r == c[..|r|]
    ensures r == s[..|r|]
  {
  }

  /** A cut keeps a prefix of a string that does not start with white space. */
  lemma CutKeepsPrefix(s: string)
    requires HasQualitySuffix(s)
    ensures var r := CutQualitySuffix(s);
      (s == [] || !IsSpace(s[0])) ==> r == s[..|r|] && (r == [] || !IsSpace(r[0]))
  {
    if !IsSpace(s[0]) {
      var k := FirstQualitySuffix(s, 0);
      TrimPrefix(s[..k], s);
    }
  }

  /** `replace(/\s*\[ALT\]$/i, '')`; the white space before the marker is left for
      the `trim()` that follows it. */
  function DropAltMarker(s: string): (r: string)
    ensures |r| <= |s| && r == s[..|r|]
    ensures |s| >= 5 && EqualsCI(s[|s| - 5..], "[ALT]") ==> |r| == |s| - 5
    ensures !(|s| >= 5 && EqualsCI(s[|s| - 5..], "[ALT]")) ==> r == s
  {
    if |s| >= 5 && EqualsCI(s[|s| - 5..], "[ALT]") then s[..|s| - 5] else s
  }

  /** The specification of `getBaseChannelName`: empty for an empty (or missing)
      name; otherwise a prefix of the trimmed name that is itself trimmed and does
      not end in white space followed by a quality token. */
  function BaseChannelName(name: string): (r: string)
    ensures name == [] ==> r == []
    ensures |r| <= |Trim(name)| && r == Trim(name)[..|r|]
    ensures IsTrimmed(r)
    ensures forall j :: !QualitySuffixAt(r, j)
  {
    if name == [] then []
    else
      var t := Trim(name);
      var u := Trim(DropAltMarker(t));
      DroppedAltKeepsPrefix(t);
      var r := StripQualities(u);
      PrefixOfPrefix(r, u, t);
      r
  }

  /** Dropping the marker and trimming keeps a prefix of a trimmed name. */
  lemma DroppedAltKeepsPrefix(t: string)
    requires IsTrimmed(t)
    ensures var u := Trim(DropAltMarker(t));
      |u| <= |t| && u == t[..|u|] && (u == [] || !IsSpace(u[0]))
  {
    TrimPrefix(DropAltMarker(t), t);
  }

  /** A name with neither a trailing `[ALT]` marker nor a trailing quality token
      is its own base name, once trimmed. */
  lemma ChannelBaseFixed(name: string)
    requires !HasQualitySuffix(Trim(name))
    requires var t := Trim(name); !(|t| >= 5 && EqualsCI(t[|t| - 5..], "[ALT]"))
    ensures BaseChannelName(name) == Trim(name)
  {
    var t := Trim(name);
    UndecoratedStages(t);
    BaseChannelNameStages(name, t);
  }

  lemma BaseChannelNameStages(name: string, t: string)
    requires t == Trim(name) && StripQualities(Trim(DropAltMarker(t))) == t
    ensures BaseChannelName(name) == t
  {
  }

  lemma UndecoratedStages(t: string)
    requires IsTrimmed(t) && !HasQualitySuffix(t)
    requires !(|t| >= 5 && EqualsCI(t[|t| - 5..], "[ALT]"))
    ensures StripQualities(Trim(DropAltMarker(t))) == t
  {
    assert DropAltMarker(t) == t;
    TrimTrimmed(t);
  }

  /** `getBaseChannelName`, with its loop. */
  method GetBaseChannelName(name: string) returns (base: string)
    ensures base == BaseChannelName(name)
  {
    if name == [] {
      return [];
    }
    base := Trim(name);
    base := Trim(DropAltMarker(base));
    while HasQualitySuffix(base)
      invariant StripQualities(base) == BaseChannelName(name)
      decreases |base|
    {
      base := CutQualitySuffix(base);
    }
  }

  // ---------------------------------------------------------------------------
  // Movies (getBaseMovieName)
  // ---------------------------------------------------------------------------

  /** The alternatives of `\[(ALT|DUB|L|Cinema|CAM)\]`. */
  const AnnotationTokens: seq<string> := ["ALT", "DUB", "L", "Cinema", "CAM"]

  /** The alternatives of `\b(4K|HDCAM|HD|FHD|FULL ?HD|UHD|SD|1080P|720P)\b`, in order. */
  const MovieQualityWords: seq<string> :=
    ["4K", "HDCAM", "HD", "FHD", "FULL HD", "FULLHD", "UHD", "SD", "1080P", "720P"]

  /** `s` starts with `[`, then `t` in any case, then `]`. */
  predicate BracketedAt(s: string, t: string) {
    |t| + 2 <= |s| && s[0] == '[' && EqualsCI(s[1..|t| + 1], t) && s[|t| + 1] == ']'
  }

  /** Length of a `[token]` (token from `toks`, any case) at the start of `s`, or 0:
      the first alternative that fits wins. */
  function BracketedTokenLen(s: string, toks: seq<string>): (n: nat)
    ensures n == 0 || (2 <= n <= |s| && s[0] == '[' && s[n - 1] == ']')
    decreases |toks|
  {
    if toks == [] then 0
    else
      var t := toks[0];
      if BracketedAt(s, t) then |t| + 2 else BracketedTokenLen(s, toks[1..])
  }

  /** The length is that of the first alternative that fits, and 0 exactly when
      none does. */
  lemma {:induction false} BracketedTokenFirst(s: string, toks: seq<string>)
    ensures var n := BracketedTokenLen(s, toks);
      && (n == 0 <==> forall k :: 0 <= k < |toks| ==> !BracketedAt(s, toks[k]))
      && (n > 0 ==> exists k :: 0 <= k < |toks| && BracketedAt(s, toks[k]) && n == |toks[k]| + 2
                     && forall j :: 0 <= j < k ==> !BracketedAt(s, toks[j]))
    decreases |toks|
  {
    if toks != [] && !BracketedAt(s, toks[0]) {
      BracketedTokenFirst(s, toks[1..]);
      assert forall k :: 1 <= k < |toks| ==> toks[1..][k - 1] == toks[k];
      var n := BracketedTokenLen(s, toks);
      if n > 0 {
        var k :| 0 <= k < |toks[1..]| && BracketedAt(s, toks[1..][k]) && n == |toks[1..][k]| + 2
                 && forall j :: 0 <= j < k ==> !BracketedAt(s, toks[1..][j]);
        assert BracketedAt(s, toks[k + 1]) && n == |toks[k + 1]| + 2;
      }
    } else if toks != [] {
      assert BracketedAt(s, toks[0]);
    }
  }

  /** Length of the `\s*\[(ALT|DUB|L|Cinema|CAM)\]` match at the start of `s`, or 0:
      the greedy `\s*` takes the whole run of white space, which must be followed by
      the bracketed token. */
  function AnnotationLen(s: string): (n: nat)
    ensures n <= |s|
  {
    var t := TrimStart(s);
    var k := BracketedTokenLen(t, AnnotationTokens);
    if k == 0 then 0 else |s| - |t| + k
  }

  /** `replace(/\s*\[(ALT|DUB|L|Cinema|CAM)\]/gi, '')`: every match, scanning left to
      right, is deleted. */
  function StripAnnotations(s: string): (r: string)
    ensures |r| <= |s|
    decreases |s|
  {
    if s == [] then []
    else
      var n := AnnotationLen(s);
      if n > 0 then StripAnnotations(s[n..])
      else [s[0]] + StripAnnotations(s[1..])
  }

  /** The match is the whole run of leading white space and then a bracketed
      token. */
  lemma AnnotationShape(s: string)
    ensures var n := AnnotationLen(s); var w := |s| - |TrimStart(s)|;
      && (n == 0 <==> BracketedTokenLen(TrimStart(s), AnnotationTokens) == 0)
      && (n > 0 ==> w + 2 <= n && (forall i :: 0 <= i < w ==> IsSpace(s[i]))
                    && BracketedTokenLen(s[w..], AnnotationTokens) == n - w)
  {
  }

  /** Stripping only deletes: every character kept was in the name. */
  lemma {:induction false} StripAnnotationsKeeps(s: string)
    ensures multiset(StripAnnotations(s)) <= multiset(s)
    decreases |s|
  {
    if s != [] {
      var n := AnnotationLen(s);
      if n > 0 {
        StripAnnotationsKeeps(s[n..]);
        SuffixMultiset(s, n);
      } else {
        StripAnnotationsKeeps(s[1..]);
        SuffixMultiset(s, 1);
      }
    }
  }

  /** What is kept is the name with some characters removed, in the name's
      order. */
  lemma {:induction false} StripAnnotationsInOrder(s: string)
    ensures IsSubsequence(StripAnnotations(s), s)
    decreases |s|
  {
    if s != [] {
      var n := AnnotationLen(s);
      if n > 0 {
        StripAnnotationsInOrder(s[n..]);
        SubsequenceOfSuffix(StripAnnotations(s[n..]), s, n);
      } else {
        StripAnnotationsInOrder(s[1..]);
        SubsequenceCons(s[0], StripAnnotations(s[1..]), s);
      }
    }
  }

  /** No annotation match starts at any index of `s` below `j`. */
  predicate NoAnnotationBefore(s: string, j: nat)
    requires j <= |s|
  {
    forall k :: 0 <= k < j ==> AnnotationLen(s[k..]) == 0
  }

  /** The text before the first match is copied unchanged. */
  lemma {:induction false} StripAnnotationsCopies(s: string, j: nat)
    requires j <= |s| && NoAnnotationBefore(s, j)
    ensures StripAnnotations(s) == s[..j] + StripAnnotations(s[j..])
    decreases j
  {
    if j > 0 {
      NoAnnotationBeforeTail(s, j);
      StripAnnotationsCopies(s[1..], j - 1);
      CopyStep(s, j, StripAnnotations(s[1..]), StripAnnotations(s[j..]));
    }
  }

  /** No match at 0, and none below `j - 1` in the tail. */
  lemma NoAnnotationBeforeTail(s: string, j: nat)
    requires 0 < j <= |s| && NoAnnotationBefore(s, j)
    ensures s[1..][j - 1..] == s[j..]
    ensures NoAnnotationBefore(s[1..], j - 1)
    ensures StripAnnotations(s) == [s[0]] + StripAnnotations(s[1..])
  {
    assert s[0..] == s;
    forall k | 0 <= k < j - 1
      ensures AnnotationLen(s[1..][k..]) == 0
    {
      assert s[1..][k..] == s[k + 1..];
    }
  }

  /** A copied first character in front of a copied stretch. */
  lemma CopyStep(s: string, j: nat, r: string, t: string)
    requires 0 < j <= |s| && r == s[1..][..j - 1] + t
    ensures [s[0]] + r == s[..j] + t
  {
    assert s[..j] == [s[0]] + s[1..][..j - 1];
  }

  /** The first match, at `j`, is cut out: what precedes it is kept and the
      stripping goes on after the match. */
  lemma StripAnnotationsFirstMatch(s: string, j: nat)
    requires j < |s| && NoAnnotationBefore(s, j) && AnnotationLen(s[j..]) > 0
    ensures var u := s[j..];
      StripAnnotations(s) == s[..j] + StripAnnotations(u[AnnotationLen(u)..])
  {
    StripAnnotationsCopies(s, j);
  }

  /** A name in which no annotation matches anywhere is left unchanged. */
  lemma StripAnnotationsNoMatch(s: string)
    requires NoAnnotationBefore(s, |s|)
    ensures StripAnnotations(s) == s
  {
    StripAnnotationsCopies(s, |s|);
    assert s[..|s|] == s && s[|s|..] == [];
  }

  /** `\b` at index `j` of `s`: a word character on exactly one side. */
  predicate IsBoundary(s: string, j: int)
    requires 0 <= j <= |s|
  {
    (0 < j && IsWordChar(s[j - 1])) != (j < |s| && IsWordChar(s[j]))
  }

  /** Length of the `\b(token)\b` match at index `i` of `s` for the first token of
      `toks` that fits, or 0. Both boundaries are read in the whole of `s`. */
  function QualityWordLen(s: string, i: nat, toks: seq<string>): (n: nat)
    requires i <= |s|
    ensures i + n <= |s|
    decreases |toks|
  {
    if toks == [] || !IsBoundary(s, i) then 0
    else
      var t := toks[0];
      if t != [] && StartsWithCI(s[i..], t) && IsBoundary(s, i + |t|) then |t|
      else QualityWordLen(s, i, toks[1..])
  }

  /** A quality word found at `i` is one of the tokens, up to case, with a word
      boundary on each side. */
  lemma {:induction false} QualityWordMatch(s: string, i: nat, toks: seq<string>)
    requires i <= |s|
    ensures var n := QualityWordLen(s, i, toks);
      n > 0 ==> IsBoundary(s, i) && IsBoundary(s, i + n) && EqualsAnyCI(s[i..i + n], toks)
    decreases |toks|
  {
    if toks != [] && IsBoundary(s, i) {
      var t := toks[0];
      if t != [] && StartsWithCI(s[i..], t) && IsBoundary(s, i + |t|) {
        assert s[i..][..|t|] == s[i..i + |t|];
      } else {
        QualityWordMatch(s, i, toks[1..]);
      }
    }
  }

  /** `t`, in any case, starts at index `i` of `s` and ends on a `\b`. */
  predicate WordAt(s: string, i: nat, t: string)
    requires i <= |s|
  {
    t != [] && StartsWithCI(s[i..], t) && IsBoundary(s, i + |t|)
  }

  /** The converse of `QualityWordMatch`: at a `\b`, the match is the first
      alternative, in the pattern's order, that appears there as a whole word,
      and there is none exactly when no alternative does. */
  lemma {:induction false} QualityWordFirst(s: string, i: nat, toks: seq<string>)
    requires i <= |s|
    ensures var n := QualityWordLen(s, i, toks);
      && (n == 0 <==> !IsBoundary(s, i) || forall k :: 0 <= k < |toks| ==> !WordAt(s, i, toks[k]))
      && (n > 0 ==> exists k :: 0 <= k < |toks| && WordAt(s, i, toks[k]) && n == |toks[k]|
                     && forall j :: 0 <= j < k ==> !WordAt(s, i, toks[j]))
    decreases |toks|
  {
    if toks != [] && IsBoundary(s, i) && !WordAt(s, i, toks[0]) {
      QualityWordFirst(s, i, toks[1..]);
      assert forall k :: 1 <= k < |toks| ==> toks[1..][k - 1] == toks[k];
      var n := QualityWordLen(s, i, toks);
      if n > 0 {
        var k :| 0 <= k < |toks[1..]| && WordAt(s, i, toks[1..][k]) && n == |toks[1..][k]|
                 && forall j :: 0 <= j < k ==> !WordAt(s, i, toks[1..][j]);
        assert WordAt(s, i, toks[k + 1]) && n == |toks[k + 1]|;
      }
    } else if toks != [] && IsBoundary(s, i) {
      assert WordAt(s, i, toks[0]);
    }
  }

  /** `replace(/\b(4K|HDCAM|…)\b/gi, '')` applied to `s[i..]`, with `s` as context. */
  function StripQualityWords(s: string, i: nat): (r: string)
    requires i <= |s|
    ensures |r| <= |s| - i
    decreases |s| - i
  {
    if i == |s| then []
    else
      var n := QualityWordLen(s, i, MovieQualityWords);
      if n > 0 then StripQualityWords(s, i + n)
      else [s[i]] + StripQualityWords(s, i + 1)
  }

  /** Stripping only deletes: every character kept was in `s[i..]`. */
  lemma {:induction false} StripQualityWordsKeeps(s: string, i: nat)
    requires i <= |s|
    ensures multiset(StripQualityWords(s, i)) <= multiset(s[i..])
    decreases |s| - i
  {
    if i < |s| {
      var n := QualityWordLen(s, i, MovieQualityWords);
      if n > 0 {
        StripQualityWordsKeeps(s, i + n);
        SuffixMultiset(s[i..], n);
        assert s[i..][n..] == s[i + n..];
      } else {
        StripQualityWordsKeeps(s, i + 1);
        SuffixMultiset(s[i..], 1);
        assert s[i..][1..] == s[i + 1..];
      }
    }
  }

  /** What is kept is `s[i..]` with some characters removed, in their order. */
  lemma {:induction false} StripQualityWordsInOrder(s: string, i: nat)
    requires i <= |s|
    ensures IsSubsequence(StripQualityWords(s, i), s[i..])
    decreases |s| - i
  {
    if i < |s| {
      var n := QualityWordLen(s, i, MovieQualityWords);
      if n > 0 {
        StripQualityWordsInOrder(s, i + n);
        SubsequenceSkip(StripQualityWords(s, i + n), s, i, n);
      } else {
        StripQualityWordsInOrder(s, i + 1);
        SubsequenceKeep(StripQualityWords(s, i + 1), s, i);
      }
    }
  }

  /** Dropping `s[i..i + n]` from the front keeps a subsequence of `s[i + n..]` one of `s[i..]`. */
  lemma SubsequenceSkip(r: string, s: string, i: nat, n: nat)
    requires i + n <= |s| && IsSubsequence(r, s[i + n..])
    ensures IsSubsequence(r, s[i..])
  {
    assert s[i..][n..] == s[i + n..];
    SubsequenceOfSuffix(r, s[i..], n);
  }

  /** Keeping `s[i]` in front of a subsequence of `s[i + 1..]` gives one of `s[i..]`. */
  lemma SubsequenceKeep(r: string, s: string, i: nat)
    requires i < |s| && IsSubsequence(r, s[i + 1..])
    ensures IsSubsequence([s[i]] + r, s[i..])
  {
    assert s[i..][1..] == s[i + 1..];
    SubsequenceCons(s[i], r, s[i..]);
  }

  /** No quality word starts at any index in `[i, j)`. */
  predicate Kept(s: string, i: nat, j: nat)
    requires i <= j <= |s|
    decreases j - i
  {
    i == j || (QualityWordLen(s, i, MovieQualityWords) == 0 && Kept(s, i + 1, j))
  }

  /** Positions where no quality word starts are copied unchanged. */
  lemma {:induction false} StripQualityWordsCopies(s: string, i: nat, j: nat)
    requires i <= j <= |s| && Kept(s, i, j)
    ensures StripQualityWords(s, i) == s[i..j] + StripQualityWords(s, j)
    decreases j - i
  {
    if i < j {
      StripQualityWordsCopies(s, i + 1, j);
      SliceCons(s, i, j);
      Assoc([s[i]], s[i + 1..j], StripQualityWords(s, j));
    } else {
      assert s[i..j] == [];
    }
  }

  lemma SliceCons(s: string, i: nat, j: nat)
    requires i < j <= |s|
    ensures s[i..j] == [s[i]] + s[i + 1..j]
  {
  }

  /** The first match at or after `i`, at `j`, is cut out: what precedes it is
      kept and the stripping goes on after it. */
  lemma StripQualityWordsFirstMatch(s: string, i: nat, j: nat)
    requires i <= j < |s| && Kept(s, i, j) && QualityWordLen(s, j, MovieQualityWords) > 0
    ensures StripQualityWords(s, i)
         == s[i..j] + StripQualityWords(s, j + QualityWordLen(s, j, MovieQualityWords))
  {
    StripQualityWordsCopies(s, i, j);
    StripQualityWordsAtMatch(s, j);
  }

  lemma StripQualityWordsAtMatch(s: string, j: nat)
    requires j < |s| && QualityWordLen(s, j, MovieQualityWords) > 0
    ensures StripQualityWords(s, j) == StripQualityWords(s, j + QualityWordLen(s, j, MovieQualityWords))
  {
  }

  /** No quality word of `toks` starts at an index of `[i, j)`. */
  predicate NoWordBetween(s: string, i: nat, j: nat, toks: seq<string>)
    requires i <= j <= |s|
  {
    forall k :: i <= k < j ==> QualityWordLen(s, k, toks) == 0
  }

  /** `Kept` holds exactly when no quality word starts at an index of `[i, j)`. */
  lemma KeptIndices(s: string, i: nat, j: nat)
    requires i <= j <= |s|
    ensures Kept(s, i, j) <==> NoWordBetween(s, i, j, MovieQualityWords)
  {
    if Kept(s, i, j) {
      KeptHasNoWord(s, i, j);
    } else if NoWordBetween(s, i, j, MovieQualityWords) {
      NoWordIsKept(s, i, j);
    }
  }

  lemma {:induction false} KeptHasNoWord(s: string, i: nat, j: nat)
    requires i <= j <= |s| && Kept(s, i, j)
    ensures NoWordBetween(s, i, j, MovieQualityWords)
    decreases j - i
  {
    if i < j {
      KeptHasNoWord(s, i + 1, j);
      NoWordBetweenSplit(s, i, j, MovieQualityWords);
    }
  }

  lemma {:induction false} NoWordIsKept(s: string, i: nat, j: nat)
    requires i <= j <= |s| && NoWordBetween(s, i, j, MovieQualityWords)
    ensures Kept(s, i, j)
    decreases j - i
  {
    if i < j {
      NoWordBetweenSplit(s, i, j, MovieQualityWords);
      NoWordIsKept(s, i + 1, j);
    }
  }

  lemma NoWordBetweenSplit(s: string, i: nat, j: nat, toks: seq<string>)
    requires i < j <= |s|
    ensures NoWordBetween(s, i, j, toks)
        <==> QualityWordLen(s, i, toks) == 0 && NoWordBetween(s, i + 1, j, toks)
  {
  }

  /** A name in which no quality word starts anywhere is left unchanged. */
  lemma StripQualityWordsNoMatch(s: string)
    requires NoWordBetween(s, 0, |s|, MovieQualityWords)
    ensures StripQualityWords(s, 0) == s
  {
    KeptIndices(s, 0, |s|);
    StripQualityWordsCopies(s, 0, |s|);
    assert s[0..|s|] == s;
  }

  /** `a` is `b` with some characters deleted: the characters of `a` occur in
      `b` in the same order. */
  predicate IsSubsequence(a: string, b: string)
    decreases |b|
  {
    a == [] || (b != [] && ((a[0] == b[0] && IsSubsequence(a[1..], b[1..])) || IsSubsequence(a, b[1..])))
  }

  /** What is a subsequence of a suffix is a subsequence of the whole. */
  lemma {:induction false} SubsequenceOfSuffix(a: string, b: string, n: nat)
    requires n <= |b| && IsSubsequence(a, b[n..])
    ensures IsSubsequence(a, b)
    decreases n
  {
    if n > 0 {
      assert b[1..][n - 1..] == b[n..];
      SubsequenceOfSuffix(a, b[1..], n - 1);
    } else {
      assert b[0..] == b;
    }
  }

  /** Keeping the first character and a subsequence of the rest. */
  lemma SubsequenceCons(c: char, a: string, b: string)
    requires b != [] && b[0] == c && IsSubsequence(a, b[1..])
    ensures IsSubsequence([c] + a, b)
  {
    assert ([c] + a)[1..] == a;
  }

  lemma Assoc(a: string, b: string, c: string)
    ensures a + (b + c) == (a + b) + c
  {
  }

  /** Dropping a prefix keeps a sub-multiset; dropping one character keeps the rest. */
  lemma SuffixMultiset(s: string, n: nat)
    requires 0 < n <= |s|
    ensures multiset(s[n..]) <= multiset(s)
    ensures n == 1 ==> multiset([s[0]]) + multiset(s[1..]) == multiset(s)
  {
    assert s == s[..n] + s[n..];
  }

  predicate IsBracket(c: char) {
    c == '[' || c == ']' || c == '(' || c == ')'
  }

  /** `replace(/[\[\]()]/g, '')`: every bracket and parenthesis goes, paired or not. */
  function DeleteBrackets(s: string): (r: string)
    ensures |r| <= |s|
    ensures All(r, c => !IsBracket(c))
    ensures All(s, c => !IsBracket(c)) ==> r == s
    ensures IsSubsequence(r, s)
  {
    if s == [] then []
    else if IsBracket(s[0]) then DeleteBrackets(s[1..])
    else
      var t := DeleteBrackets(s[1..]);
      SubsequenceCons(s[0], t, s);
      [s[0]] + t
  }

  /** The deletion works character by character, so it keeps the order of what
      it keeps: the result for two pieces is the two results side by side. */
  lemma {:induction false} DeleteBracketsConcat(a: string, b: string)
    ensures DeleteBrackets(a + b) == DeleteBrackets(a) + DeleteBrackets(b)
    decreases |a|
  {
    if a != [] {
      var ab := a + b;
      assert ab[0] == a[0] && ab[1..] == a[1..] + b;
      var h := if IsBracket(a[0]) then [] else [a[0]];
      assert DeleteBrackets(ab) == h + DeleteBrackets(a[1..] + b);
      DeleteBracketsConcat(a[1..], b);
      assert DeleteBrackets(a) == h + DeleteBrackets(a[1..]);
    } else {
      assert a + b == b;
    }
  }

  /** `getBaseMovieName`: empty for an empty (or missing) name; otherwise trimmed and
      free of brackets and parentheses. */
  function BaseMovieName(name: string): (r: string)
    ensures name == [] ==> r == []
    ensures IsTrimmed(r)
    ensures All(r, c => !IsBracket(c))
  {
    if name == [] then []
    else
      var a := Trim(StripAnnotations(Trim(name)));
      var q := Trim(StripQualityWords(a, 0));
      TrimAll(DeleteBrackets(q), c => !IsBracket(c));
      Trim(DeleteBrackets(q))
  }

  // ---------------------------------------------------------------------------
  // Variant labels (getVariantExtra, getVariantLabel)
  // ---------------------------------------------------------------------------

  /** `getVariantExtra`: what `fullName` adds beyond a case-insensitive literal
      prefix `baseName`, trimmed, or `"Principal"` when nothing is left. */
  function VariantExtra(baseName: string, fullName: string): (r: string)
    ensures fullName == [] <==> r == []
    ensures fullName != [] && StartsWithCI(fullName, baseName) ==>
      r == (if Trim(fullName[|baseName|..]) == [] then "Principal" else Trim(fullName[|baseName|..]))
    ensures fullName != [] && !StartsWithCI(fullName, baseName) ==>
      r == (if Trim(fullName) == [] then "Principal" else Trim(fullName))
    ensures r != [] && r != "Principal" ==> IsTrimmed(r) && IsInfix(r, fullName)
    ensures fullName != [] && EqualsCI(TrimEnd(fullName), baseName) ==> r == "Principal"
  {
    if fullName == [] then []
    else
      var stripped := StartsWithCI(fullName, baseName);
      var m := if stripped then |baseName| else 0;
      var rest := Trim(fullName[m..]);
      InfixOfSuffix(rest, fullName, m);
      NothingBeyondBase(baseName, fullName);
      if rest == [] then "Principal" else rest
  }

  /** A name that is its base followed only by white space leaves nothing once
      the base is stripped. */
  lemma NothingBeyondBase(baseName: string, fullName: string)
    ensures EqualsCI(TrimEnd(fullName), baseName) ==>
      StartsWithCI(fullName, baseName) && Trim(fullName[|baseName|..]) == []
  {
    if EqualsCI(TrimEnd(fullName), baseName) {
      TrimAllSpace(fullName[|baseName|..]);
      assert fullName[..|baseName|] == TrimEnd(fullName);
    }
  }

  /** Round trip: a base, a space and a trimmed extra give back the extra. */
  lemma VariantExtraRoundTrip(baseName: string, extra: string)
    requires extra != [] && IsTrimmed(extra)
    ensures VariantExtra(baseName, baseName + " " + extra) == extra
  {
    var full := baseName + " " + extra;
    assert full[..|baseName|] == baseName;
    EqualsCIRefl(baseName);
    assert full[|baseName|..] == [' '] + extra;
    SpaceThenTrimmed(extra);
  }

  /** A space in front of a trimmed string is cut off again. */
  lemma SpaceThenTrimmed(e: string)
    requires IsTrimmed(e)
    ensures Trim([' '] + e) == e
  {
    var tail := [' '] + e;
    assert tail[1..] == e;
    assert TrimStart(tail) == TrimStart(e);
    TrimTrimmed(e);
  }

  /** `/\[Cinema\]|HDCAM|\[CAM\]|\(CAM\)/i.test(name)`. */
  predicate IsCinema(name: string) {
    ContainsCI(name, "[Cinema]") || ContainsCI(name, "HDCAM") || ContainsCI(name, "[CAM]") || ContainsCI(name, "(CAM)")
  }

  /** `getVariantLabel`: for movies a fixed priority chain on the name, for every
      other kind the channel's residual label. */
  function VariantLabel(kind: Kind, name: string): (r: string)
    ensures kind == Movies ==> r in ["Legendado", "4K", "Cinema", "Dublado"]
    ensures kind == Movies ==> (r == "Legendado" <==> ContainsCI(name, "[L]"))
    ensures kind == Movies ==> (r == "4K" <==> !ContainsCI(name, "[L]") && ContainsCI(name, "4K"))
    ensures kind == Movies ==>
      (r == "Cinema" <==> !ContainsCI(name, "[L]") && !ContainsCI(name, "4K") && IsCinema(name))
    ensures kind != Movies ==> (r == [] <==> name == [])
    ensures kind != Movies ==> r == VariantExtra(BaseChannelName(name), name)
  {
    if kind == Movies then
      if ContainsCI(name, "[L]") then "Legendado"
      else if ContainsCI(name, "4K") then "4K"
      else if IsCinema(name) then "Cinema"
      else "Dublado"
    else
      VariantExtra(BaseChannelName(name), name)
  }

  /** The label of a channel whose name is its base name, a space and a
      trimmed extra is that extra. */
  lemma ChannelLabelIsExtra(kind: Kind, baseName: string, extra: string)
    requires kind != Movies && extra != [] && IsTrimmed(extra)
    requires BaseChannelName(baseName + " " + extra) == baseName
    ensures VariantLabel(kind, baseName + " " + extra) == extra
  {
    VariantExtraRoundTrip(baseName, extra);
  }
}
