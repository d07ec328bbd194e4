/**
 * Worked inputs for the name normalisers: the two movie titles whose
 * decorations all go, and the two inputs on which a second application of a
 * normaliser still changes the result (neither normaliser is idempotent).
 */
module NameExamples {
  import opened Text
  import opened Names
  import opened Catalog

  // ---------------------------------------------------------------------------
  // General facts used by the examples
  // ---------------------------------------------------------------------------

  /** `s` has no `[`. */
  predicate NoOpenBracket(s: string) {
    s == [] || (s[0] != '[' && NoOpenBracket(s[1..]))
  }

  /** Without a `[` there is no bracketed annotation to strip. */
  lemma {:induction false} StripAnnotationsNoBracket(s: string)
    requires NoOpenBracket(s)
    ensures StripAnnotations(s) == s
    decreases |s|
  {
    if s != [] {
      NoBracketNoAnnotation(s);
      StripAnnotationsNoBracket(s[1..]);
    }
  }

  lemma NoBracketNoAnnotation(s: string)
    requires NoOpenBracket(s) && s != []
    ensures AnnotationLen(s) == 0
  {
    var t := TrimStart(s);
    if t != [] {
      NoOpenBracketSuffix(s, |s| - |t|);
    }
  }

  lemma {:induction false} NoOpenBracketSuffix(s: string, k: nat)
    requires NoOpenBracket(s) && k < |s|
    ensures s[k] != '['
    decreases k
  {
    if k > 0 {
      NoOpenBracketSuffix(s[1..], k - 1);
    }
  }

  /** No quality word matches at index `i` when no token starts with `s[i]`. */
  lemma {:induction false} NoQualityWordAt(s: string, i: nat, toks: seq<string>)
    requires i < |s|
    requires forall k :: 0 <= k < |toks| ==> toks[k] != [] && LowerChar(toks[k][0]) != LowerChar(s[i])
    ensures QualityWordLen(s, i, toks) == 0
    decreases |toks|
  {
    if toks != [] && IsBoundary(s, i) {
      var t := toks[0];
      if |t| <= |s[i..]| {
        assert s[i..][..|t|][0] == s[i];
      }
      assert forall k :: 1 <= k < |toks| ==> toks[1..][k - 1] == toks[k];
      NoQualityWordAt(s, i, toks[1..]);
    }
  }

  /** Inside a word there is no `\b`, so no quality word can start there. */
  lemma InsideWord(s: string, i: nat)
    requires 0 < i < |s| && IsWordChar(s[i - 1]) && IsWordChar(s[i])
    ensures QualityWordLen(s, i, MovieQualityWords) == 0
  {
  }

  /** Inside a run of word characters no quality word can start. */
  lemma {:induction false} WordRun(s: string, i: nat, j: nat)
    requires 0 < i <= j <= |s|
    requires forall k :: i - 1 <= k < j ==> IsWordChar(s[k])
    ensures Kept(s, i, j)
    decreases j - i
  {
    if i < j {
      InsideWord(s, i);
      WordRun(s, i + 1, j);
    }
  }

  lemma ConsConcat(p: string, rest: string)
    requires p != []
    ensures (p + rest)[0] == p[0] && (p + rest)[1..] == p[1..] + rest
    ensures [p[0]] + p[1..] == p
  {
  }

  /** A character that is neither white space nor `[` is kept by the annotation pass. */
  lemma AnnotationNone(s: string)
    requires s != [] && !IsSpace(s[0]) && s[0] != '['
    ensures StripAnnotations(s) == [s[0]] + StripAnnotations(s[1..])
  {
    TrimStartNoop(s);
    assert AnnotationLen(s) == 0;
  }

  /** No character of `p` is white space or `[`. */
  predicate Plain(p: string) {
    p == [] || (!IsSpace(p[0]) && p[0] != '[' && Plain(p[1..]))
  }

  lemma {:induction false} PlainChars(p: string)
    requires forall k :: 0 <= k < |p| ==> !IsSpace(p[k]) && p[k] != '['
    ensures Plain(p)
  {
    if p != [] {
      assert forall k :: 0 <= k < |p| - 1 ==> p[1..][k] == p[k + 1];
      PlainChars(p[1..]);
    }
  }

  /** A plain prefix is copied unchanged by the annotation pass. */
  lemma {:induction false} StripAnnotationsPlain(p: string, rest: string)
    requires Plain(p)
    ensures StripAnnotations(p + rest) == p + StripAnnotations(rest)
  {
    if p == [] {
      assert p + rest == rest;
    } else {
      var s := p + rest;
      ConsConcat(p, rest);
      AnnotationNone(s);
      StripAnnotationsPlain(p[1..], rest);
      Assoc([p[0]], p[1..], StripAnnotations(rest));
    }
  }

  // ---------------------------------------------------------------------------
  // "Inception [DUB]" and "Inception 4K"
  // ---------------------------------------------------------------------------

  lemma DubToken()
    ensures BracketedTokenLen("[DUB]", AnnotationTokens) == 5
  {
    var s := "[DUB]";
    assert AnnotationTokens[1] == "DUB";
    assert s[1..4] == "DUB";
    EqualsCIRefl("DUB");
    assert BracketedTokenLen(s, AnnotationTokens[1..]) == 5;
    assert !EqualsCI(s[1..4], "ALT") by {
      assert LowerChar('D') != LowerChar('A');
    }
  }

  lemma DubAnnotation()
    ensures StripAnnotations(" [DUB]") == []
  {
    var s := " [DUB]";
    assert TrimStart(s) == s[1..] by {
      assert IsSpace(s[0]);
      assert s[1..] == "[DUB]";
      TrimStartNoop(s[1..]);
    }
    DubToken();
    assert AnnotationLen(s) == 6;
  }

  lemma InceptionPlain()
    ensures forall k :: 0 <= k < 9 ==> !IsSpace("Inception"[k]) && "Inception"[k] != '['
    ensures forall k :: 0 <= k < 9 ==> !IsBracket("Inception"[k])
  {
  }

  lemma InceptionDubStrip()
    ensures StripAnnotations("Inception [DUB]") == "Inception"
  {
    assert "Inception [DUB]" == "Inception" + " [DUB]";
    InceptionPlain();
    PlainChars("Inception");
    StripAnnotationsPlain("Inception", " [DUB]");
    DubAnnotation();
  }

  lemma InceptionDubAnnotations()
    ensures Trim(StripAnnotations("Inception [DUB]")) == "Inception"
  {
    TrimTrimmed("Inception");
    InceptionDubStrip();
  }

  /** The first letters of the movie quality words, folded to lower case. */
  lemma MovieWordInitials()
    ensures forall k :: 0 <= k < |MovieQualityWords| ==>
      MovieQualityWords[k] != [] && LowerChar(MovieQualityWords[k][0]) in "4hfus17"
  {
  }

  /** No quality word starts with a character outside those initials. */
  lemma NoMovieWordAt(s: string, i: nat)
    requires i < |s| && LowerChar(s[i]) !in "4hfus17"
    ensures QualityWordLen(s, i, MovieQualityWords) == 0
  {
    MovieWordInitials();
    NoQualityWordAt(s, i, MovieQualityWords);
  }

  lemma InceptionWordChars(s: string)
    requires |s| >= 9 && s[..9] == "Inception"
    ensures forall k :: 0 <= k < 9 ==> IsWordChar(s[k])
    ensures LowerChar(s[0]) == 'i'
  {
    assert forall k :: 0 <= k < 9 ==> s[k] == "Inception"[k];
  }

  /** No quality word starts inside "Inception", in any context. */
  lemma InceptionNoWords(s: string)
    requires |s| >= 9 && s[..9] == "Inception"
    ensures Kept(s, 0, 9)
  {
    InceptionWordChars(s);
    NoMovieWordAt(s, 0);
    WordRun(s, 1, 9);
  }

  lemma InceptionCopied()
    ensures StripQualityWords("Inception", 0) == "Inception"
  {
    var a := "Inception";
    InceptionNoWords(a);
    StripQualityWordsCopies(a, 0, |a|);
    assert a[0..|a|] == a;
  }

  lemma InceptionKept()
    ensures Trim(StripQualityWords("Inception", 0)) == "Inception"
  {
    assert IsTrimmed("Inception");
    TrimTrimmed("Inception");
    InceptionCopied();
  }

  lemma {:induction false} DeleteBracketsNone(s: string)
    requires forall k :: 0 <= k < |s| ==> !IsBracket(s[k])
    ensures DeleteBrackets(s) == s
  {
    if s != [] {
      assert forall k :: 0 <= k < |s| - 1 ==> s[1..][k] == s[k + 1];
      DeleteBracketsNone(s[1..]);
      ConsConcat(s, []);
    }
  }

  lemma InceptionUnbracketed()
    ensures DeleteBrackets("Inception") == "Inception"
  {
    InceptionPlain();
    DeleteBracketsNone("Inception");
  }

  lemma InceptionNoBrackets()
    ensures Trim(DeleteBrackets("Inception")) == "Inception"
  {
    assert IsTrimmed("Inception");
    TrimTrimmed("Inception");
    InceptionUnbracketed();
  }

  lemma QualityWordStep(s: string, i: nat)
    requires i < |s| && QualityWordLen(s, i, MovieQualityWords) == 0
    ensures StripQualityWords(s, i) == [s[i]] + StripQualityWords(s, i + 1)
  {
  }

  lemma QualityWordSkip(s: string, i: nat, n: nat)
    requires i < |s| && QualityWordLen(s, i, MovieQualityWords) == n && n > 0
    ensures StripQualityWords(s, i) == StripQualityWords(s, i + n)
  {
  }

  lemma Tail4KChars(s: string)
    requires |s| >= 3 && s[|s| - 3..] == " 4K"
    ensures s[|s| - 3] == ' ' && s[|s| - 2] == '4' && s[|s| - 1] == 'K'
    ensures s[|s| - 2..][..2] == "4K"
  {
    assert s[|s| - 2..] == s[|s| - 3..][1..];
  }

  /** A trailing "4K" after white space is a whole quality word. */
  lemma Trailing4K(s: string)
    requires |s| >= 3 && s[|s| - 3..] == " 4K"
    ensures QualityWordLen(s, |s| - 2, MovieQualityWords) == 2
  {
    Tail4KMatch(s);
    assert MovieQualityWords[0] == "4K";
    FirstTokenMatches(s, |s| - 2, MovieQualityWords);
  }

  lemma Tail4KMatch(s: string)
    requires |s| >= 3 && s[|s| - 3..] == " 4K"
    ensures IsBoundary(s, |s| - 2) && IsBoundary(s, |s|) && StartsWithCI(s[|s| - 2..], "4K")
  {
    Tail4KChars(s);
    EqualsCIRefl("4K");
  }

  /** The first token wins when it matches as a whole word. */
  lemma FirstTokenMatches(s: string, i: nat, toks: seq<string>)
    requires i <= |s| && toks != [] && toks[0] != []
    requires IsBoundary(s, i) && StartsWithCI(s[i..], toks[0]) && IsBoundary(s, i + |toks[0]|)
    ensures QualityWordLen(s, i, toks) == |toks[0]|
  {
  }

  lemma Tail4KAnnotations()
    ensures StripAnnotations(" 4K") == " 4K"
  {
    assert NoOpenBracket(" 4K");
    StripAnnotationsNoBracket(" 4K");
  }

  lemma Inception4KStrip()
    ensures StripAnnotations("Inception 4K") == "Inception 4K"
  {
    assert "Inception 4K" == "Inception" + " 4K";
    InceptionPlain();
    PlainChars("Inception");
    StripAnnotationsPlain("Inception", " 4K");
    Tail4KAnnotations();
  }

  lemma Inception4KAnnotations()
    ensures Trim(StripAnnotations("Inception 4K")) == "Inception 4K"
  {
    assert IsTrimmed("Inception 4K");
    TrimTrimmed("Inception 4K");
    Inception4KStrip();
  }

  lemma Tail4KWords(s: string)
    requires |s| == 12 && s[9..] == " 4K"
    ensures StripQualityWords(s, 9) == " "
  {
    assert s[9] == ' ';
    NoMovieWordAt(s, 9);
    QualityWordStep(s, 9);
    Trailing4K(s);
    QualityWordSkip(s, 10, 2);
  }

  lemma Inception4KWords()
    ensures StripQualityWords("Inception 4K", 0) == "Inception "
  {
    var s := "Inception 4K";
    assert s[..9] == "Inception" && s[9..] == " 4K";
    InceptionNoWords(s);
    StripQualityWordsCopies(s, 0, 9);
    Tail4KWords(s);
    assert s[0..9] + " " == "Inception ";
  }

  lemma InceptionSpaceTrim()
    ensures Trim("Inception ") == "Inception"
  {
    var t := "Inception ";
    TrimStartNoop(t);
    assert t[..9] == "Inception";
    assert TrimEnd(t) == TrimEnd("Inception");
    assert TrimEnd("Inception") == "Inception";
  }

  /** The stages of `getBaseMovieName`, given their intermediate results. */
  lemma MovieStages(name: string, a: string, q: string, r: string)
    requires name != [] && IsTrimmed(name)
    requires Trim(StripAnnotations(name)) == a
    requires Trim(StripQualityWords(a, 0)) == q
    requires Trim(DeleteBrackets(q)) == r
    ensures BaseMovieName(name) == r
  {
    TrimTrimmed(name);
  }

  /** `getBaseMovieName("Inception [DUB]")` is `"Inception"`. */
  lemma InceptionDub()
    ensures BaseMovieName("Inception [DUB]") == "Inception"
  {
    assert IsTrimmed("Inception [DUB]");
    InceptionDubAnnotations();
    InceptionKept();
    InceptionNoBrackets();
    MovieStages("Inception [DUB]", "Inception", "Inception", "Inception");
  }

  /** `getBaseMovieName("Inception 4K")` is `"Inception"`. */
  lemma Inception4K()
    ensures BaseMovieName("Inception 4K") == "Inception"
  {
    assert IsTrimmed("Inception 4K");
    Inception4KAnnotations();
    Inception4KWords();
    InceptionSpaceTrim();
    InceptionNoBrackets();
    MovieStages("Inception 4K", "Inception 4K", "Inception", "Inception");
  }

  // ---------------------------------------------------------------------------
  // Movies: "[H]D" -> "HD" -> ""
  // ---------------------------------------------------------------------------

  lemma HBracketToken()
    ensures BracketedTokenLen("[H]D", AnnotationTokens) == 0
  {
    var s := "[H]D";
    assert AnnotationTokens == ["ALT", "DUB", "L", "Cinema", "CAM"];
    assert s[1..2] == "H";
    assert !EqualsCI("H", "L");
  }

  lemma AnnotationCons(c: char, rest: string)
    requires AnnotationLen([c] + rest) == 0
    ensures StripAnnotations([c] + rest) == [c] + StripAnnotations(rest)
  {
    assert ([c] + rest)[1..] == rest;
  }

  lemma HBracketNoAnnotation()
    ensures AnnotationLen("[H]D") == 0
  {
    TrimStartNoop("[H]D");
    HBracketToken();
  }

  lemma HBracketAnnotations()
    ensures StripAnnotations("[H]D") == "[H]D"
  {
    assert "[H]D" == ['['] + "H]D";
    HBracketNoAnnotation();
    AnnotationCons('[', "H]D");
    HTailAnnotations();
  }

  lemma HTailAnnotations()
    ensures StripAnnotations("H]D") == "H]D"
  {
    assert NoOpenBracket("H]D");
    StripAnnotationsNoBracket("H]D");
  }

  /** No movie quality word is a prefix of "H]D", up to case. */
  lemma HNoPrefix()
    ensures forall k :: 0 <= k < |MovieQualityWords| ==>
      MovieQualityWords[k] != [] && !StartsWithCI("H]D", MovieQualityWords[k])
  {
    var w := "H]D";
    assert w[..2] == "H]";
    assert !EqualsCI("H]", "HD") by {
      assert LowerChar(']') != LowerChar('D');
    }
  }

  /** No quality word matches at index `i` when none of `toks` is a prefix there. */
  lemma {:induction false} NoPrefixNoWord(s: string, i: nat, toks: seq<string>)
    requires i < |s|
    requires forall k :: 0 <= k < |toks| ==> toks[k] != [] && !StartsWithCI(s[i..], toks[k])
    ensures QualityWordLen(s, i, toks) == 0
    decreases |toks|
  {
    if toks != [] && IsBoundary(s, i) {
      assert forall k :: 1 <= k < |toks| ==> toks[1..][k - 1] == toks[k];
      NoPrefixNoWord(s, i, toks[1..]);
    }
  }

  lemma HNoWord(s: string)
    requires s == "[H]D"
    ensures QualityWordLen(s, 1, MovieQualityWords) == 0
  {
    assert s[1..] == "H]D";
    HNoPrefix();
    NoPrefixNoWord(s, 1, MovieQualityWords);
  }

  lemma HBracketWordsTail(s: string)
    requires s == "[H]D"
    ensures StripQualityWords(s, 1) == "H]D"
  {
    HNoWord(s);
    QualityWordStep(s, 1);
    HBracketWordsEnd(s);
  }

  lemma HBracketWordsEnd(s: string)
    requires s == "[H]D"
    ensures StripQualityWords(s, 2) == "]D"
  {
    assert LowerChar(s[2]) == ']' && LowerChar(s[3]) == 'd';
    NoMovieWordAt(s, 2);
    NoMovieWordAt(s, 3);
    QualityWordStep(s, 2);
    QualityWordStep(s, 3);
  }

  lemma HBracketWords()
    ensures StripQualityWords("[H]D", 0) == "[H]D"
  {
    var s := "[H]D";
    assert !IsBoundary(s, 0);
    QualityWordStep(s, 0);
    HBracketWordsTail(s);
  }

  lemma HBracketDeleted()
    ensures Trim(DeleteBrackets("[H]D")) == "HD"
  {
    HBracketUnbracketed();
    assert IsTrimmed("HD");
    TrimTrimmed("HD");
  }

  lemma HBracketUnbracketed()
    ensures DeleteBrackets("[H]D") == "HD"
  {
  }

  lemma HBracketBase()
    ensures BaseMovieName("[H]D") == "HD"
  {
    assert IsTrimmed("[H]D");
    TrimTrimmed("[H]D");
    HBracketAnnotations();
    HBracketWords();
    HBracketDeleted();
    MovieStages("[H]D", "[H]D", "[H]D", "HD");
  }

  lemma HDWords(s: string)
    requires |s| == 2 && s[0] == 'H' && s[1] == 'D'
    ensures StripQualityWords(s, 0) == []
  {
    assert MovieQualityWords[0] == "4K" && MovieQualityWords[1] == "HDCAM" && MovieQualityWords[2] == "HD";
    assert s[0..][..2] == s;
    assert s == "HD";
    EqualsCIRefl("HD");
    assert QualityWordLen(s, 0, MovieQualityWords[2..]) == 2;
    assert QualityWordLen(s, 0, MovieQualityWords) == 2;
    QualityWordSkip(s, 0, 2);
  }

  lemma HDBase(s: string)
    requires |s| == 2 && s[0] == 'H' && s[1] == 'D'
    ensures BaseMovieName(s) == []
  {
    assert IsTrimmed(s);
    assert Trim(StripAnnotations(s)) == s by {
      assert NoOpenBracket(s[1..]);
      StripAnnotationsNoBracket(s);
      TrimTrimmed(s);
    }
    assert Trim(StripQualityWords(s, 0)) == [] by {
      HDWords(s);
    }
    MovieStages(s, s, [], []);
  }

  /** `getBaseMovieName` is not idempotent: a second application of it to the
      result for "[H]D" still changes it. */
  lemma MovieBaseNotIdempotent()
    ensures BaseMovieName("[H]D") == "HD"
    ensures BaseMovieName(BaseMovieName("[H]D")) == []
  {
    HBracketBase();
    var r := BaseMovieName("[H]D");
    assert r[0] == 'H' && r[1] == 'D';
    HDBase(r);
  }

  // ---------------------------------------------------------------------------
  // Channels: "X [ALT] HD" -> "X [ALT]" -> "X"
  // ---------------------------------------------------------------------------

  lemma FirstSkip(s: string, i: nat)
    requires i < |s| && !QualitySuffixAt(s, i)
    ensures FirstQualitySuffix(s, i) == FirstQualitySuffix(s, i + 1)
  {
  }

  lemma NoSuffixAtWord(s: string, j: nat)
    requires j < |s| && !IsSpace(s[j])
    ensures !QualitySuffixAt(s, j)
  {
    assert s[j..][0] == s[j];
  }

  /** `t` equals none of `toks` up to case. */
  lemma {:induction false} NotAnyToken(t: string, toks: seq<string>)
    requires forall k :: 0 <= k < |toks| ==> !EqualsCI(t, toks[k])
    ensures !EqualsAnyCI(t, toks)
    decreases |toks|
  {
    if toks != [] {
      assert forall k :: 1 <= k < |toks| ==> toks[1..][k - 1] == toks[k];
      NotAnyToken(t, toks[1..]);
    }
  }

  /** `t` equals the token at index `k` up to case. */
  lemma {:induction false} AnyToken(t: string, toks: seq<string>, k: nat)
    requires k < |toks| && EqualsCI(t, toks[k])
    ensures EqualsAnyCI(t, toks)
    decreases k
  {
    if k > 0 {
      assert toks[1..][k - 1] == toks[k];
      AnyToken(t, toks[1..], k - 1);
    }
  }

  /** No quality token starts with a bracket. */
  lemma BracketNotToken(u: string)
    requires |u| >= 1 && u[0] == '['
    ensures forall k :: 0 <= k < |ChannelQualityTokens| ==> !EqualsCI(u, ChannelQualityTokens[k])
  {
    forall k | 0 <= k < |ChannelQualityTokens|
      ensures !EqualsCI(u, ChannelQualityTokens[k])
    {
      var t := ChannelQualityTokens[k];
      assert LowerChar(t[0]) != '[';
    }
  }

  /** Text opening with a bracket is neither a quality token nor a quality tail. */
  lemma AltTail(u: string)
    requires |u| >= 1 && u[0] == '['
    ensures !EqualsAnyCI(u, ChannelQualityTokens) && !IsQualityTail(u)
  {
    assert !IsSpace(u[0]);
    BracketNotToken(u);
    NotAnyToken(u, ChannelQualityTokens);
  }

  lemma AltNoSuffix(s: string)
    requires |s| >= 2 && (s[1..] == " [ALT] HD" || s[1..] == " [ALT]")
    ensures !QualitySuffixAt(s, 1)
  {
    var t := s[1..];
    assert t[1..][0] == '[';
    AltTail(t[1..]);
  }

  /** " HD" at the end of `s` is a quality suffix. */
  lemma HDSuffix(s: string)
    requires |s| >= 3 && s[|s| - 3..] == " HD"
    ensures QualitySuffixAt(s, |s| - 3)
  {
    var t := s[|s| - 3..];
    assert t[1..] == "HD" && ChannelQualityTokens[5] == "HD";
    EqualsCIRefl("HD");
    AnyToken(t[1..], ChannelQualityTokens, 5);
  }

  lemma {:induction false} NoSuffixBefore(s: string, i: nat, r: nat)
    requires i <= r <= |s|
    requires forall j :: i <= j < r ==> !QualitySuffixAt(s, j)
    ensures FirstQualitySuffix(s, i) == FirstQualitySuffix(s, r)
    decreases r - i
  {
    if i < r {
      FirstSkip(s, i);
      NoSuffixBefore(s, i + 1, r);
    }
  }

  lemma AltChars(s: string)
    requires |s| >= 7 && s[..7] == "X [ALT]"
    ensures forall j :: 0 <= j < 7 && j != 1 ==> !IsSpace(s[j])
  {
    assert forall j :: 0 <= j < 7 ==> s[j] == "X [ALT]"[j];
  }

  /** No index before 7 of "X [ALT]..." starts a suffix. */
  lemma AltPrefixNoSuffix(s: string)
    requires |s| >= 7 && s[..7] == "X [ALT]" && (s[1..] == " [ALT] HD" || s[1..] == " [ALT]")
    ensures FirstQualitySuffix(s, 0) == FirstQualitySuffix(s, 7)
  {
    AltChars(s);
    forall j | 0 <= j < 7 && j != 1
      ensures !QualitySuffixAt(s, j)
    {
      NoSuffixAtWord(s, j);
    }
    AltNoSuffix(s);
    NoSuffixBefore(s, 0, 7);
  }

  lemma AltKept()
    ensures StripQualities("X [ALT]") == "X [ALT]"
  {
    var s := "X [ALT]";
    assert s[..7] == "X [ALT]" && s[1..] == " [ALT]";
    AltPrefixNoSuffix(s);
  }

  lemma AltHDCut()
    ensures StripQualities("X [ALT] HD") == "X [ALT]"
  {
    var s := "X [ALT] HD";
    assert IsTrimmed("X [ALT]");
    TrimTrimmed("X [ALT]");
    assert s[..7] == "X [ALT]" && s[1..] == " [ALT] HD" && s[7..] == " HD";
    AltPrefixNoSuffix(s);
    HDSuffix(s);
    AltKept();
  }

  /** The stages of `getBaseChannelName`, given their intermediate results. */
  lemma ChannelStages(name: string, u: string, r: string)
    requires name != [] && IsTrimmed(name)
    requires Trim(DropAltMarker(name)) == u
    requires StripQualities(u) == r
    ensures BaseChannelName(name) == r
  {
    TrimTrimmed(name);
  }

  lemma AltHDMarker()
    ensures Trim(DropAltMarker("X [ALT] HD")) == "X [ALT] HD"
  {
    var s := "X [ALT] HD";
    assert IsTrimmed(s);
    TrimTrimmed(s);
    assert s[5..][0] == 'T';
    assert !EqualsCI(s[5..], "[ALT]");
  }

  lemma AltMarker()
    ensures Trim(DropAltMarker("X [ALT]")) == "X"
  {
    var s := "X [ALT]";
    assert s[2..] == "[ALT]";
    EqualsCIRefl("[ALT]");
    assert DropAltMarker(s) == "X ";
    var t := "X ";
    TrimStartNoop(t);
    assert t[..1] == "X";
    assert TrimEnd(t) == TrimEnd("X");
  }

  lemma XKept()
    ensures StripQualities("X") == "X"
  {
    var s := "X";
    assert !QualitySuffixAt(s, 0);
    FirstSkip(s, 0);
  }

  /** `getBaseChannelName` is not idempotent: the `[ALT]` marker is only looked for
      before the quality tokens are stripped. */
  lemma ChannelBaseNotIdempotent()
    ensures BaseChannelName("X [ALT] HD") == "X [ALT]"
    ensures BaseChannelName(BaseChannelName("X [ALT] HD")) == "X"
  {
    assert IsTrimmed("X [ALT] HD") && IsTrimmed("X [ALT]");
    AltHDMarker();
    AltHDCut();
    ChannelStages("X [ALT] HD", "X [ALT] HD", "X [ALT]");
    AltMarker();
    XKept();
    ChannelStages("X [ALT]", "X", "X");
  }

  /** The alternative "X [ALT] HD" of the channel "X [ALT]" is labelled "HD". */
  lemma AltHDLabel()
    ensures VariantLabel(Tv, "X [ALT] HD") == "HD"
  {
    var b, e := "X [ALT]", "HD";
    assert IsTrimmed("X [ALT] HD") && IsTrimmed(e);
    AltHDMarker();
    AltHDCut();
    ChannelStages("X [ALT] HD", "X [ALT] HD", b);
    AltHDSplit();
    ChannelLabelIsExtra(Tv, b, e);
  }

  lemma AltHDSplit()
    ensures "X [ALT]" + " " + "HD" == "X [ALT] HD"
  {
    var s := "X [ALT]" + " " + "HD";
    assert forall i :: 0 <= i < 10 ==> s[i] == "X [ALT] HD"[i];
  }

  // ---------------------------------------------------------------------------
  // Names without decorations
  // ---------------------------------------------------------------------------

  lemma {:induction false} NoBracketNoOpen(s: string)
    requires forall k :: 0 <= k < |s| ==> !IsBracket(s[k])
    ensures NoOpenBracket(s)
    decreases |s|
  {
    if s != [] {
      assert forall k :: 0 <= k < |s| - 1 ==> s[1..][k] == s[k + 1];
      NoBracketNoOpen(s[1..]);
    }
  }

  /** A trimmed name with no bracket or parenthesis (so no annotation) and no
      quality word anywhere is its own base name. */
  lemma MovieBaseFixed(name: string)
    requires var t := Trim(name);
      (forall k :: 0 <= k < |t| ==> !IsBracket(t[k])) && Kept(t, 0, |t|)
    ensures BaseMovieName(name) == Trim(name)
  {
    if name != [] {
      var t := Trim(name);
      assert BaseMovieName(name)
          == Trim(DeleteBrackets(Trim(StripQualityWords(Trim(StripAnnotations(t)), 0))));
      if t != [] {
        AnnotationsFixed(t);
        WordsFixed(t);
        BracketsFixed(t);
        MovieStages(t, t, t, t);
      }
    }
  }

  lemma AnnotationsFixed(t: string)
    requires IsTrimmed(t) && forall k :: 0 <= k < |t| ==> !IsBracket(t[k])
    ensures Trim(StripAnnotations(t)) == t
  {
    NoBracketNoOpen(t);
    StripAnnotationsNoBracket(t);
    TrimTrimmed(t);
  }

  lemma WordsFixed(t: string)
    requires IsTrimmed(t) && Kept(t, 0, |t|)
    ensures Trim(StripQualityWords(t, 0)) == t
  {
    WordsKept(t);
    TrimTrimmed(t);
  }

  lemma BracketsFixed(t: string)
    requires IsTrimmed(t) && forall k :: 0 <= k < |t| ==> !IsBracket(t[k])
    ensures Trim(DeleteBrackets(t)) == t
  {
    DeleteBracketsNone(t);
    TrimTrimmed(t);
  }

  lemma WordsKept(t: string)
    requires Kept(t, 0, |t|)
    ensures StripQualityWords(t, 0) == t
  {
    StripQualityWordsCopies(t, 0, |t|);
    assert t[0..|t|] == t && StripQualityWords(t, |t|) == [];
  }
}
