/** The nickname moderation of the list updater: the tag-stripping pattern that
    removes Styled Nicknames formatting tags, and the "naughty" pattern that
    flags code blocks, links and Discord invites even when they are spread out
    with filler characters. Both regular expressions are written out here as
    recursive predicates over `seq<char>` that follow the regex engine's
    leftmost-first search. */
module Moderation {

  import opened Wrappers
  import opened Text

  /** The nickname a flagged player is given, and shown with, instead. */
  const NAUGHTY_NICKNAME: string := "I MADE BOOL SAD"

  // ---------------------------------------------------------------------------
  // Tag stripping: </?(?:color|c|...|reset)(?::[^>]*)?>

  /** The alternatives of the tag pattern, in the order they are written
      (`dark_green` appears twice, `dark_red` not at all). */
  const TAG_WORDS: seq<string> := [
    "color", "c", "yellow", "dark_blue", "dark_purple", "gold", "red", "aqua", "gray",
    "light_purple", "white", "dark_gray", "green", "dark_green", "blue", "dark_aqua",
    "dark_green", "black", "gradient", "gr", "rainbow", "rb", "reset"]

  /** Index of the first `c` in `s` at or after `k`. */
  function FirstFrom(s: string, k: nat, c: char): (r: Option<nat>)
    ensures r.Some? ==> k <= r.value < |s| && s[r.value] == c
    ensures r.Some? ==> forall i :: k <= i < r.value ==> s[i] != c
    ensures r.None? ==> forall i :: k <= i < |s| ==> s[i] != c
    decreases |s| - k
  {
    if k >= |s| then None
    else if s[k] == c then Some(k)
    else FirstFrom(s, k + 1, c)
  }

  /** `e` is where a tag can end after a tag word ending at `k`: either `>` right
      at `k`, or `:` at `k` followed by a run of non-`>` characters and then `>`
      (the end is just past that `>`). */
  predicate IsTagEnd(s: string, k: nat, e: nat) {
    k < e <= |s| && s[e - 1] == '>' &&
    (e == k + 1 || (s[k] == ':' && forall i :: k < i < e - 1 ==> s[i] != '>'))
  }

  /** The end of the tag after a tag word ending at `k`: the one place a tag can
      end there, since `[^>]*` cannot run past the first `>`. */
  function TagEnd(s: string, k: nat): (r: Option<nat>)
    ensures r.Some? ==> k < r.value <= |s| && s[r.value - 1] == '>'
    ensures forall e: nat :: IsTagEnd(s, k, e) <==> r == Some(e)
  {
    if k < |s| && s[k] == '>' then Some(k + 1)
    else if k < |s| && s[k] == ':' then
      match FirstFrom(s, k + 1, '>')
      case Some(e) => Some(e + 1)
      case None => None
    else None
  }

  /** The first word of `words` that appears at `j` and is followed by a valid tag end. */
  function TagWordFrom(s: string, j: nat, words: seq<string>): (r: Option<nat>)
    requires j <= |s|
    ensures r.Some? ==> j < r.value <= |s| && s[r.value - 1] == '>'
  {
    if words == [] then None
    else if WordFits(s, j, words[0]) then TagEnd(s, j + |words[0]|)
    else TagWordFrom(s, j, words[1..])
  }

  /** Word `w` appears at `j` and is followed by a valid tag end. */
  predicate WordFits(s: string, j: nat, w: string)
    requires j <= |s|
  {
    StartsWith(s[j..], w) && TagEnd(s, j + |w|).Some?
  }

  /** What the search finds is the tag end of a word that fits at `j`. */
  lemma {:induction false} TagWordWitness(s: string, j: nat, words: seq<string>)
    requires j <= |s| && TagWordFrom(s, j, words).Some?
    ensures exists w :: w in words && WordFits(s, j, w) && TagEnd(s, j + |w|) == TagWordFrom(s, j, words)
    decreases |words|
  {
    if !WordFits(s, j, words[0]) {
      TagWordWitness(s, j, words[1..]);
      var w :| w in words[1..] && WordFits(s, j, w) && TagEnd(s, j + |w|) == TagWordFrom(s, j, words[1..]);
      assert w in words;
    }
  }

  /** The search finds nothing only when no word fits at `j`. */
  lemma {:induction false} TagWordNone(s: string, j: nat, words: seq<string>)
    requires j <= |s| && TagWordFrom(s, j, words).None?
    ensures forall i :: 0 <= i < |words| ==> !WordFits(s, j, words[i])
    decreases |words|
  {
    if words != [] {
      TagWordNone(s, j, words[1..]);
      forall i | 0 < i < |words| ensures !WordFits(s, j, words[i]) {
        assert words[i] == words[1..][i - 1];
      }
    }
  }

  /** The length of the tag that starts `s`, if one does. */
  function TagAt(s: string): (r: Option<nat>)
    ensures r.Some? ==> 3 <= r.value <= |s| && s[0] == '<' && s[r.value - 1] == '>'
    ensures s == [] || s[0] != '<' ==> r.None?
  {
    if s == [] || s[0] != '<' then None else TagAfterAngle(s)
  }

  /** Where the tag word starts after a leading `<`: the optional `/` is taken
      when present, since no word starts with `/`. */
  function WordStart(s: string): (j: nat)
    ensures 1 <= j <= 2 && (j == 2 <==> |s| >= 2 && s[1] == '/')
  {
    if |s| >= 2 && s[1] == '/' then 2 else 1
  }

  /** The tag after a leading `<`: a tag word and a tag end, so at least three
      characters, since no tag word is empty. */
  function TagAfterAngle(s: string): (r: Option<nat>)
    requires s != [] && s[0] == '<'
    ensures r.Some? ==> 3 <= r.value <= |s| && s[r.value - 1] == '>'
  {
    var r := TagWordFrom(s, WordStart(s), TAG_WORDS);
    if r.Some? then
      TagWordsStartLower();
      FoundPastWord(s, WordStart(s), TAG_WORDS);
      r
    else r
  }

  /** A search over non-empty words ends at least two characters past `j`: a
      word, then `>`. */
  lemma FoundPastWord(s: string, j: nat, words: seq<string>)
    requires j <= |s| && TagWordFrom(s, j, words).Some?
    requires forall k :: 0 <= k < |words| ==> words[k] != []
    ensures TagWordFrom(s, j, words).value >= j + 2
  {
    TagWordWitness(s, j, words);
  }

  /** No tag starts anywhere in `s`. */
  predicate TagFree(s: string) {
    forall i :: 0 <= i < |s| ==> TagAt(s[i..]).None?
  }

  /** `replace_all(nick, "")`: scan left to right, delete each tag found and resume
      right after it. */
  function StripTags(s: string): (r: string)
    ensures |r| <= |s|
    decreases |s|
  {
    if s == [] then []
    else
      match TagAt(s)
      case Some(n) => StripTags(s[n..])
      case None => [s[0]] + StripTags(s[1..])
  }

  /** Stripping leaves a tag-free nickname alone. */
  lemma {:induction false} StripTagFree(s: string)
    requires TagFree(s)
    ensures StripTags(s) == s
    decreases |s|
  {
    if s != [] {
      assert s[0..] == s;
      assert TagFree(s[1..]) by {
        forall i | 0 <= i < |s[1..]| ensures TagAt(s[1..][i..]).None? {
          assert s[1..][i..] == s[i + 1..];
        }
      }
      StripTagFree(s[1..]);
      assert s == [s[0]] + s[1..];
    }
  }

  /** Stripping a nickname that holds a tag makes it strictly shorter. */
  lemma {:induction false} StripShortens(s: string)
    requires !TagFree(s)
    ensures |StripTags(s)| < |s|
    decreases |s|
  {
    var i :| 0 <= i < |s| && TagAt(s[i..]).Some?;
    if TagAt(s).None? {
      assert i > 0 by { assert s[0..] == s; }
      assert s[1..][i - 1..] == s[i..];
      StripShortens(s[1..]);
    }
  }

  /** Stripping changes a nickname exactly when a tag occurs in it. */
  lemma StripUnchangedIff(s: string)
    ensures StripTags(s) == s <==> TagFree(s)
  {
    if TagFree(s) {
      StripTagFree(s);
    } else {
      StripShortens(s);
    }
  }

  /** A nickname without `<` holds no tag. */
  lemma NoAngleTagFree(s: string)
    requires forall i :: 0 <= i < |s| ==> s[i] != '<'
    ensures TagFree(s)
  {
    forall i | 0 <= i < |s| ensures TagAt(s[i..]).None? {
      assert s[i..][0] == s[i];
    }
  }

  /** A nickname without `<` is unchanged. */
  lemma StripWithoutAngle(s: string)
    requires forall i :: 0 <= i < |s| ==> s[i] != '<'
    ensures StripTags(s) == s
  {
    NoAngleTagFree(s);
    StripTagFree(s);
  }

  /** If no word starts at `j`, the search finds nothing. */
  lemma {:induction false} TagWordAbsent(s: string, j: nat, words: seq<string>)
    requires j < |s|
    requires forall k :: 0 <= k < |words| ==> words[k] != [] && words[k][0] != s[j]
    ensures TagWordFrom(s, j, words).None?
    decreases |words|
  {
    if words != [] {
      TagWordAbsent(s, j, words[1..]);
    }
  }

  /** Every tag word starts with a lower-case letter. */
  lemma TagWordsStartLower()
    ensures forall k :: 0 <= k < |TAG_WORDS| ==> TAG_WORDS[k] != [] && 'a' <= TAG_WORDS[k][0] <= 'z'
  {
  }

  /** A character a tag word can hold. */
  predicate WordChar(c: char) {
    'a' <= c <= 'z' || c == '_'
  }

  /** Every word of `words` is made of word characters. */
  predicate WordsOfWordChars(words: seq<string>) {
    forall k, i :: 0 <= k < |words| && 0 <= i < |words[k]| ==> WordChar(words[k][i])
  }

  /** Tag words are made of lower-case letters and `_` only. */
  lemma TagWordsChars()
    ensures WordsOfWordChars(TAG_WORDS)
  {
  }

  /** The tag language itself: `s` starts with a tag `n` characters long when it
      reads `<`, an optional `/`, one of the tag words and a tag end at `n`. */
  ghost predicate TagSpan(s: string, n: nat) {
    exists j: nat, w :: 1 <= j <= 2 && j <= |s| && s[0] == '<' && (j == 2 ==> s[1] == '/')
      && w in TAG_WORDS && StartsWith(s[j..], w) && IsTagEnd(s, j + |w|, n)
  }

  /** Two words that both fit at `j` are the same length: were one shorter, the
      character after it would be a letter or `_`, where a tag end needs `>` or
      `:`. */
  lemma FitsSameLength(s: string, j: nat, words: seq<string>, v: string, w: string)
    requires j <= |s| && WordsOfWordChars(words) && v in words && w in words
    requires WordFits(s, j, v) && WordFits(s, j, w)
    ensures |v| == |w|
  {
  }

  /** A tag word never starts at a `/`. */
  lemma NoWordAtSlash(s: string, w: string)
    requires |s| >= 2 && s[1] == '/' && w in TAG_WORDS
    ensures !StartsWith(s[1..], w)
  {
    TagWordsStartLower();
  }

  /** A tag the search finds belongs to the tag language. */
  lemma TagAtSpan(s: string, n: nat)
    requires TagAt(s) == Some(n)
    ensures TagSpan(s, n)
  {
    var j := WordStart(s);
    TagWordWitness(s, j, TAG_WORDS);
    var w :| w in TAG_WORDS && WordFits(s, j, w) && TagEnd(s, j + |w|) == Some(n);
    assert IsTagEnd(s, j + |w|, n);
  }

  /** When `w` fits at `j` with its tag ending at `n`, the search over words of
      word characters ends at `n` too, whichever word it takes. */
  lemma {:induction false} FitsFound(s: string, j: nat, words: seq<string>, w: string, n: nat)
    requires j <= |s| && WordsOfWordChars(words) && w in words
    requires StartsWith(s[j..], w) && IsTagEnd(s, j + |w|, n)
    ensures TagWordFrom(s, j, words) == Some(n)
  {
    var r := TagWordFrom(s, j, words);
    var k :| 0 <= k < |words| && words[k] == w;
    if r.None? {
      TagWordNone(s, j, words);
      assert false;
    }
    TagWordWitness(s, j, words);
    var v :| v in words && WordFits(s, j, v) && TagEnd(s, j + |v|) == r;
    FitsSameLength(s, j, words, v, w);
  }

  /** The search after a leading `<` is the search for a tag word at `WordStart`. */
  lemma TagAtWord(s: string)
    requires s != [] && s[0] == '<'
    ensures TagAt(s) == TagWordFrom(s, WordStart(s), TAG_WORDS)
  {
  }

  /** A tag of the tag language is what the search finds. */
  lemma SpanTagAt(s: string, n: nat)
    requires TagSpan(s, n)
    ensures TagAt(s) == Some(n)
  {
    var j: nat, w :| 1 <= j <= 2 && j <= |s| && s[0] == '<' && (j == 2 ==> s[1] == '/')
      && w in TAG_WORDS && StartsWith(s[j..], w) && IsTagEnd(s, j + |w|, n);
    if j == 1 && |s| >= 2 && s[1] == '/' {
      NoWordAtSlash(s, w);
    }
    assert j == WordStart(s);
    TagWordsChars();
    FitsFound(s, j, TAG_WORDS, w, n);
    TagAtWord(s);
  }

  /** The tag search agrees with the tag language: it finds a tag of length `n`
      exactly when `s` starts with a tag of length `n`. */
  lemma TagAtIff(s: string, n: nat)
    ensures TagAt(s) == Some(n) <==> TagSpan(s, n)
  {
    if TagAt(s) == Some(n) {
      TagAtSpan(s, n);
    }
    if TagSpan(s, n) {
      SpanTagAt(s, n);
    }
  }

  /** A nickname is tag-free exactly when no tag of the tag language starts
      anywhere in it. */
  lemma TagFreeIff(s: string)
    ensures TagFree(s) <==> forall i, n: nat :: 0 <= i < |s| ==> !TagSpan(s[i..], n)
  {
    if TagFree(s) {
      forall i, n: nat | 0 <= i < |s| ensures !TagSpan(s[i..], n) {
        if TagSpan(s[i..], n) {
          SpanTagAt(s[i..], n);
        }
      }
    } else {
      var i :| 0 <= i < |s| && TagAt(s[i..]).Some?;
      TagAtSpan(s[i..], TagAt(s[i..]).value);
    }
  }

  /** When no earlier word appears at `j` and word `k` does, with a valid tag end,
      the search ends where that word's tag ends. */
  lemma {:induction false} TagWordFirst(s: string, j: nat, words: seq<string>, k: nat)
    requires j <= |s| && k < |words|
    requires StartsWith(s[j..], words[k]) && TagEnd(s, j + |words[k]|).Some?
    requires forall i :: 0 <= i < k ==> !StartsWith(s[j..], words[i])
    ensures TagWordFrom(s, j, words) == TagEnd(s, j + |words[k]|)
    decreases k
  {
    if k > 0 {
      assert !StartsWith(s[j..], words[0]);
      assert words[1..][k - 1] == words[k];
      TagWordFirst(s, j, words[1..], k - 1);
    }
  }

  /** A word that differs from `s` at some position is not a prefix of it. */
  lemma DiffersAt(s: string, w: string, p: nat)
    requires p < |w| && p < |s| && s[p] != w[p]
    ensures !StartsWith(s, w)
  {
    if |w| <= |s| {
      assert s[..|w|][p] == s[p];
    }
  }

  /** A tag at the start is deleted and the scan resumes after it. */
  lemma StripAfterTag(s: string, n: nat)
    requires TagAt(s) == Some(n)
    ensures StripTags(s) == StripTags(s[n..])
  {
  }

  /** The words before `rainbow` either start with another letter or, like `red`,
      differ from it in the second. */
  lemma RainbowFirstWithRa()
    ensures TAG_WORDS[20] == "rainbow"
    ensures forall i :: 0 <= i < 20 ==>
      TAG_WORDS[i] != [] && (TAG_WORDS[i][0] != 'r' || (|TAG_WORDS[i]| >= 2 && TAG_WORDS[i][1] != 'a'))
  {
  }

  /** `<rainbow>` at the start of a nickname is a tag of length 9. */
  lemma RainbowTag(t: string)
    requires |t| >= 9 && t[..9] == "<rainbow>"
    ensures TagAt(t) == Some(9)
  {
    RainbowFirstWithRa();
    assert t[0] == '<' && t[1] == 'r' && t[2] == 'a' && t[8] == '>';
    var u := t[1..];
    forall i | 0 <= i < 20 ensures !StartsWith(u, TAG_WORDS[i]) {
      if TAG_WORDS[i][0] != 'r' { DiffersAt(u, TAG_WORDS[i], 0); } else { DiffersAt(u, TAG_WORDS[i], 1); }
    }
    assert u[..7] == "rainbow";
    assert TagEnd(t, 8) == Some(9);
    TagWordFirst(t, 1, TAG_WORDS, 20);
  }

  /** The nickname of the bundled example: the rainbow tag goes, the text stays. */
  lemma StripRainbow()
    ensures StripTags("<rainbow>test") == "test"
  {
    var s := "<rainbow>test";
    ExampleTexts();
    RainbowTag(s);
    StripAfterTag(s, 9);
    StripWithoutAngle("test");
  }

  /** A `<` followed by another `<` starts no tag. */
  lemma DoubleAngleNoTag(t: string)
    requires |t| >= 2 && t[0] == '<' && t[1] == '<'
    ensures TagAt(t) == None
  {
    TagWordsStartLower();
    TagWordAbsent(t, 1, TAG_WORDS);
  }

  /** A `<` right before another `<` is kept, and the scan goes on from the second. */
  lemma StripKeepsAngle(t: string)
    requires t != [] && t[0] == '<'
    ensures StripTags(['<'] + t) == ['<'] + StripTags(t)
  {
    var s := ['<'] + t;
    assert s[1..] == t;
    DoubleAngleNoTag(s);
  }

  /** The words before `red` start with other letters. */
  lemma RedFirstWithR()
    ensures TAG_WORDS[6] == "red"
    ensures forall i :: 0 <= i < 6 ==> TAG_WORDS[i] != [] && TAG_WORDS[i][0] != 'r'
  {
  }

  /** `<red>` at the start of a nickname is a tag of length 5. */
  lemma RedTag(t: string)
    requires |t| >= 5 && t[..5] == "<red>"
    ensures TagAt(t) == Some(5)
  {
    RedFirstWithR();
    assert t[1] == 'r' && t[4] == '>';
    var u := t[1..];
    forall i | 0 <= i < 6 ensures !StartsWith(u, TAG_WORDS[i]) {
      DiffersAt(u, TAG_WORDS[i], 0);
    }
    assert u[..3] == "red";
    assert TagEnd(t, 4) == Some(5);
    TagWordFirst(t, 1, TAG_WORDS, 6);
  }

  /** The example nicknames, taken apart. */
  lemma ExampleTexts()
    ensures |"<rainbow>test"| >= 9 && "<rainbow>test"[..9] == "<rainbow>" && "<rainbow>test"[9..] == "test"
    ensures forall i :: 0 <= i < |"test"| ==> "test"[i] != '<'
    ensures "<<red>red>" == ['<'] + "<red>red>"
    ensures "<red>red>"[..5] == "<red>" && "<red>red>"[5..] == "red>"
    ensures forall i :: 0 <= i < |"red>"| ==> "red>"[i] != '<'
    ensures "<red>"[..5] == "<red>" && "<red>"[5..] == ""
  {
  }

  /** `<<red>red>` strips to `<red>`: the first `<` starts no tag, the second starts
      `<red>`. */
  lemma StripNested()
    ensures StripTags("<<red>red>") == "<red>"
  {
    ExampleTexts();
    StripKeepsAngle("<red>red>");
    RedTag("<red>red>");
    StripAfterTag("<red>red>", 5);
    StripWithoutAngle("red>");
  }

  /** `<red>` strips to nothing. */
  lemma StripRed()
    ensures StripTags("<red>") == ""
  {
    ExampleTexts();
    RedTag("<red>");
    StripAfterTag("<red>", 5);
  }

  /** One pass is not enough: a tag split around another reappears once the inner
      one is removed, so stripping is not idempotent. */
  lemma StripNotIdempotent()
    ensures StripTags(StripTags("<<red>red>")) != StripTags("<<red>red>")
  {
    StripNested();
    StripRed();
  }

  // ---------------------------------------------------------------------------
  // The naughty pattern: each forbidden word with runs of [^\w!-_a-~] allowed
  // between consecutive characters.

  /** The filler class `[^\w!-_a-~]`: not a word character, not in `!`..`_`, not in
      `a`..`~`. Among ASCII characters that leaves the control characters, space,
      backtick and DEL; `.`, `-` and `/` are not filler. */
  predicate IsNoise(c: char) {
    !(IsWordChar(c) || ('!' <= c <= '_') || ('a' <= c <= '~'))
  }

  /** `s` starts with the characters of `pat`, with filler runs between them. */
  predicate MatchHere(s: string, pat: string)
    requires pat != []
    decreases |s|, 1
  {
    s != [] && s[0] == pat[0] && (|pat| == 1 || GapThen(s[1..], pat[1..]))
  }

  /** `s` starts with a filler run and then a match of `pat`. */
  predicate GapThen(s: string, pat: string)
    requires pat != []
    decreases |s|, 2
  {
    MatchHere(s, pat) || (s != [] && IsNoise(s[0]) && GapThen(s[1..], pat))
  }

  /** A match of `pat` starts somewhere in `s`. */
  predicate Occurs(s: string, pat: string)
    requires pat != []
    decreases |s|
  {
    MatchHere(s, pat) || (s != [] && Occurs(s[1..], pat))
  }

  /** The forbidden words; `s?` in the pattern gives both `http://` and `https://`. */
  const FORBIDDEN: seq<string> := ["```", "http://", "https://", "discord.gg"]

  /** `NAUGHTY_REGEX.is_match(nick)`. */
  predicate Naughty(s: string) {
    Occurs(s, "```") || Occurs(s, "http://") || Occurs(s, "https://") || Occurs(s, "discord.gg")
  }

  // What a match looks like: the pattern's characters with filler between them.

  predicate AllNoise(s: string) {
    forall i :: 0 <= i < |s| ==> IsNoise(s[i])
  }

  /** One filler run per gap between consecutive pattern characters. */
  predicate NoiseGaps(pat: string, gaps: seq<string>) {
    |pat| >= 1 && |gaps| == |pat| - 1 && forall i :: 0 <= i < |gaps| ==> AllNoise(gaps[i])
  }

  /** The pattern spread out by the gaps. */
  function Spread(pat: string, gaps: seq<string>): string
    requires NoiseGaps(pat, gaps)
    decreases |pat|
  {
    if |pat| == 1 then pat else [pat[0]] + gaps[0] + Spread(pat[1..], gaps[1..])
  }

  /** A filler run followed by a match is a gap-then-match. */
  lemma {:induction false} NoiseThenMatch(g: string, t: string, pat: string)
    requires pat != [] && AllNoise(g) && MatchHere(t, pat)
    ensures GapThen(g + t, pat)
    decreases |g|
  {
    if g == [] {
      assert g + t == t;
    } else {
      assert (g + t)[1..] == g[1..] + t;
      NoiseThenMatch(g[1..], t, pat);
    }
  }

  /** Completeness: every spread-out pattern followed by anything matches. */
  lemma {:induction false} SpreadMatches(pat: string, gaps: seq<string>, rest: string)
    requires NoiseGaps(pat, gaps)
    ensures MatchHere(Spread(pat, gaps) + rest, pat)
    decreases |pat|
  {
    if |pat| > 1 {
      var tail := Spread(pat[1..], gaps[1..]) + rest;
      assert NoiseGaps(pat[1..], gaps[1..]);
      SpreadMatches(pat[1..], gaps[1..], rest);
      NoiseThenMatch(gaps[0], tail, pat[1..]);
      assert (Spread(pat, gaps) + rest)[1..] == gaps[0] + tail;
    }
  }

  /** Soundness, the filler part: a gap-then-match splits into a filler run and a match. */
  lemma {:induction false} GapThenSplits(s: string, pat: string)
    requires pat != [] && GapThen(s, pat)
    ensures exists k :: 0 <= k <= |s| && AllNoise(s[..k]) && MatchHere(s[k..], pat)
    decreases |s|
  {
    if MatchHere(s, pat) {
      assert s[..0] == [] && s[0..] == s;
    } else {
      GapThenSplits(s[1..], pat);
      var k :| 0 <= k <= |s[1..]| && AllNoise(s[1..][..k]) && MatchHere(s[1..][k..], pat);
      assert s[..k + 1] == [s[0]] + s[1..][..k];
      assert s[k + 1..] == s[1..][k..];
    }
  }

  /** Spreading with one more gap in front puts that gap after the first character. */
  lemma SpreadCons(pat: string, g: string, gs: seq<string>)
    requires |pat| >= 2 && AllNoise(g) && NoiseGaps(pat[1..], gs)
    ensures NoiseGaps(pat, [g] + gs)
    ensures Spread(pat, [g] + gs) == [pat[0]] + g + Spread(pat[1..], gs)
  {
    var gaps := [g] + gs;
    assert gaps[1..] == gs;
    forall i | 0 <= i < |gaps| ensures AllNoise(gaps[i]) {
      if i > 0 { assert gaps[i] == gs[i - 1]; }
    }
  }

  /** A text starts with its first character, its next `k` characters and whatever
      the rest starts with. */
  lemma StartsWithSplit(s: string, k: nat, sp: string)
    requires s != [] && k <= |s| - 1 && StartsWith(s[1..][k..], sp)
    ensures StartsWith(s, [s[0]] + s[1..][..k] + sp)
  {
    assert s == [s[0]] + s[1..][..k] + s[1..][k..];
    assert s[1..][k..][..|sp|] == sp;
    assert s[..1 + k + |sp|] == [s[0]] + s[1..][..k] + sp;
  }

  /** Soundness: a match starts with the pattern spread out by some filler runs. */
  lemma {:induction false} MatchIsSpread(s: string, pat: string)
    requires pat != [] && MatchHere(s, pat)
    ensures exists gaps :: NoiseGaps(pat, gaps) && StartsWith(s, Spread(pat, gaps))
    decreases |pat|
  {
    if |pat| == 1 {
      assert NoiseGaps(pat, []);
      assert StartsWith(s, Spread(pat, []));
    } else {
      GapThenSplits(s[1..], pat[1..]);
      var k :| 0 <= k <= |s[1..]| && AllNoise(s[1..][..k]) && MatchHere(s[1..][k..], pat[1..]);
      MatchIsSpread(s[1..][k..], pat[1..]);
      var gs :| NoiseGaps(pat[1..], gs) && StartsWith(s[1..][k..], Spread(pat[1..], gs));
      SpreadCons(pat, s[1..][..k], gs);
      StartsWithSplit(s, k, Spread(pat[1..], gs));
      assert NoiseGaps(pat, [s[1..][..k]] + gs) && StartsWith(s, Spread(pat, [s[1..][..k]] + gs));
    }
  }

  /** `Occurs` means a match starts at some position. */
  lemma {:induction false} OccursIff(s: string, pat: string)
    requires pat != []
    ensures Occurs(s, pat) <==> exists i :: 0 <= i <= |s| && MatchHere(s[i..], pat)
    decreases |s|
  {
    assert s[0..] == s;
    if s != [] {
      OccursIff(s[1..], pat);
      if Occurs(s[1..], pat) {
        var i :| 0 <= i <= |s[1..]| && MatchHere(s[1..][i..], pat);
        assert s[1..][i..] == s[i + 1..];
      }
      if exists i :: 0 <= i <= |s| && MatchHere(s[i..], pat) {
        var i :| 0 <= i <= |s| && MatchHere(s[i..], pat);
        if i > 0 {
          assert s[1..][i - 1..] == s[i..];
        }
      }
    }
  }

  /** A pattern spread out by filler anywhere in a text occurs in it. */
  lemma SpreadOccurs(pre: string, pat: string, gaps: seq<string>, post: string)
    requires NoiseGaps(pat, gaps)
    ensures Occurs(pre + Spread(pat, gaps) + post, pat)
  {
    var s := pre + Spread(pat, gaps) + post;
    SpreadMatches(pat, gaps, post);
    assert s[|pre|..] == Spread(pat, gaps) + post;
    OccursIff(s, pat);
  }

  /** An occurrence of any forbidden word flags the nickname. */
  lemma OccursNaughty(s: string, w: nat)
    requires w < |FORBIDDEN| && Occurs(s, FORBIDDEN[w])
    ensures Naughty(s)
  {
  }

  /** A forbidden word spread out by filler anywhere in a nickname gets it flagged. */
  lemma SpreadFlagged(pre: string, gaps: seq<string>, post: string, w: nat)
    requires w < |FORBIDDEN| && NoiseGaps(FORBIDDEN[w], gaps)
    ensures Naughty(pre + Spread(FORBIDDEN[w], gaps) + post)
  {
    SpreadOccurs(pre, FORBIDDEN[w], gaps, post);
    OccursNaughty(pre + Spread(FORBIDDEN[w], gaps) + post, w);
  }

  /** Conversely, a flagged nickname holds one of the forbidden words spread out by
      filler at some position. */
  lemma FlaggedIsSpread(s: string)
    requires Naughty(s)
    ensures exists w, i, gaps :: 0 <= w < |FORBIDDEN| && 0 <= i <= |s| && NoiseGaps(FORBIDDEN[w], gaps)
              && StartsWith(s[i..], Spread(FORBIDDEN[w], gaps))
  {
    var w: nat := if Occurs(s, "```") then 0 else if Occurs(s, "http://") then 1
                  else if Occurs(s, "https://") then 2 else 3;
    OccursIff(s, FORBIDDEN[w]);
    var i :| 0 <= i <= |s| && MatchHere(s[i..], FORBIDDEN[w]);
    MatchIsSpread(s[i..], FORBIDDEN[w]);
  }

  /** A pattern written out plainly occurs: empty gaps are filler runs too. */
  lemma PlainOccurs(s: string, pat: string)
    requires pat != [] && Contains(s, pat)
    ensures Occurs(s, pat)
  {
    ContainsIff(s, pat);
    var i :| OccursAt(s, pat, i);
    var gaps := seq(|pat| - 1, _ => "");
    assert NoiseGaps(pat, gaps);
    PlainSpread(pat, gaps);
    assert s == s[..i] + Spread(pat, gaps) + s[i + |pat|..];
    SpreadOccurs(s[..i], pat, gaps, s[i + |pat|..]);
  }

  /** A forbidden word written out plainly is flagged. */
  lemma PlainFlagged(s: string, w: nat)
    requires w < |FORBIDDEN| && Contains(s, FORBIDDEN[w])
    ensures Naughty(s)
  {
    PlainOccurs(s, FORBIDDEN[w]);
    OccursNaughty(s, w);
  }

  /** Spreading with empty gaps gives the word back. */
  lemma {:induction false} PlainSpread(pat: string, gaps: seq<string>)
    requires NoiseGaps(pat, gaps) && forall i :: 0 <= i < |gaps| ==> gaps[i] == ""
    ensures Spread(pat, gaps) == pat
    decreases |pat|
  {
    if |pat| > 1 {
      assert NoiseGaps(pat[1..], gaps[1..]);
      PlainSpread(pat[1..], gaps[1..]);
      assert pat == [pat[0]] + pat[1..];
    }
  }

  /** A pattern cannot match where its first character is followed by a character that
      is neither its second character nor filler. */
  lemma {:induction false} NotOccurs(s: string, pat: string)
    requires |pat| >= 2
    requires forall i :: 0 <= i < |s| && s[i] == pat[0] ==>
               i + 1 < |s| && s[i + 1] != pat[1] && !IsNoise(s[i + 1])
    ensures !Occurs(s, pat)
    decreases |s|
  {
    if s != [] {
      if s[0] == pat[0] {
        assert s[1..][0] == s[1];
        assert !MatchHere(s[1..], pat[1..]);
        assert !GapThen(s[1..], pat[1..]);
      }
      forall i | 0 <= i < |s[1..]| && s[1..][i] == pat[0]
        ensures i + 1 < |s[1..]| && s[1..][i + 1] != pat[1] && !IsNoise(s[1..][i + 1])
      {
        assert s[1..][i] == s[i + 1];
      }
      NotOccurs(s[1..], pat);
    }
  }

  lemma UpperNoBackticks()
    ensures !Occurs("HTTP://", "```")
  {
    NotOccurs("HTTP://", "```");
  }

  lemma UpperNoHttp()
    ensures !Occurs("HTTP://", "http://")
  {
    NotOccurs("HTTP://", "http://");
  }

  lemma UpperNoHttps()
    ensures !Occurs("HTTP://", "https://")
  {
    NotOccurs("HTTP://", "https://");
  }

  lemma UpperNoInvite()
    ensures !Occurs("HTTP://", "discord.gg")
  {
    NotOccurs("HTTP://", "discord.gg");
  }

  /** The match is case-sensitive: an upper-case link is not flagged. */
  lemma UpperCaseNotFlagged()
    ensures !Naughty("HTTP://")
  {
    UpperNoBackticks();
    UpperNoHttp();
    UpperNoHttps();
    UpperNoInvite();
  }

  lemma DottedNoBackticks()
    ensures !Occurs("d.i.s.c.o.r.d.gg", "```")
  {
    NotOccurs("d.i.s.c.o.r.d.gg", "```");
  }

  lemma DottedNoHttp()
    ensures !Occurs("d.i.s.c.o.r.d.gg", "http://")
  {
    NotOccurs("d.i.s.c.o.r.d.gg", "http://");
  }

  lemma DottedNoHttps()
    ensures !Occurs("d.i.s.c.o.r.d.gg", "https://")
  {
    NotOccurs("d.i.s.c.o.r.d.gg", "https://");
  }

  lemma DottedNoInvite()
    ensures !Occurs("d.i.s.c.o.r.d.gg", "discord.gg")
  {
    NotOccurs("d.i.s.c.o.r.d.gg", "discord.gg");
  }

  /** Dots are not filler, so a dotted-out invite is not flagged. */
  lemma DottedInviteNotFlagged()
    ensures !Naughty("d.i.s.c.o.r.d.gg")
  {
    DottedNoBackticks();
    DottedNoHttp();
    DottedNoHttps();
    DottedNoInvite();
  }

  /** The characters of `pat` interleaved with single spaces. */
  function Spaced(pat: string): (r: string)
    requires pat != []
    ensures |r| == 2 * |pat| - 1
    decreases |pat|
  {
    if |pat| == 1 then pat else [pat[0], ' '] + Spaced(pat[1..])
  }

  lemma {:induction false} SpreadSpaces(pat: string, g: seq<string>)
    requires NoiseGaps(pat, g) && forall i :: 0 <= i < |g| ==> g[i] == " "
    ensures Spread(pat, g) == Spaced(pat)
    decreases |pat|
  {
    if |pat| > 1 {
      assert NoiseGaps(pat[1..], g[1..]);
      SpreadSpaces(pat[1..], g[1..]);
    }
  }

  /** Spaces are filler: every forbidden word spelled out with spaces is flagged. */
  lemma SpacedFlagged(w: nat)
    requires w < |FORBIDDEN|
    ensures Naughty(Spaced(FORBIDDEN[w]))
  {
    var pat := FORBIDDEN[w];
    var g := seq(|pat| - 1, _ => " ");
    assert NoiseGaps(pat, g) by {
      forall i | 0 <= i < |g| ensures AllNoise(g[i]) {
        assert g[i] == " ";
      }
    }
    SpreadFlagged("", g, "", w);
    SpreadSpaces(pat, g);
    assert "" + Spread(pat, g) + "" == Spread(pat, g);
  }
}
