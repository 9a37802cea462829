/** String helpers shared by the model: the pieces of Rust's `str` API that the
    bot relies on (`trim`, `split`, `join`, `contains`, `strip_suffix`, `Ord`),
    decimal formatting and parsing of integers, written out over `seq<char>`.
    A Dafny `char` is a Unicode scalar value, as a Rust `char` is. */
module Text {

  import opened Wrappers

  /** `\d` restricted to ASCII. */
  predicate IsDigit(c: char) {
    '0' <= c <= '9'
  }

  /** `\w` restricted to ASCII: letters, digits and underscore. */
  predicate IsWordChar(c: char) {
    ('a' <= c <= 'z') || ('A' <= c <= 'Z') || IsDigit(c) || c == '_'
  }

  predicate AllDigits(s: string) {
    forall i :: 0 <= i < |s| ==> IsDigit(s[i])
  }

  predicate AllWordChars(s: string) {
    forall i :: 0 <= i < |s| ==> IsWordChar(s[i])
  }

  /** Rust's `char::is_whitespace`: the Unicode White_Space property. */
  predicate IsWhitespace(c: char) {
    ('\t' <= c <= '\r') || c == ' ' || c == '\U{0085}' || c == '\U{00A0}' || c == '\U{1680}'
    || ('\U{2000}' <= c <= '\U{200A}') || c == '\U{2028}' || c == '\U{2029}'
    || c == '\U{202F}' || c == '\U{205F}' || c == '\U{3000}'
  }

  predicate AllWhitespace(s: string) {
    forall i :: 0 <= i < |s| ==> IsWhitespace(s[i])
  }

  // ---------------------------------------------------------------------------
  // trim

  /** Number of leading whitespace characters. */
  function LeadingWhitespace(s: string): (k: nat)
    ensures k <= |s|
    ensures AllWhitespace(s[..k])
    ensures k < |s| ==> !IsWhitespace(s[k])
  {
    if s == [] || !IsWhitespace(s[0]) then 0
    else
      var k := LeadingWhitespace(s[1..]);
      assert s[..k + 1] == [s[0]] + s[1..][..k];
      k + 1
  }

  /** Number of trailing whitespace characters. */
  function TrailingWhitespace(s: string): (k: nat)
    ensures k <= |s|
    ensures AllWhitespace(s[|s| - k..])
    ensures k < |s| ==> !IsWhitespace(s[|s| - 1 - k])
  {
    if s == [] || !IsWhitespace(s[|s| - 1]) then 0
    else
      var init := s[..|s| - 1];
      var k := TrailingWhitespace(init);
      assert s[|s| - (k + 1)..] == init[|init| - k..] + [s[|s| - 1]];
      k + 1
  }

  /** `str::trim`: the longest piece of `s` that neither starts nor ends with whitespace
      and is surrounded by whitespace only. */
  function Trim(s: string): (r: string)
    ensures var a := LeadingWhitespace(s);
      && a + |r| <= |s|
      && r == s[a..a + |r|]
      && AllWhitespace(s[..a]) && AllWhitespace(s[a + |r|..])
    ensures r != [] ==> !IsWhitespace(r[0]) && !IsWhitespace(r[|r| - 1])
  {
    var a := LeadingWhitespace(s);
    var t := s[a..];
    var b := TrailingWhitespace(t);
    assert t[|t| - b..] == s[a + (|t| - b)..];
    t[..|t| - b]
  }

  /** A string that starts and ends with a non-whitespace character is its own trim. */
  lemma TrimNoEdgeWhitespace(s: string)
    requires s != [] ==> !IsWhitespace(s[0]) && !IsWhitespace(s[|s| - 1])
    ensures Trim(s) == s
  {
    if s != [] {
      assert LeadingWhitespace(s) == 0;
      assert TrailingWhitespace(s) == 0;
    }
  }

  // ---------------------------------------------------------------------------
  // prefixes, suffixes, substrings

  predicate StartsWith(s: string, prefix: string) {
    |prefix| <= |s| && s[..|prefix|] == prefix
  }

  predicate EndsWith(s: string, suffix: string) {
    |suffix| <= |s| && s[|s| - |suffix|..] == suffix
  }

  /** `str::strip_suffix`. */
  function StripSuffix(s: string, suffix: string): (r: Option<string>)
    ensures r.Some? <==> EndsWith(s, suffix)
    ensures r.Some? ==> r.value + suffix == s
  {
    if EndsWith(s, suffix) then
      assert s[..|s| - |suffix|] + s[|s| - |suffix|..] == s;
      Some(s[..|s| - |suffix|])
    else None
  }

  /** `str::contains` with a string pattern. */
  predicate Contains(s: string, sub: string)
    decreases |s|
  {
    StartsWith(s, sub) || (s != [] && Contains(s[1..], sub))
  }

  /** `sub` occurs in `s` starting at index `i`. */
  predicate OccursAt(s: string, sub: string, i: int) {
    0 <= i <= |s| - |sub| && s[i..i + |sub|] == sub
  }

  /** `Contains` means what it says: `sub` occurs at some position of `s`. */
  lemma {:induction false} ContainsIff(s: string, sub: string)
    ensures Contains(s, sub) <==> exists i :: OccursAt(s, sub, i)
    decreases |s|
  {
    if StartsWith(s, sub) {
      assert OccursAt(s, sub, 0);
    }
    if s != [] {
      ContainsIff(s[1..], sub);
      if Contains(s[1..], sub) {
        var i :| OccursAt(s[1..], sub, i);
        assert OccursAt(s, sub, i + 1);
      }
      if exists i :: OccursAt(s, sub, i) {
        var i :| OccursAt(s, sub, i);
        if i > 0 {
          assert OccursAt(s[1..], sub, i - 1);
        }
      }
    } else {
      if exists i :: OccursAt(s, sub, i) {
        var i :| OccursAt(s, sub, i);
        assert StartsWith(s, sub);
      }
    }
  }

  /** Every string contains the empty string. */
  lemma ContainsEmpty(s: string)
    ensures Contains(s, "")
  {
  }

  // ---------------------------------------------------------------------------
  // split(", ") and join

  /** `str::split(", ")`: the pieces between the non-overlapping occurrences of
      ", ", scanned left to right; the empty string splits into `[""]`. */
  function SplitComma(s: string): (r: seq<string>)
    ensures |r| >= 1
    decreases |s|
  {
    if |s| < 2 then [s]
    else if s[0] == ',' && s[1] == ' ' then [""] + SplitComma(s[2..])
    else
      var rest := SplitComma(s[1..]);
      [[s[0]] + rest[0]] + rest[1..]
  }

  /** `[T]::join(sep)`. */
  function Join(words: seq<string>, sep: string): string
  {
    if |words| == 0 then ""
    else if |words| == 1 then words[0]
    else words[0] + sep + Join(words[1..], sep)
  }

  /** Joining a word in front of one or more words puts one separator between them. */
  lemma JoinCons(w: string, rest: seq<string>, sep: string)
    requires |rest| >= 1
    ensures Join([w] + rest, sep) == w + sep + Join(rest, sep)
  {
    assert ([w] + rest)[1..] == rest;
  }

  /** Gluing a character to the first word glues it to the front of the join. */
  lemma JoinGlue(c: char, rest: seq<string>, sep: string)
    requires |rest| >= 1
    ensures Join([[c] + rest[0]] + rest[1..], sep) == [c] + Join(rest, sep)
  {
    if |rest| > 1 {
      JoinCons([c] + rest[0], rest[1..], sep);
      assert rest == [rest[0]] + rest[1..];
      JoinCons(rest[0], rest[1..], sep);
    }
  }

  /** Split then join with the same separator gives the text back. */
  lemma {:induction false} JoinSplit(s: string)
    ensures Join(SplitComma(s), ", ") == s
    decreases |s|
  {
    if |s| < 2 {
      assert SplitComma(s) == [s];
    } else if s[0] == ',' && s[1] == ' ' {
      var rest := SplitComma(s[2..]);
      assert SplitComma(s) == [""] + rest;
      JoinSplit(s[2..]);
      JoinCons("", rest, ", ");
      assert s == ", " + s[2..];
    } else {
      var rest := SplitComma(s[1..]);
      assert SplitComma(s) == [[s[0]] + rest[0]] + rest[1..];
      JoinSplit(s[1..]);
      JoinGlue(s[0], rest, ", ");
      assert s == [s[0]] + s[1..];
    }
  }

  predicate NoComma(s: string) {
    forall i :: 0 <= i < |s| ==> s[i] != ','
  }

  /** A comma-free prefix is glued to the first piece of what follows it. */
  lemma {:induction false} SplitCommaFreePrefix(w: string, t: string)
    requires NoComma(w)
    ensures SplitComma(w + t) == [w + SplitComma(t)[0]] + SplitComma(t)[1..]
    decreases |w|
  {
    if w == [] {
      assert w + t == t;
      var r := SplitComma(t);
      assert r == [r[0]] + r[1..];
      assert w + r[0] == r[0];
    } else {
      var s := w + t;
      assert s[0] == w[0];
      if |s| < 2 {
        assert w == [s[0]] && t == [];
      } else {
        assert s[1..] == w[1..] + t;
        SplitCommaFreePrefix(w[1..], t);
        assert [s[0]] + (w[1..] + SplitComma(t)[0]) == w + SplitComma(t)[0];
      }
    }
  }

  /** Splitting a ", "-join of comma-free words gives the words back. */
  lemma {:induction false} SplitJoin(words: seq<string>)
    requires |words| >= 1
    requires forall i :: 0 <= i < |words| ==> NoComma(words[i])
    ensures SplitComma(Join(words, ", ")) == words
    decreases |words|
  {
    if |words| == 1 {
      SplitCommaFreePrefix(words[0], "");
      assert words[0] + "" == words[0];
    } else {
      var rest := Join(words[1..], ", ");
      assert Join(words, ", ") == words[0] + (", " + rest);
      SplitCommaFreePrefix(words[0], ", " + rest);
      assert (", " + rest)[2..] == rest;
      SplitJoin(words[1..]);
      assert words[0] + "" == words[0];
      assert words == [words[0]] + words[1..];
    }
  }

  /** Every word of a join occurs in it. */
  lemma {:induction false} JoinContains(words: seq<string>, sep: string, i: nat)
    requires i < |words|
    ensures Contains(Join(words, sep), words[i])
    decreases |words|
  {
    var j := Join(words, sep);
    if |words| == 1 {
      ContainsAt(j, words[0], 0);
    } else if i == 0 {
      assert j[..|words[0]|] == words[0];
      ContainsAt(j, words[0], 0);
    } else {
      var rest := Join(words[1..], sep);
      JoinContains(words[1..], sep, i - 1);
      ContainsIff(rest, words[i]);
      var k :| OccursAt(rest, words[i], k);
      var off := |words[0] + sep|;
      assert j == words[0] + sep + rest;
      assert j[off + k..off + k + |words[i]|] == rest[k..k + |words[i]|];
      ContainsAt(j, words[i], off + k);
    }
  }

  lemma ContainsAt(s: string, sub: string, k: int)
    requires OccursAt(s, sub, k)
    ensures Contains(s, sub)
  {
    ContainsIff(s, sub);
  }

  /** What a piece contains, the whole contains. */
  lemma ContainsInside(pre: string, mid: string, post: string, sub: string)
    requires Contains(mid, sub)
    ensures Contains(pre + mid + post, sub)
  {
    ContainsIff(mid, sub);
    var k :| OccursAt(mid, sub, k);
    var s := pre + mid + post;
    assert s[|pre| + k..|pre| + k + |sub|] == mid[k..k + |sub|];
    ContainsAt(s, sub, |pre| + k);
  }

  // ---------------------------------------------------------------------------
  // decimal numbers

  function DigitValue(c: char): nat
    requires IsDigit(c)
  {
    (c as int - '0' as int) as nat
  }

  function DigitChar(d: nat): (c: char)
    requires d < 10
    ensures IsDigit(c) && DigitValue(c) == d
  {
    ('0' as int + d) as char
  }

  /** The value of a string of decimal digits (leading zeros allowed), as `str::parse`
      reads it before any range check. */
  function DigitsValue(s: string): nat
    requires AllDigits(s)
  {
    if s == [] then 0 else DigitsValue(s[..|s| - 1]) * 10 + DigitValue(s[|s| - 1])
  }

  /** `Display` of a non-negative integer: decimal, no leading zeros. */
  function NatToString(n: nat): (r: string)
    ensures |r| >= 1 && AllDigits(r)
    ensures r[0] == '0' ==> n == 0
  {
    if n < 10 then [DigitChar(n)] else NatToString(n / 10) + [DigitChar(n % 10)]
  }

  /** `Display` of a signed integer. */
  function IntToString(i: int): (r: string)
    ensures |r| >= 1
    ensures r[0] == '-' <==> i < 0
  {
    if i < 0 then "-" + NatToString(-i) else NatToString(i)
  }

  /** Reading back a formatted natural number gives the number. */
  lemma {:induction false} DigitsOfNat(n: nat)
    ensures DigitsValue(NatToString(n)) == n
  {
    if n >= 10 {
      var s := NatToString(n);
      assert s[..|s| - 1] == NatToString(n / 10);
      DigitsOfNat(n / 10);
    }
  }

  // ---------------------------------------------------------------------------
  // the order of `str`

  /** `str`'s `Ord`: lexicographic on characters. Comparing UTF-8 bytes, as Rust does,
      orders strings the same way, because UTF-8 preserves the order of code points. */
  predicate LessEq(a: string, b: string)
    decreases |a|
  {
    if a == [] then true
    else if b == [] then false
    else if a[0] != b[0] then a[0] < b[0]
    else LessEq(a[1..], b[1..])
  }

  lemma {:induction false} LessEqReflexive(a: string)
    ensures LessEq(a, a)
    decreases |a|
  {
    if a != [] { LessEqReflexive(a[1..]); }
  }

  lemma {:induction false} LessEqTotal(a: string, b: string)
    ensures LessEq(a, b) || LessEq(b, a)
    decreases |a|
  {
    if a != [] && b != [] && a[0] == b[0] { LessEqTotal(a[1..], b[1..]); }
  }

  lemma {:induction false} LessEqAntisymmetric(a: string, b: string)
    requires LessEq(a, b) && LessEq(b, a)
    ensures a == b
    decreases |a|
  {
    if a != [] && b != [] {
      LessEqAntisymmetric(a[1..], b[1..]);
      assert a == [a[0]] + a[1..] && b == [b[0]] + b[1..];
    }
  }

  lemma {:induction false} LessEqTransitive(a: string, b: string, c: string)
    requires LessEq(a, b) && LessEq(b, c)
    ensures LessEq(a, c)
    decreases |a|
  {
    if a != [] && b != [] && c != [] && a[0] == b[0] && b[0] == c[0] {
      LessEqTransitive(a[1..], b[1..], c[1..]);
    }
  }
}
