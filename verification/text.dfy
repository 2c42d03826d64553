/** Character-level helpers shared by the date parser and the calendar key:
    decimal numerals, zero padding, and the two pieces of Python's string
    handling the reporter relies on, `str.split()` with no argument and `int()`
    applied to a string. */
module Text {
  import opened Wrappers

  predicate IsDigit(c: char) {
    '0' <= c <= '9'
  }

  predicate AllDigits(s: string) {
    forall i :: 0 <= i < |s| ==> IsDigit(s[i])
  }

  function DigitValue(c: char): nat
    requires IsDigit(c)
  {
    c as int - '0' as int
  }

  function DigitChar(n: nat): (c: char)
    requires n < 10
    ensures IsDigit(c) && DigitValue(c) == n
  {
    ('0' as int + n) as char
  }

  /** Length of the longest prefix of `s` made of decimal digits. */
  function DigitRun(s: string): (n: nat)
    ensures n <= |s|
    ensures AllDigits(s[..n])
    ensures n < |s| ==> !IsDigit(s[n])
  {
    if |s| > 0 && IsDigit(s[0]) then
      var n := 1 + DigitRun(s[1..]);
      assert s[..n] == [s[0]] + s[1..][..n - 1];
      n
    else
      0
  }

  /** The number a string of decimal digits denotes, most significant digit first. */
  function Value(s: string): nat
    requires AllDigits(s)
  {
    if |s| == 0 then 0 else Value(s[..|s| - 1]) * 10 + DigitValue(s[|s| - 1])
  }

  function Pow10(k: nat): (p: nat)
    ensures p >= 1
  {
    if k == 0 then 1 else 10 * Pow10(k - 1)
  }

  /** A string of `k` digits denotes a number below `10^k`. */
  lemma {:induction false} ValueBound(s: string)
    requires AllDigits(s)
    ensures Value(s) < Pow10(|s|)
  {
    if |s| > 0 {
      ValueBound(s[..|s| - 1]);
    }
  }

  /** Decimal rendering without leading zeros, as Python's `str(n)` and the C
      library's unpadded `%Y` produce it. */
  function NatToString(n: nat): (s: string)
    ensures 0 < |s| && AllDigits(s) && Value(s) == n
    ensures s[0] == '0' ==> n == 0
  {
    if n < 10 then
      [DigitChar(n)]
    else
      var s := NatToString(n / 10) + [DigitChar(n % 10)];
      assert s[..|s| - 1] == NatToString(n / 10);
      s
  }

  /** Zero-padded rendering in exactly `width` digits, as `%02d` or `%04d`. */
  function Pad(n: nat, width: nat): (s: string)
    requires n < Pow10(width)
    ensures |s| == width && AllDigits(s) && Value(s) == n
  {
    if width == 0 then
      ""
    else
      var s := Pad(n / 10, width - 1) + [DigitChar(n % 10)];
      assert s[..|s| - 1] == Pad(n / 10, width - 1);
      s
  }

  /** The digit run of a digit string followed by a non-digit (or nothing) is
      exactly that digit string. */
  lemma {:induction false} DigitRunOfPrefix(digits: string, rest: string)
    requires AllDigits(digits)
    requires |rest| == 0 || !IsDigit(rest[0])
    ensures DigitRun(digits + rest) == |digits|
    ensures (digits + rest)[..|digits|] == digits
    ensures (digits + rest)[|digits|..] == rest
  {
    if |digits| > 0 {
      assert (digits + rest)[1..] == digits[1..] + rest;
      DigitRunOfPrefix(digits[1..], rest);
    }
  }

  /** Python's `str.isspace()` characters: the separators `str.split()`
      treats as white space. `int()` strips a narrower set; `ParseInt` uses
      this one, which is only ever applied to words `str.split()` made. */
  predicate IsSpace(c: char) {
    || c == ' '
    || '\U{9}' <= c <= '\U{D}'
    || '\U{1C}' <= c <= '\U{1F}'
    || c == '\U{85}'
    || c == '\U{A0}'
    || c == '\U{1680}'
    || '\U{2000}' <= c <= '\U{200A}'
    || c == '\U{2028}'
    || c == '\U{2029}'
    || c == '\U{202F}'
    || c == '\U{205F}'
    || c == '\U{3000}'
  }

  predicate NoSpace(s: string) {
    forall i :: 0 <= i < |s| ==> !IsSpace(s[i])
  }

  /** Length of the longest prefix of `s` holding no white space. */
  function WordLength(s: string): (n: nat)
    ensures n <= |s|
    ensures NoSpace(s[..n])
    ensures n < |s| ==> IsSpace(s[n])
  {
    if |s| > 0 && !IsSpace(s[0]) then
      var n := 1 + WordLength(s[1..]);
      assert s[..n] == [s[0]] + s[1..][..n - 1];
      n
    else
      0
  }

  predicate AllSpace(s: string) {
    forall i :: 0 <= i < |s| ==> IsSpace(s[i])
  }

  /** `gaps[0] + words[0] + gaps[1] + ... + words[n - 1] + gaps[n]`. */
  function Weave(gaps: seq<string>, words: seq<string>): string
    requires |gaps| == |words| + 1
    decreases |words|
  {
    if |words| == 0 then gaps[0] else gaps[0] + (words[0] + Weave(gaps[1..], words[1..]))
  }

  /** `s` is made of `words` separated by runs of white space: the gaps
      around and between the words hold only white space, the gaps between
      two words are not empty, and the words are not empty and hold none. */
  ghost predicate Layout(s: string, words: seq<string>, gaps: seq<string>) {
    && |gaps| == |words| + 1
    && (forall k :: 0 <= k < |gaps| ==> AllSpace(gaps[k]))
    && (forall k :: 0 < k < |words| ==> |gaps[k]| > 0)
    && (forall k :: 0 <= k < |words| ==> |words[k]| > 0 && NoSpace(words[k]))
    && s == Weave(gaps, words)
  }

  /** Python's `s.split()`: the maximal runs of non-space characters, in order. */
  function Split(s: string): (words: seq<string>)
    ensures forall k :: 0 <= k < |words| ==> |words[k]| > 0 && NoSpace(words[k])
    ensures exists gaps :: Layout(s, words, gaps)
    decreases |s|
  {
    if |s| == 0 then
      assert Layout(s, [], [""]);
      []
    else if IsSpace(s[0]) then
      var words := Split(s[1..]);
      LayoutAfterSpace(s, words);
      words
    else
      var n := WordLength(s);
      var words := Split(s[n..]);
      LayoutAfterWord(s, n, words);
      [s[..n]] + words
  }

  lemma WeaveAfter(c: string, gaps: seq<string>, words: seq<string>)
    requires |gaps| == |words| + 1
    ensures Weave([c + gaps[0]] + gaps[1..], words) == c + Weave(gaps, words)
  {
    var g := [c + gaps[0]] + gaps[1..];
    assert g[1..] == gaps[1..];
  }

  lemma LayoutAfterSpace(s: string, words: seq<string>)
    requires |s| > 0 && IsSpace(s[0])
    requires exists gaps :: Layout(s[1..], words, gaps)
    ensures exists gaps :: Layout(s, words, gaps)
  {
    var gaps :| Layout(s[1..], words, gaps);
    var g := [[s[0]] + gaps[0]] + gaps[1..];
    WeaveAfter([s[0]], gaps, words);
    assert s == [s[0]] + s[1..];
    assert forall k :: 0 < k < |g| ==> g[k] == gaps[k];
    assert Layout(s, words, g);
  }

  lemma LayoutAfterWord(s: string, n: nat, words: seq<string>)
    requires 0 < n <= |s| && NoSpace(s[..n]) && (n == |s| || IsSpace(s[n]))
    requires exists gaps :: Layout(s[n..], words, gaps)
    ensures exists gaps :: Layout(s, [s[..n]] + words, gaps)
  {
    var gaps :| Layout(s[n..], words, gaps);
    var g := [""] + gaps;
    var ws := [s[..n]] + words;
    assert g[1..] == gaps && ws[1..] == words;
    assert s == s[..n] + s[n..];
    assert Layout(s, ws, g);
  }

  lemma {:induction false} SplitAllSpace(s: string)
    requires AllSpace(s)
    ensures Split(s) == []
  {
    if |s| > 0 {
      SplitAllSpace(s[1..]);
    }
  }

  /** A layout whose leading gap is not empty, after its first character. */
  lemma LayoutDropSpace(s: string, words: seq<string>, gaps: seq<string>)
    requires Layout(s, words, gaps) && |gaps[0]| > 0
    ensures |s| > 0 && IsSpace(s[0])
    ensures Layout(s[1..], words, [gaps[0][1..]] + gaps[1..])
  {
    var g := [gaps[0][1..]] + gaps[1..];
    WeaveAfter([gaps[0][0]], g, words);
    assert [gaps[0][0]] + g[0] == gaps[0];
    assert [[gaps[0][0]] + g[0]] + g[1..] == gaps;
    assert s == [gaps[0][0]] + Weave(g, words);
    assert s[1..] == Weave(g, words);
    assert forall k :: 0 < k < |g| ==> g[k] == gaps[k];
  }

  /** A layout with an empty leading gap, after its first word. */
  lemma LayoutDropWord(s: string, words: seq<string>, gaps: seq<string>)
    requires Layout(s, words, gaps) && |words| > 0 && |gaps[0]| == 0
    ensures var rest := Weave(gaps[1..], words[1..]);
      && s == words[0] + rest
      && (|rest| == 0 || IsSpace(rest[0]))
      && Layout(rest, words[1..], gaps[1..])
  {
    var rest := Weave(gaps[1..], words[1..]);
    assert s == words[0] + rest;
    if |words| > 1 {
      assert rest == gaps[1] + (words[1] + Weave(gaps[2..], words[2..])) by {
        assert gaps[1..][1..] == gaps[2..] && words[1..][1..] == words[2..];
      }
      assert rest[0] == gaps[1][0];
    }
    assert forall k :: 0 <= k < |words| - 1 ==> words[1..][k] == words[k + 1];
    assert forall k :: 0 <= k < |gaps| - 1 ==> gaps[1..][k] == gaps[k + 1];
  }

  /** The layout determines the words: any way of reading `s` as words
      separated by white space gives exactly `s.split()`. */
  lemma {:induction false} LayoutDeterminesSplit(s: string, words: seq<string>, gaps: seq<string>)
    requires Layout(s, words, gaps)
    ensures words == Split(s)
    decreases |s|
  {
    if |words| == 0 {
      SplitAllSpace(s);
    } else if |gaps[0]| > 0 {
      LayoutDropSpace(s, words, gaps);
      LayoutDeterminesSplit(s[1..], words, [gaps[0][1..]] + gaps[1..]);
    } else {
      var rest := Weave(gaps[1..], words[1..]);
      LayoutDropWord(s, words, gaps);
      WordLengthOfPrefix(words[0], rest);
      LayoutDeterminesSplit(rest, words[1..], gaps[1..]);
      assert words == [words[0]] + words[1..];
    }
  }

  /** `s.split()` is characterised by the layout alone: a sequence of strings
      is the split of `s` exactly when `s` is those words separated by white
      space. */
  lemma SplitCharacterised(s: string, words: seq<string>)
    ensures words == Split(s) <==> exists gaps :: Layout(s, words, gaps)
  {
    if exists gaps :: Layout(s, words, gaps) {
      var gaps :| Layout(s, words, gaps);
      LayoutDeterminesSplit(s, words, gaps);
    }
  }

  /** The words joined by single spaces, as `" ".join(words)`. */
  function JoinSpaces(words: seq<string>): string {
    if |words| == 0 then ""
    else if |words| == 1 then words[0]
    else words[0] + " " + JoinSpaces(words[1..])
  }

  lemma {:induction false} WordLengthOfPrefix(word: string, rest: string)
    requires NoSpace(word)
    requires |rest| == 0 || IsSpace(rest[0])
    ensures WordLength(word + rest) == |word|
    ensures (word + rest)[..|word|] == word
    ensures (word + rest)[|word|..] == rest
  {
    if |word| > 0 {
      assert (word + rest)[1..] == word[1..] + rest;
      WordLengthOfPrefix(word[1..], rest);
    }
  }

  /** Splitting undoes joining, for words that are non-empty and hold no white
      space: the round trip `" ".join(ws).split() == ws`. */
  lemma {:induction false} SplitJoinSpaces(words: seq<string>)
    requires forall k :: 0 <= k < |words| ==> |words[k]| > 0 && NoSpace(words[k])
    ensures Split(JoinSpaces(words)) == words
  {
    if |words| == 1 {
      WordLengthOfPrefix(words[0], "");
      assert words[0] + "" == words[0];
    } else if |words| > 1 {
      var tail := JoinSpaces(words[1..]);
      var s := words[0] + " " + tail;
      assert s == words[0] + (" " + tail);
      WordLengthOfPrefix(words[0], " " + tail);
      assert s[|words[0]|..] == " " + tail;
      assert (" " + tail)[1..] == tail;
      SplitJoinSpaces(words[1..]);
      assert words == [words[0]] + words[1..];
    }
  }

  function TrimStart(s: string): (t: string)
    ensures |t| <= |s|
    ensures |t| > 0 ==> !IsSpace(t[0])
  {
    if |s| > 0 && IsSpace(s[0]) then TrimStart(s[1..]) else s
  }

  function TrimEnd(s: string): (t: string)
    ensures |t| <= |s|
    ensures |t| > 0 ==> !IsSpace(t[|t| - 1])
  {
    if |s| > 0 && IsSpace(s[|s| - 1]) then TrimEnd(s[..|s| - 1]) else s
  }

  /** Python's `s.strip()` with no argument. */
  function Strip(s: string): string {
    TrimEnd(TrimStart(s))
  }

  /** The unsigned part of an integer literal `int()` accepts: decimal digits,
      where a single underscore may separate two digits. */
  predicate IsNumeral(s: string) {
    && |s| > 0
    && IsDigit(s[0])
    && IsDigit(s[|s| - 1])
    && DigitsOrUnderscores(s)
    && forall i :: 0 <= i < |s| - 1 && s[i] == '_' ==> IsDigit(s[i + 1])
  }

  predicate DigitsOrUnderscores(s: string) {
    forall i :: 0 <= i < |s| ==> IsDigit(s[i]) || s[i] == '_'
  }

  function DropUnderscores(s: string): (t: string)
    requires DigitsOrUnderscores(s)
    ensures AllDigits(t)
  {
    if |s| == 0 then ""
    else if s[0] == '_' then DropUnderscores(s[1..])
    else [s[0]] + DropUnderscores(s[1..])
  }

  /** `sys.get_int_max_str_digits()` at its default: `int()` raises
      `ValueError` for a decimal literal with more digits than this. */
  const MaxStrDigits: nat := 4300

  /** Python's `int(s)` on a string: surrounding white space is ignored, one
      optional sign, then a numeral of at most `MaxStrDigits` digits, negated
      after a `-`; anything else, such as "2025x" or "1__2", is a
      `ValueError`, here `None`. */
  function ParseInt(s: string): (r: Option<int>)
    ensures r.Some? ==> |Strip(s)| > 0 && (IsDigit(Strip(s)[0]) || Strip(s)[0] in "+-")
    ensures IsNumeral(Strip(s)) && |DropUnderscores(Strip(s))| > MaxStrDigits ==> r.None?
    ensures IsNumeral(Strip(s)) && |DropUnderscores(Strip(s))| <= MaxStrDigits ==>
              r == Some(Value(DropUnderscores(Strip(s))))
    ensures var t := Strip(s);
      var u := if |t| > 0 && t[0] in "+-" then t[1..] else t;
      && (r.Some? <==> IsNumeral(u) && |DropUnderscores(u)| <= MaxStrDigits)
      && (r.Some? && t[0] == '-' ==> r.value == -(Value(DropUnderscores(u)) as int))
      && (r.Some? && t[0] != '-' ==> r.value == Value(DropUnderscores(u)))
  {
    var t := Strip(s);
    if |t| > 0 && (t[0] == '+' || t[0] == '-') then
      if IsNumeral(t[1..]) && |DropUnderscores(t[1..])| <= MaxStrDigits then
        var v: int := Value(DropUnderscores(t[1..]));
        Some(if t[0] == '-' then -v else v)
      else
        None
    else if IsNumeral(t) && |DropUnderscores(t)| <= MaxStrDigits then
      Some(Value(DropUnderscores(t)))
    else
      None
  }

  /** A number below `10^k` has at most `k` decimal digits. */
  lemma {:induction false} NatToStringLength(n: nat, k: nat)
    requires 1 <= k && n < Pow10(k)
    ensures |NatToString(n)| <= k
  {
    if n >= 10 {
      NatToStringLength(n / 10, k - 1);
    }
  }

  lemma {:induction false} DropUnderscoresOfDigits(s: string)
    requires AllDigits(s)
    ensures DropUnderscores(s) == s
  {
    if |s| > 0 {
      DropUnderscoresOfDigits(s[1..]);
      assert s == [s[0]] + s[1..];
    }
  }

  lemma StripOfDigits(s: string)
    requires |s| > 0 && AllDigits(s)
    ensures Strip(s) == s
  {
    assert !IsSpace(s[0]) && !IsSpace(s[|s| - 1]);
  }

  /** `int(str(n)) == n`: the decimal rendering of a natural number reads back
      as that number. */
  lemma NatToStringParses(n: nat)
    requires |NatToString(n)| <= MaxStrDigits
    ensures ParseInt(NatToString(n)) == Some(n)
  {
    var s := NatToString(n);
    StripOfDigits(s);
    assert IsNumeral(s) && s[0] !in "+-";
    DropUnderscoresOfDigits(s);
  }
}
