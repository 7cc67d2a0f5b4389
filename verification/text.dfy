/** The handful of Python string operations the parsers rely on:
    `str.isspace`, `str.strip`, `startswith`, `in`, decimal digit runs and
    `readline`-style line splitting. */
module Text {
  import opened Common

  /** Characters Python's `str.isspace` (and the regex class `\s`) accept. */
  predicate IsSpace(c: char) {
    ('\t' <= c <= '\r') || ('\U{1C}' <= c <= ' ') || c == '\U{85}' || c == '\U{A0}'
    || c == '\U{1680}' || ('\U{2000}' <= c <= '\U{200A}') || c == '\U{2028}' || c == '\U{2029}'
    || c == '\U{202F}' || c == '\U{205F}' || c == '\U{3000}'
  }

  /** Neither end is whitespace: what `strip` leaves. */
  predicate Trimmed(s: string) {
    s == [] || (!IsSpace(s[0]) && !IsSpace(s[|s| - 1]))
  }

  predicate AllSpace(s: string) {
    forall i :: 0 <= i < |s| ==> IsSpace(s[i])
  }

  /** Number of leading whitespace characters. */
  function LeadingSpaces(s: string): (n: nat)
    ensures n <= |s|
    ensures AllSpace(s[..n])
    ensures n < |s| ==> !IsSpace(s[n])
    decreases |s|
  {
    if |s| > 0 && IsSpace(s[0]) then 1 + LeadingSpaces(s[1..]) else 0
  }

  /** Number of trailing whitespace characters. */
  function TrailingSpaces(s: string): (n: nat)
    ensures n <= |s|
    ensures AllSpace(s[|s| - n..])
    ensures n < |s| ==> !IsSpace(s[|s| - n - 1])
    ensures |s| > 0 && !IsSpace(s[0]) ==> n < |s|
    decreases |s|
  {
    if |s| > 0 && IsSpace(s[|s| - 1]) then
      var t := s[..|s| - 1];
      var m := TrailingSpaces(t);
      assert s[|s| - (m + 1)..] == t[|t| - m..] + [s[|s| - 1]];
      assert |t| > 0 ==> t[0] == s[0];
      1 + m
    else 0
  }

  /** Python's `s.strip()`. */
  function Strip(s: string): (r: string)
    ensures |r| <= |s|
    ensures r == [] <==> AllSpace(s)
    ensures Trimmed(r)
  {
    var lead := LeadingSpaces(s);
    if lead == |s| then
      []
    else
      StripCore(s, lead);
      Middle(s, lead)
  }

  /** `s` after its `lead` leading spaces and its trailing spaces. */
  function Middle(s: string, lead: nat): string
    requires lead <= |s|
  {
    var t := s[lead..];
    t[..|t| - TrailingSpaces(t)]
  }

  /** What `strip` keeps is a contiguous piece of the input, with only
      whitespace cut on either side. */
  lemma StripKeepsMiddle(s: string)
    ensures var r := Strip(s);
      exists i :: 0 <= i <= |s| - |r| && s[i..i + |r|] == r
        && AllSpace(s[..i]) && AllSpace(s[i + |r|..])
  {
    var lead := LeadingSpaces(s);
    if lead == |s| {
      assert s[0..0] == [] && s[..0] == [] && s[0..] == s;
    } else {
      var r := Middle(s, lead);
      StripAround(s, lead);
      assert s[lead..lead + |r|] == r;
    }
  }

  /** The middle `strip` keeps starts and ends with a non-space. */
  lemma StripCore(s: string, lead: nat)
    requires lead < |s| && !IsSpace(s[lead])
    ensures 0 < |Middle(s, lead)| && Trimmed(Middle(s, lead)) && !AllSpace(s)
  {
    var t := s[lead..];
    assert 0 < |Middle(s, lead)| && Trimmed(Middle(s, lead)) by {
      assert t[0] == s[lead];
      TrimmedCut(t, TrailingSpaces(t));
      assert Middle(s, lead) == t[..|t| - TrailingSpaces(t)];
    }
  }

  /** A string starting with a non-space, cut before its trailing spaces. */
  lemma TrimmedCut(t: string, trail: nat)
    requires |t| > 0 && !IsSpace(t[0])
    requires trail == TrailingSpaces(t)
    ensures trail < |t| && Trimmed(t[..|t| - trail])
  {
    var m := |t| - trail;
    assert t[..m][0] == t[0];
    assert t[..m][m - 1] == t[m - 1];
  }

  /** Only spaces lie around the middle `strip` keeps. */
  lemma StripAround(s: string, lead: nat)
    requires lead == LeadingSpaces(s) < |s|
    ensures var r := Middle(s, lead);
      lead + |r| <= |s| && s[lead..lead + |r|] == r
      && AllSpace(s[..lead]) && AllSpace(s[lead + |r|..])
  {
    var t := s[lead..];
    var trail := TrailingSpaces(t);
    var r := t[..|t| - trail];
    assert r == Middle(s, lead);
    assert s[lead..lead + |r|] == r;
    assert s[lead + |r|..] == t[|t| - trail..];
  }

  /** Stripping a string that is already stripped changes nothing. */
  lemma StripStripped(s: string)
    requires Trimmed(s)
    ensures Strip(s) == s
  {
    if s != [] {
      assert LeadingSpaces(s) == 0;
      assert TrailingSpaces(s) == 0;
    }
  }

  /** Python's `sub in s`. */
  predicate Contains(s: string, sub: string)
    decreases |s|
  {
    sub <= s || (|s| > 0 && Contains(s[1..], sub))
  }

  /** An occurrence at any position is found. */
  lemma {:induction false} ContainsAt(s: string, sub: string, i: nat)
    requires i <= |s| && sub <= s[i..]
    ensures Contains(s, sub)
    decreases i
  {
    if i > 0 {
      assert s[1..][i - 1..] == s[i..];
      ContainsAt(s[1..], sub, i - 1);
    } else {
      assert s[0..] == s;
    }
  }

  /** A text in which the first character of `sub` never occurs does not
      contain `sub`. */
  lemma {:induction false} MissingFirstChar(s: string, sub: string)
    requires |sub| > 0 && forall i :: 0 <= i < |s| ==> s[i] != sub[0]
    ensures !Contains(s, sub)
    decreases |s|
  {
    if |s| > 0 {
      assert !(sub <= s) by { assert s[0] != sub[0]; }
      assert forall i :: 0 <= i < |s[1..]| ==> s[1..][i] == s[i + 1];
      MissingFirstChar(s[1..], sub);
    }
  }

  predicate IsDigit(c: char) {
    '0' <= c <= '9'
  }

  /** Length of the run of decimal digits at the start of `s`. */
  function DigitRun(s: string): (n: nat)
    ensures n <= |s|
    ensures forall i :: 0 <= i < n ==> IsDigit(s[i])
    ensures n < |s| ==> !IsDigit(s[n])
    decreases |s|
  {
    if |s| > 0 && IsDigit(s[0]) then 1 + DigitRun(s[1..]) else 0
  }

  /** Python's `int(ds)` on a string of decimal digits. */
  function DigitsValue(ds: string): nat
    requires forall i :: 0 <= i < |ds| ==> IsDigit(ds[i])
    decreases |ds|
  {
    if |ds| == 0 then 0
    else DigitsValue(ds[..|ds| - 1]) * 10 + DigitOf(ds[|ds| - 1])
  }

  function DigitOf(c: char): nat
    requires IsDigit(c)
  {
    c as int - '0' as int
  }

  /** Decimal rendering of a natural number, the inverse of DigitsValue. */
  function ShowNat(n: nat): (r: string)
    ensures |r| > 0
    ensures forall i :: 0 <= i < |r| ==> IsDigit(r[i])
    decreases n
  {
    var d := [('0' as int + n % 10) as char];
    if n < 10 then d else ShowNat(n / 10) + d
  }

  lemma {:induction false} DigitsValueShowNat(n: nat)
    ensures DigitsValue(ShowNat(n)) == n
    decreases n
  {
    var r := ShowNat(n);
    if n >= 10 {
      DigitsValueShowNat(n / 10);
      assert r[..|r| - 1] == ShowNat(n / 10);
    }
  }

  /** Python's `int(s)` for a file stem: an optional sign followed by
      decimal digits; anything else is a `ValueError` (None). */
  function ParseInt(s: string): (r: Option<int>)
    ensures r.Some? ==> |s| > 0
  {
    if |s| > 0 && (s[0] == '-' || s[0] == '+') then
      var body := s[1..];
      if |body| > 0 && DigitRun(body) == |body| then
        var v: int := DigitsValue(body);
        Some(if s[0] == '-' then -v else v)
      else None
    else if |s| > 0 && DigitRun(s) == |s| then Some(DigitsValue(s))
    else None
  }

  lemma ParseIntShowNat(n: nat)
    ensures ParseInt(ShowNat(n)) == Some(n)
  {
    var s := ShowNat(n);
    DigitsValueShowNat(n);
    DigitRunAll(s);
  }

  lemma {:induction false} DigitRunAll(s: string)
    requires forall i :: 0 <= i < |s| ==> IsDigit(s[i])
    ensures DigitRun(s) == |s|
    decreases |s|
  {
    if |s| > 0 {
      DigitRunAll(s[1..]);
    }
  }

  /** Lines as successive `readline()` calls return them: every line but
      possibly the last ends with its newline, no line holds a newline
      before its end, and no line is empty. */
  function SplitLines(text: string): (lines: seq<string>)
    ensures forall i :: 0 <= i < |lines| ==> |lines[i]| > 0
    ensures forall i :: 0 <= i < |lines| - 1 ==> lines[i][|lines[i]| - 1] == '\n'
    ensures forall i, k :: 0 <= i < |lines| && 0 <= k < |lines[i]| - 1 ==> lines[i][k] != '\n'
    ensures Concat(lines) == text
    decreases |text|
  {
    if |text| == 0 then []
    else
      var n := LineLength(text);
      [text[..n]] + SplitLines(text[n..])
  }

  /** Length of the first line of a non-empty text, newline included. */
  function LineLength(text: string): (n: nat)
    requires |text| > 0
    ensures 0 < n <= |text|
    ensures forall i :: 0 <= i < n - 1 ==> text[i] != '\n'
    ensures n < |text| ==> text[n - 1] == '\n'
    decreases |text|
  {
    if text[0] == '\n' || |text| == 1 then 1 else 1 + LineLength(text[1..])
  }

  function Concat(lines: seq<string>): string
    decreases |lines|
  {
    if |lines| == 0 then [] else lines[0] + Concat(lines[1..])
  }
}
