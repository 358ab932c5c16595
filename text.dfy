/** The string primitives parse_pdf relies on: str.strip(), the regular
    expression `^(\d+)\.` that recognises a question heading, and the
    case-insensitive test for the "comcbt" watermark. */
module Text {
  import opened Wrappers

  /** Python's str.isspace() for one character: the characters str.strip()
      removes when called without arguments. */
  predicate IsSpace(c: char) {
    c == ' ' || '\t' <= c <= '\r' || '\U{1C}' <= c <= '\U{1F}'
    || c == '\U{85}' || c == '\U{A0}' || c == '\U{1680}'
    || '\U{2000}' <= c <= '\U{200A}' || c == '\U{2028}' || c == '\U{2029}'
    || c == '\U{202F}' || c == '\U{205F}' || c == '\U{3000}'
  }

  /** No whitespace at either end: the shape of everything str.strip() returns. */
  predicate Trimmed(s: string) {
    s == [] || (!IsSpace(s[0]) && !IsSpace(s[|s| - 1]))
  }

  /** r is s[i..i + |r|], and everything of s outside it is whitespace. */
  predicate CutAt(r: string, s: string, i: nat) {
    i + |r| <= |s| && r == s[i..i + |r|]
    && (forall k :: 0 <= k < i ==> IsSpace(s[k]))
    && (forall k :: i + |r| <= k < |s| ==> IsSpace(s[k]))
  }

  function TrimStart(s: string): (r: string)
    ensures |r| <= |s|
  {
    if s != [] && IsSpace(s[0]) then TrimStart(s[1..]) else s
  }

  /** TrimStart drops a whitespace prefix, and what is left does not start
      with whitespace. */
  lemma {:induction false} TrimStartSpec(s: string)
    ensures TrimStart(s) == s[|s| - |TrimStart(s)|..]
    ensures forall k :: 0 <= k < |s| - |TrimStart(s)| ==> IsSpace(s[k])
    ensures TrimStart(s) == [] || !IsSpace(TrimStart(s)[0])
  {
    if s != [] && IsSpace(s[0]) {
      TrimStartSpec(s[1..]);
      var r := TrimStart(s);
      assert forall k :: 1 <= k < |s| - |r| ==> s[k] == s[1..][k - 1];
    }
  }

  function TrimEnd(s: string): string {
    if s != [] && IsSpace(s[|s| - 1]) then TrimEnd(s[..|s| - 1]) else s
  }

  /** TrimEnd drops a whitespace suffix, and what is left does not end with
      whitespace. */
  lemma {:induction false} TrimEndSpec(s: string)
    ensures |TrimEnd(s)| <= |s| && TrimEnd(s) == s[..|TrimEnd(s)|]
    ensures forall k :: |TrimEnd(s)| <= k < |s| ==> IsSpace(s[k])
    ensures TrimEnd(s) == [] || !IsSpace(TrimEnd(s)[|TrimEnd(s)| - 1])
  {
    if s != [] && IsSpace(s[|s| - 1]) {
      TrimEndSpec(s[..|s| - 1]);
    }
  }

  /** str.strip(): s without its leading and trailing whitespace. */
  function Strip(s: string): string {
    TrimEnd(TrimStart(s))
  }

  /** A leading cut at i followed by a trailing cut to |r| is a cut of s
      at i from both ends. */
  lemma CutCompose(s: string, t: string, r: string, i: nat)
    requires i <= |s| && t == s[i..]
    requires forall k :: 0 <= k < i ==> IsSpace(s[k])
    requires |r| <= |t| && r == t[..|r|]
    requires forall k :: |r| <= k < |t| ==> IsSpace(t[k])
    ensures CutAt(r, s, i)
  {
    forall k | i + |r| <= k < |s|
      ensures IsSpace(s[k])
    {
      assert s[k] == t[k - i];
    }
  }

  /** What strip() returns is stripped, and is s with whitespace cut from both
      ends. */
  lemma StripSpec(s: string)
    ensures Trimmed(Strip(s)) && CutAt(Strip(s), s, |s| - |TrimStart(s)|)
  {
    var t := TrimStart(s);
    var r := TrimEnd(t);
    TrimStartSpec(s);
    TrimEndSpec(t);
    assert Trimmed(r) by {
      if r != [] {
        assert r[0] == t[0];
      }
    }
    CutCompose(s, t, r, |s| - |t|);
  }

  /** Strip is the only function with its contract: a trimmed string cut from
      s between two whitespace runs is exactly Strip(s). */
  lemma {:induction false} StripUnique(r: string, s: string, i: nat)
    requires Trimmed(r) && CutAt(r, s, i)
    ensures r == Strip(s)
  {
    var t := TrimStart(s);
    TrimStartSpec(s);
    TrimEndSpec(t);
    if r != [] {
      assert !IsSpace(s[i]);
      assert |s| - |t| == i;
      assert !IsSpace(t[|r| - 1]);
    }
  }

  /** The text joined at a1.py:50 needs no trimming when both halves are
      already trimmed and non-empty. */
  lemma StripJoin(a: string, b: string)
    requires a != [] && b != [] && Trimmed(a) && Trimmed(b)
    ensures Strip(a + " " + b) == a + " " + b
    ensures Trimmed(a + " " + b)
  {
    var j := a + " " + b;
    assert j[0] == a[0] && j[|j| - 1] == b[|b| - 1];
  }

  /** `\d` for the digits an exam paper carries: ASCII and full-width. */
  predicate IsDigit(c: char) {
    '0' <= c <= '9' || '\U{FF10}' <= c <= '\U{FF19}'
  }

  /** Length of the longest all-digit prefix of s. */
  function DigitRun(s: string): nat {
    if s != [] && IsDigit(s[0]) then 1 + DigitRun(s[1..]) else 0
  }

  /** DigitRun is the length of the longest all-digit prefix. */
  lemma {:induction false} DigitRunSpec(s: string)
    ensures DigitRun(s) <= |s|
    ensures forall k :: 0 <= k < DigitRun(s) ==> IsDigit(s[k])
    ensures DigitRun(s) < |s| ==> !IsDigit(s[DigitRun(s)])
  {
    if s != [] && IsDigit(s[0]) {
      DigitRunSpec(s[1..]);
      assert forall k :: 1 <= k < |s| ==> s[k] == s[1..][k - 1];
    }
  }

  /** What `re.match(r'^(\d+)\.', s)` accepts: some non-empty run of digits
      at the start, followed by a period. */
  ghost predicate OpensWithNumber(s: string) {
    exists n :: 1 <= n < |s| && s[n] == '.' && forall k :: 0 <= k < n ==> IsDigit(s[k])
  }

  /** The captured group 1 of `^(\d+)\.` on s, or None when it does not match. */
  function QuestionNumber(s: string): Option<string> {
    var n := DigitRun(s);
    if 0 < n < |s| && s[n] == '.' then Some(s[..n]) else None
  }

  /** The captured number is a non-empty run of digits opening s, followed
      by a period. */
  lemma QuestionNumberSpec(s: string)
    ensures QuestionNumber(s).Some? ==>
              && QuestionNumber(s).value != [] && |QuestionNumber(s).value| < |s|
              && QuestionNumber(s).value == s[..|QuestionNumber(s).value|]
              && s[|QuestionNumber(s).value|] == '.'
    ensures QuestionNumber(s).Some? ==>
              forall k :: 0 <= k < |QuestionNumber(s).value| ==> IsDigit(QuestionNumber(s).value[k])
  {
    DigitRunSpec(s);
  }

  lemma {:induction false} DigitRunAt(s: string, n: nat)
    requires n < |s| && !IsDigit(s[n]) && forall k :: 0 <= k < n ==> IsDigit(s[k])
    ensures DigitRun(s) == n
  {
    if n > 0 {
      DigitRunAt(s[1..], n - 1);
    }
  }

  /** A text opening with the digits `num` and a period has number `num`. */
  lemma QuestionNumberOf(s: string, num: string)
    requires num != [] && |num| < |s| && s[..|num| + 1] == num + "."
    requires forall k :: 0 <= k < |num| ==> IsDigit(num[k])
    ensures QuestionNumber(s) == Some(num)
  {
    var n := |num|;
    assert s[n] == (num + ".")[n] == '.';
    assert forall k :: 0 <= k < n ==> s[k] == s[..n + 1][k] == num[k];
    DigitRunAt(s, n);
    assert s[..n] == num;
  }

  /** QuestionNumber finds a number exactly when the regular expression
      matches, backtracking included. */
  lemma QuestionNumberMatches(s: string)
    ensures QuestionNumber(s).Some? <==> OpensWithNumber(s)
  {
    DigitRunSpec(s);
    if OpensWithNumber(s) {
      var n :| 1 <= n < |s| && s[n] == '.' && forall k :: 0 <= k < n ==> IsDigit(s[k]);
      assert !IsDigit(s[n]);
    }
  }

  /** str.lower() on the characters that can lower into "comcbt": only the
      ASCII capitals do, so the other characters are kept as they are. The
      result is a lower-case ASCII letter exactly when c is an ASCII letter,
      and then it is c's own lower-case form. */
  function LowerChar(c: char): (d: char)
    ensures 'a' <= d <= 'z' <==> 'a' <= c <= 'z' || 'A' <= c <= 'Z'
    ensures 'a' <= d <= 'z' ==> d as int - c as int in {0, 32}
  {
    if 'A' <= c <= 'Z' then (c as int + 32) as char else c
  }

  function Lower(s: string): string {
    seq(|s|, k requires 0 <= k < |s| => LowerChar(s[k]))
  }

  /** Python's `needle in hay` on strings. */
  predicate Contains(hay: string, needle: string)
    decreases |hay|
  {
    |needle| <= |hay| && (hay[..|needle|] == needle || Contains(hay[1..], needle))
  }

  /** needle sits in hay starting at position i. */
  predicate OccursAt(hay: string, needle: string, i: nat) {
    i + |needle| <= |hay| && hay[i..i + |needle|] == needle
  }

  /** Contains is substring search: the needle occurs at some position. */
  lemma {:induction false} ContainsMatches(hay: string, needle: string)
    ensures Contains(hay, needle) <==> exists i: nat :: OccursAt(hay, needle, i)
    decreases |hay|
  {
    if |needle| <= |hay| && hay[..|needle|] != needle {
      ContainsMatches(hay[1..], needle);
      if Contains(hay[1..], needle) {
        var i: nat :| OccursAt(hay[1..], needle, i);
        assert OccursAt(hay, needle, i + 1);
      }
      if i: nat :| OccursAt(hay, needle, i) {
        assert i != 0;
        assert OccursAt(hay[1..], needle, i - 1);
      }
    } else if |needle| <= |hay| {
      assert OccursAt(hay, needle, 0);
    }
  }

  /** `"comcbt" in s.lower()`: the site watermark printed on every page. */
  predicate MentionsComcbt(s: string) {
    Contains(Lower(s), "comcbt")
  }
}
