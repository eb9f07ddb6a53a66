/** The string operations of Python the tool relies on: the `\s` class,
    `str.find`, `str.strip('\n')`, `str.count`, `str.lower`, `str.endswith`
    and `str.join`. */
module Text {

  /** The `\s` class of a Python 3 `str` pattern: the characters for which
      `str.isspace()` holds (ASCII tab, line feed, vertical tab, form feed,
      carriage return, the four information separators, space, and the
      Unicode space and line/paragraph separators). */
  predicate IsSpace(c: char) {
    || '\t' <= c <= '\r'
    || '\U{1c}' <= c <= '\U{1f}'
    || c == ' '
    || c == '\U{85}'
    || c == '\U{a0}'
    || c == '\U{1680}'
    || '\U{2000}' <= c <= '\U{200a}'
    || c == '\U{2028}'
    || c == '\U{2029}'
    || c == '\U{202f}'
    || c == '\U{205f}'
    || c == '\U{3000}'
  }

  /** Python's `s.find(c, from)`, with `|s|` in place of -1 when `c` does not
      occur at or after `from`. */
  function Find(s: string, c: char, from: nat): (i: nat)
    requires from <= |s|
    ensures from <= i <= |s|
    ensures forall k :: from <= k < i ==> s[k] != c
    ensures i < |s| ==> s[i] == c
    decreases |s| - from
  {
    if from == |s| || s[from] == c then from else Find(s, c, from + 1)
  }

  /** `Find` stops at the first `c`. */
  lemma FindAt(s: string, c: char, from: nat, i: nat)
    requires from <= i < |s| && s[i] == c
    requires forall k :: from <= k < i ==> s[k] != c
    ensures Find(s, c, from) == i
  {
  }

  /** Python's `s.strip('\n')`: line feeds removed from both ends. */
  function StripNewlines(s: string): (r: string)
    ensures |r| <= |s|
    ensures r == [] || (r[0] != '\n' && r[|r| - 1] != '\n')
    decreases |s|
  {
    if |s| > 0 && s[0] == '\n' then StripNewlines(s[1..])
    else if |s| > 0 && s[|s| - 1] == '\n' then StripNewlines(s[..|s| - 1])
    else s
  }

  /** Stripping keeps every character other than a line feed, as often as it
      occurs in `s`. */
  lemma {:induction false} StripNewlinesKeeps(s: string, c: char)
    requires c != '\n'
    ensures Count(StripNewlines(s), c) == Count(s, c)
    decreases |s|
  {
    if |s| > 0 && s[0] == '\n' {
      assert s == [s[0]] + s[1..];
      CountAppend([s[0]], s[1..], c);
      StripNewlinesKeeps(s[1..], c);
    } else if |s| > 0 && s[|s| - 1] == '\n' {
      assert s == s[..|s| - 1] + [s[|s| - 1]];
      CountAppend(s[..|s| - 1], [s[|s| - 1]], c);
      StripNewlinesKeeps(s[..|s| - 1], c);
    }
  }

  /** `strip('\n')` cuts off the line feeds at both ends and keeps the middle
      of the string as it is. */
  lemma {:induction false} StripNewlinesInfix(s: string) returns (i: nat, j: nat)
    ensures i <= j <= |s| && StripNewlines(s) == s[i..j]
    ensures forall k :: 0 <= k < i ==> s[k] == '\n'
    ensures forall k :: j <= k < |s| ==> s[k] == '\n'
    decreases |s|
  {
    if |s| > 0 && s[0] == '\n' {
      var i', j' := StripNewlinesInfix(s[1..]);
      i, j := i' + 1, j' + 1;
      assert s[1..][i'..j'] == s[i..j];
      forall k | 0 <= k < i ensures s[k] == '\n' {
        if k > 0 { assert s[k] == s[1..][k - 1]; }
      }
      forall k | j <= k < |s| ensures s[k] == '\n' {
        assert s[k] == s[1..][k - 1];
      }
    } else if |s| > 0 && s[|s| - 1] == '\n' {
      var init := s[..|s| - 1];
      i, j := StripNewlinesInfix(init);
      assert init[i..j] == s[i..j];
      assert i == 0;
      forall k | j <= k < |s| ensures s[k] == '\n' {
        if k < |s| - 1 { assert s[k] == init[k]; }
      }
    } else {
      i, j := 0, |s|;
    }
  }

  /** Number of occurrences of `c` in `s`, Python's `s.count(c)`. */
  function Count(s: string, c: char): nat
  {
    if s == [] then 0 else (if s[0] == c then 1 else 0) + Count(s[1..], c)
  }

  lemma {:induction false} CountAppend(a: string, b: string, c: char)
    ensures Count(a + b, c) == Count(a, c) + Count(b, c)
  {
    if a == [] {
      assert a + b == b;
    } else {
      assert (a + b)[1..] == a[1..] + b;
      CountAppend(a[1..], b, c);
    }
  }

  lemma {:induction false} CountZero(s: string, c: char)
    ensures Count(s, c) == 0 <==> c !in s
  {
    if s != [] {
      CountZero(s[1..], c);
      assert s == [s[0]] + s[1..];
    }
  }

  /** A line read from a text file is its text followed by at most one line
      feed; stripping gives back the text. */
  lemma StripLineTerminator(body: string)
    requires '\n' !in body
    ensures StripNewlines(body + "\n") == body
    ensures StripNewlines(body) == body
  {
    var line := body + "\n";
    assert line[..|line| - 1] == body;
    if body != [] {
      assert line[0] == body[0];
      assert body[|body| - 1] in body;
    }
  }

  /** Python's `str.lower()` on one character, for the ASCII letters. */
  function LowerChar(c: char): (d: char)
    ensures 'A' <= c <= 'Z' ==> 'a' <= d <= 'z'
    ensures !('A' <= c <= 'Z') ==> d == c
  {
    if 'A' <= c <= 'Z' then (c as int + 32) as char else c
  }

  function Lower(s: string): (r: string)
    ensures |r| == |s|
    ensures forall i :: 0 <= i < |s| ==> r[i] == LowerChar(s[i])
  {
    seq(|s|, i requires 0 <= i < |s| => LowerChar(s[i]))
  }

  /** Python's `s.endswith(suffix)`. */
  predicate EndsWith(s: string, suffix: string) {
    |suffix| <= |s| && s[|s| - |suffix|..] == suffix
  }

  /** Python's `sep.join(parts)`. */
  function Join(parts: seq<string>, sep: string): string
  {
    if |parts| == 0 then ""
    else if |parts| == 1 then parts[0]
    else parts[0] + sep + Join(parts[1..], sep)
  }

  /** The strings of `parts` one after the other (`"".join(parts)`). */
  function Concat(parts: seq<string>): string
  {
    if |parts| == 0 then "" else parts[0] + Concat(parts[1..])
  }

  lemma JoinCons(p: string, ps: seq<string>, sep: string)
    requires |ps| > 0
    ensures Join([p] + ps, sep) == p + sep + Join(ps, sep)
  {
    assert ([p] + ps)[1..] == ps;
  }
}
