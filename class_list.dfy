/** The class-list file reader, `parse_classes` in main.py: every line of the
    file, stripped of line feeds, is split on the pattern `\s*;\s*` and the
    pieces of all lines are returned in file order. */
module ClassList {
  import opened Text
  import opened Wrappers
  import opened FileSystem

  // ---------------------------------------------------------------------------
  // Scanning a row for the pattern `\s*;\s*`
  // ---------------------------------------------------------------------------

  /** Where a match of `\s*` ending at `hi` starts when the search began at
      `lo`: the start of the whitespace run just before `hi`, but not before `lo`. */
  function BackSpaces(s: string, lo: nat, hi: nat): (b: nat)
    requires lo <= hi <= |s|
    ensures lo <= b <= hi
    ensures forall k :: b <= k < hi ==> IsSpace(s[k])
    ensures b == lo || !IsSpace(s[b - 1])
    decreases hi
  {
    if hi > lo && IsSpace(s[hi - 1]) then BackSpaces(s, lo, hi - 1) else hi
  }

  /** Where the greedy `\s*` starting at `from` ends. */
  function SkipSpaces(s: string, from: nat): (j: nat)
    requires from <= |s|
    ensures from <= j <= |s|
    ensures forall k :: from <= k < j ==> IsSpace(s[k])
    ensures j == |s| || !IsSpace(s[j])
    decreases |s| - from
  {
    if from < |s| && IsSpace(s[from]) then SkipSpaces(s, from + 1) else from
  }

  lemma {:induction false} BackSpacesAt(s: string, lo: nat, hi: nat, b: nat)
    requires lo <= b <= hi <= |s|
    requires forall k :: b <= k < hi ==> IsSpace(s[k])
    requires b == lo || !IsSpace(s[b - 1])
    ensures BackSpaces(s, lo, hi) == b
    decreases hi
  {
    if hi > b {
      BackSpacesAt(s, lo, hi - 1, b);
    }
  }

  lemma {:induction false} SkipSpacesAt(s: string, from: nat, j: nat)
    requires from <= j <= |s|
    requires forall k :: from <= k < j ==> IsSpace(s[k])
    requires j == |s| || !IsSpace(s[j])
    ensures SkipSpaces(s, from) == j
    decreases |s| - from
  {
    if from < j {
      SkipSpacesAt(s, from + 1, j);
    }
  }

  // ---------------------------------------------------------------------------
  // re.split(r"\s*;\s*", row)
  // ---------------------------------------------------------------------------

  /** `re.split(split_row_pattern, s[from..])`. The leftmost match of
      `\s*;\s*` starts at the whitespace run just before the next `;` and,
      its trailing `\s*` being greedy, ends at the first non-whitespace
      character after it; the piece before it is cut off and the search goes
      on after the match. */
  function SplitFrom(s: string, from: nat): (r: seq<string>)
    requires from <= |s|
    ensures |r| >= 1
    decreases |s| - from
  {
    var i := Find(s, ';', from);
    if i == |s| then [s[from..]]
    else [s[from..BackSpaces(s, from, i)]] + SplitFrom(s, SkipSpaces(s, i + 1))
  }

  /** `re.split(split_row_pattern, s)`. */
  function SplitRow(s: string): seq<string>
  {
    SplitFrom(s, 0)
  }

  /** `g` is a string the pattern `\s*;\s*` matches as a whole: one `;`, and
      whitespace everywhere else. */
  ghost predicate IsSeparator(g: string) {
    && ';' in g
    && (forall k :: 0 <= k < |g| ==> g[k] == ';' || IsSpace(g[k]))
    && (forall k, l :: 0 <= k < l < |g| && g[k] == ';' ==> g[l] != ';')
  }

  /** The texts the matches of `\s*;\s*` in `s[from..]` take, in order. */
  ghost function GapsFrom(s: string, from: nat): seq<string>
    requires from <= |s|
    decreases |s| - from
  {
    var i := Find(s, ';', from);
    if i == |s| then []
    else [s[BackSpaces(s, from, i)..SkipSpaces(s, i + 1)]] + GapsFrom(s, SkipSpaces(s, i + 1))
  }

  /** `ps[0] + gs[0] + ps[1] + gs[1] + ... + ps[|ps| - 1]` */
  function Interleave(ps: seq<string>, gs: seq<string>): string
    requires |ps| == |gs| + 1
  {
    if |gs| == 0 then ps[0] else ps[0] + gs[0] + Interleave(ps[1..], gs[1..])
  }

  /** No piece holds a `;`, no piece ends in whitespace before a separator and
      none starts with whitespace after one. */
  ghost predicate WellSeparated(ps: seq<string>) {
    && (forall k :: 0 <= k < |ps| ==> ';' !in ps[k])
    && (forall k :: 0 < k < |ps| ==> ps[k] == [] || !IsSpace(ps[k][0]))
    && (forall k :: 0 <= k < |ps| - 1 ==> ps[k] == [] || !IsSpace(ps[k][|ps[k]| - 1]))
  }

  /** `s` is the pieces `ps` separated by texts each matching `\s*;\s*`, and
      every separator takes all the whitespace next to its `;`. */
  ghost predicate IsSplitting(s: string, ps: seq<string>, gs: seq<string>) {
    && |ps| == |gs| + 1
    && Interleave(ps, gs) == s
    && (forall k :: 0 <= k < |gs| ==> IsSeparator(gs[k]))
    && WellSeparated(ps)
  }

  /** A splitting grows by one piece and one separator at the front. */
  lemma ConsSplitting(head: string, gap: string, tail: string, ps: seq<string>, gs: seq<string>)
    requires IsSplitting(tail, ps, gs)
    requires IsSeparator(gap) && ';' !in head
    requires head == [] || !IsSpace(head[|head| - 1])
    requires ps[0] == [] || !IsSpace(ps[0][0])
    ensures IsSplitting(head + gap + tail, [head] + ps, [gap] + gs)
  {
    var ps', gs' := [head] + ps, [gap] + gs;
    assert ps'[1..] == ps && gs'[1..] == gs;
    assert Interleave(ps', gs') == head + gap + tail;
    assert forall k :: 0 < k < |ps'| ==> ps'[k] == ps[k - 1];
    assert forall k :: 0 < k < |gs'| ==> gs'[k] == gs[k - 1];
  }

  /** Dropping the first piece and separator of a splitting leaves a splitting
      of the rest. */
  lemma SplittingTail(t: string, ps: seq<string>, gs: seq<string>)
    requires IsSplitting(t, ps, gs) && |gs| > 0
    ensures t == ps[0] + gs[0] + Interleave(ps[1..], gs[1..])
    ensures IsSplitting(Interleave(ps[1..], gs[1..]), ps[1..], gs[1..])
  {
    WellSeparatedTail(ps);
    assert forall m :: 0 <= m < |gs| - 1 ==> gs[1..][m] == gs[m + 1];
  }

  /** The pieces after the first of a splitting are well separated too. */
  lemma WellSeparatedTail(ps: seq<string>)
    requires |ps| > 0 && WellSeparated(ps)
    ensures WellSeparated(ps[1..])
  {
    assert forall k :: 0 <= k < |ps| - 1 ==> ps[1..][k] == ps[k + 1];
  }

  /** Whitespace, a `;`, whitespace: the slice is a separator. */
  lemma SliceIsSeparator(s: string, b: nat, i: nat, j: nat)
    requires b <= i < j <= |s| && s[i] == ';'
    requires forall k :: b <= k < i ==> IsSpace(s[k])
    requires forall k :: i < k < j ==> IsSpace(s[k])
    ensures IsSeparator(s[b..j])
  {
    var g := s[b..j];
    assert g[i - b] == ';';
    assert forall k :: 0 <= k < |g| ==> g[k] == s[b + k];
  }

  /** A slice with no `c` at any of its indices holds no `c`. */
  lemma SliceWithout(s: string, a: nat, b: nat, c: char)
    requires a <= b <= |s|
    requires forall k :: a <= k < b ==> s[k] != c
    ensures c !in s[a..b]
  {
    assert forall k :: 0 <= k < b - a ==> s[a..b][k] == s[a + k];
  }

  /** The match of `\s*;\s*` that a search from `from` finds takes `s[b..j]`,
      with its `;` at `i`. */
  ghost predicate IsMatch(s: string, from: nat, b: nat, i: nat, j: nat) {
    && from <= b <= i < j <= |s| && s[i] == ';'
    && (forall k :: from <= k < i ==> s[k] != ';')
    && (forall k :: b <= k < i ==> IsSpace(s[k]))
    && (b == from || !IsSpace(s[b - 1]))
    && (forall k :: i < k < j ==> IsSpace(s[k]))
    && (j == |s| || !IsSpace(s[j]))
  }

  /** The match the scanners find from `from`, when a `;` is left. */
  lemma FirstMatch(s: string, from: nat)
    requires from <= |s| && Find(s, ';', from) < |s|
    ensures IsMatch(s, from, BackSpaces(s, from, Find(s, ';', from)),
                    Find(s, ';', from), SkipSpaces(s, Find(s, ';', from) + 1))
  {
  }

  /** The scanners find the match `IsMatch` describes. */
  lemma MatchIsFound(s: string, from: nat, b: nat, i: nat, j: nat)
    requires IsMatch(s, from, b, i, j)
    ensures Find(s, ';', from) == i
    ensures BackSpaces(s, from, i) == b
    ensures SkipSpaces(s, i + 1) == j
  {
    FindAt(s, ';', from, i);
    BackSpacesAt(s, from, i, b);
    SkipSpacesAt(s, i + 1, j);
  }

  /** Cutting `s[a..]` at `b` and at `c`. */
  lemma SliceInThree(s: string, a: nat, b: nat, c: nat)
    requires a <= b <= c <= |s|
    ensures s[a..] == s[a..b] + s[b..c] + s[c..]
  {
  }

  /** One match in front of a splitting of the rest of the row. */
  lemma MatchThenSplitting(s: string, from: nat, b: nat, i: nat, j: nat, ps: seq<string>, gs: seq<string>)
    requires IsMatch(s, from, b, i, j) && IsSplitting(s[j..], ps, gs)
    requires ps[0] == [] || !IsSpace(ps[0][0])
    ensures IsSplitting(s[from..], [s[from..b]] + ps, [s[b..j]] + gs)
  {
    SliceIsSeparator(s, b, i, j);
    SliceWithout(s, from, b, ';');
    SliceInThree(s, from, b, j);
    ConsSplitting(s[from..b], s[b..j], s[j..], ps, gs);
  }

  /** The first piece a search from `from` finds starts with `s[from]`. */
  lemma SplitFromStart(s: string, from: nat)
    requires from < |s|
    ensures SplitFrom(s, from)[0] == [] || SplitFrom(s, from)[0][0] == s[from]
  {
  }

  /** One step of the soundness proof: the search from `from` finds a match
      ending at `j`, and a splitting from `j` on extends to one from `from`. */
  lemma SoundStep(s: string, from: nat) returns (j: nat)
    requires from <= |s| && Find(s, ';', from) < |s|
    ensures from < j <= |s|
    ensures IsSplitting(s[j..], SplitFrom(s, j), GapsFrom(s, j)) ==>
      IsSplitting(s[from..], SplitFrom(s, from), GapsFrom(s, from))
  {
    var i := Find(s, ';', from);
    var b := BackSpaces(s, from, i);
    j := SkipSpaces(s, i + 1);
    FirstMatch(s, from);
    var ps, gs := SplitFrom(s, j), GapsFrom(s, j);
    if IsSplitting(s[j..], ps, gs) {
      if j < |s| {
        SplitFromStart(s, j);
      }
      MatchThenSplitting(s, from, b, i, j, ps, gs);
      SplitFromAtMatch(s, from, b, i, j, s[from..b], ps);
      GapsFromAtMatch(s, from, b, i, j, s[b..j], gs);
    }
  }

  /** Soundness of the split: the pieces and the separators the matches take
      rebuild the row, and every piece has the shape the pattern forces. */
  lemma {:induction false} SplitFromIsSplitting(s: string, from: nat)
    requires from <= |s|
    ensures IsSplitting(s[from..], SplitFrom(s, from), GapsFrom(s, from))
    decreases |s| - from
  {
    if Find(s, ';', from) < |s| {
      var j := SoundStep(s, from);
      SplitFromIsSplitting(s, j);
    } else {
      NoMatchSplitting(s, from);
    }
  }

  /** With no `;` left, the rest of the row is the last piece. */
  lemma NoMatchSplitting(s: string, from: nat)
    requires from <= |s| && Find(s, ';', from) == |s|
    ensures IsSplitting(s[from..], SplitFrom(s, from), GapsFrom(s, from))
  {
    SliceWithout(s, from, |s|, ';');
    assert s[from..|s|] == s[from..];
  }

  /** The pieces `re.split` returns and the texts of its matches rebuild the
      row, and every piece has the shape the pattern forces. */
  lemma SplitRowIsSplitting(s: string)
    ensures IsSplitting(s, SplitRow(s), GapsFrom(s, 0))
  {
    SplitFromIsSplitting(s, 0);
    assert s[0..] == s;
  }

  // ---------------------------------------------------------------------------
  // Completeness: a splitting is what re.split finds
  // ---------------------------------------------------------------------------

  /** The characters of `s[from..] == x + y + z`, part by part. */
  lemma SliceOfThree(s: string, from: nat, x: string, y: string, z: string)
    requires from <= |s| && s[from..] == x + y + z
    ensures from + |x| + |y| <= |s|
    ensures forall m :: 0 <= m < |x| ==> s[from + m] == x[m]
    ensures forall m :: 0 <= m < |y| ==> s[from + |x| + m] == y[m]
    ensures s[from + |x| + |y|..] == z
  {
    forall m | 0 <= m < |x| ensures s[from + m] == x[m] {
      assert s[from..][m] == (x + y + z)[m];
    }
    forall m | 0 <= m < |y| ensures s[from + |x| + m] == y[m] {
      assert s[from..][|x| + m] == (x + y + z)[|x| + m];
    }
    assert s[from + |x| + |y|..] == s[from..][|x| + |y|..];
  }

  /** The one `;` of a separator; everything else in it is whitespace. */
  lemma SeparatorSemicolon(g: string) returns (k: nat)
    requires IsSeparator(g)
    ensures k < |g| && g[k] == ';'
    ensures forall m :: 0 <= m < |g| && m != k ==> IsSpace(g[m])
  {
    k :| 0 <= k < |g| && g[k] == ';';
    forall m | 0 <= m < |g| && m != k ensures IsSpace(g[m]) {
      if m < k {
        assert g[m] != ';';
      }
    }
  }

  /** A separator from its `;` on is a separator too. */
  lemma SeparatorFromSemicolon(g: string, k: nat)
    requires IsSeparator(g) && k < |g| && g[k] == ';'
    ensures IsSeparator(g[k..])
  {
    assert g[k..][0] == ';';
    assert forall m :: 0 <= m < |g| - k ==> g[k..][m] == g[k + m];
  }

  /** A piece followed by a separator in `s[from..]`: the search from `from`
      meets that separator's `;` first, and its match starts right after the
      piece. */
  lemma PieceThenSeparator(s: string, from: nat, p: string, g: string, rest: string)
      returns (b: nat, i: nat, e: nat)
    requires from <= |s| && s[from..] == p + g + rest && IsSeparator(g) && ';' !in p
    requires p == [] || !IsSpace(p[|p| - 1])
    ensures b == from + |p| && b <= i < e == b + |g| <= |s| && s[i] == ';'
    ensures forall k :: from <= k < i ==> s[k] != ';'
    ensures forall k :: b <= k < i ==> IsSpace(s[k])
    ensures b == from || !IsSpace(s[b - 1])
    ensures forall k :: i < k < e ==> IsSpace(s[k])
    ensures s[e..] == rest
  {
    var k := SeparatorSemicolon(g);
    SliceOfThree(s, from, p, g, rest);
    b, i, e := from + |p|, from + |p| + k, from + |p| + |g|;
    forall m | from <= m < b ensures s[m] != ';' {
      assert s[m] == p[m - from];
    }
  }

  /** A splitting of `s[from..]` with at least one separator: the search from
      `from` finds a match that starts right after the first piece, and the
      rest of the row after the match is split into the remaining pieces. When
      the second piece is empty, the greedy `\s*` also takes the leading
      whitespace of the next separator. */
  lemma FirstMatchOfSplitting(s: string, from: nat, ps: seq<string>, gs: seq<string>)
      returns (b: nat, i: nat, j: nat, gs': seq<string>)
    requires from <= |s| && IsSplitting(s[from..], ps, gs) && |gs| > 0
    ensures IsMatch(s, from, b, i, j) && b == from + |ps[0]|
    ensures IsSplitting(s[j..], ps[1..], gs')
  {
    SplittingTail(s[from..], ps, gs);
    var rest := Interleave(ps[1..], gs[1..]);
    var e;
    b, i, e := PieceThenSeparator(s, from, ps[0], gs[0], rest);
    if ps[1] != [] || |gs| == 1 {
      j, gs' := e, gs[1..];
      assert rest == [] || rest[0] == ps[1][0];
    } else {
      j, gs' := SkipIntoSeparator(s, e, ps[1..], gs[1..]);
    }
  }

  /** The rest of the row starts with an empty piece: the greedy `\s*` runs on
      to the `;` of the next separator, and what follows the skipped
      whitespace is still split into the same pieces. */
  lemma SkipIntoSeparator(s: string, e: nat, ps: seq<string>, gs: seq<string>)
      returns (j: nat, gs': seq<string>)
    requires e <= |s| && IsSplitting(s[e..], ps, gs) && |gs| > 0 && ps[0] == []
    ensures e <= j < |s| && s[j] == ';'
    ensures forall k :: e <= k < j ==> IsSpace(s[k])
    ensures IsSplitting(s[j..], ps, gs')
  {
    SplittingTail(s[e..], ps, gs);
    var g := gs[0];
    var more := Interleave(ps[1..], gs[1..]);
    var k := SeparatorSemicolon(g);
    SliceOfThree(s, e, [], g, more);
    j := e + k;
    SeparatorFromSemicolon(g, k);
    assert ps[1..][0] == ps[1];
    ConsSplitting([], g[k..], more, ps[1..], gs[1..]);
    gs' := [g[k..]] + gs[1..];
    assert [[]] + ps[1..] == ps;
    assert s[j..] == g[k..] + more by {
      assert s[e..] == g + more;
      assert s[j..] == s[e..][k..];
    }
  }

  /** Where the search from `from` finds a match, its text is the first
      separator and the separators after it are those from its end on. */
  lemma GapsFromAtMatch(s: string, from: nat, b: nat, i: nat, j: nat, g: string, gs: seq<string>)
    requires IsMatch(s, from, b, i, j) && s[b..j] == g && GapsFrom(s, j) == gs
    ensures GapsFrom(s, from) == [g] + gs
  {
    MatchIsFound(s, from, b, i, j);
    assert Find(s, ';', from) < |s|;
  }

  /** Where the search from `from` finds a match, the first piece ends where
      the match starts and the split goes on after the match. */
  lemma SplitFromAtMatch(s: string, from: nat, b: nat, i: nat, j: nat, p: string, ps: seq<string>)
    requires IsMatch(s, from, b, i, j) && s[from..b] == p && SplitFrom(s, j) == ps
    ensures SplitFrom(s, from) == [p] + ps
  {
    MatchIsFound(s, from, b, i, j);
    assert Find(s, ';', from) < |s|;
  }

  /** A row without a `;` from `from` on is one piece. */
  lemma SplitFromWithout(s: string, from: nat, p: string)
    requires from <= |s| && s[from..] == p && ';' !in p
    ensures SplitFrom(s, from) == [p]
  {
    forall m | from <= m < |s| ensures s[m] != ';' {
      assert s[m] == p[m - from];
    }
  }

  /** The text of `s` from `from` on starts with `x`. */
  lemma PrefixSlice(s: string, from: nat, x: string, y: string)
    requires from <= |s| && s[from..] == x + y
    ensures from + |x| <= |s| && s[from..from + |x|] == x
  {
    assert s[from..from + |x|] == s[from..][..|x|];
  }

  /** The first piece of a splitting of `s[from..]` is the text from `from` on. */
  lemma SplittingFirstPiece(s: string, from: nat, ps: seq<string>, gs: seq<string>)
    requires from <= |s| && IsSplitting(s[from..], ps, gs) && |gs| > 0
    ensures from + |ps[0]| <= |s| && s[from..from + |ps[0]|] == ps[0]
  {
    SplittingTail(s[from..], ps, gs);
    PrefixSlice(s, from, ps[0], gs[0] + Interleave(ps[1..], gs[1..]));
  }

  /** One step of the completeness proof: the search from `from` cuts off the
      first piece, and if the rest is split right, so is the whole. */
  lemma UniqueStep(s: string, from: nat, ps: seq<string>, gs: seq<string>)
      returns (j: nat, gs': seq<string>)
    requires from <= |s| && IsSplitting(s[from..], ps, gs) && |gs| > 0
    ensures j <= |s| && IsSplitting(s[j..], ps[1..], gs')
    ensures SplitFrom(s, j) == ps[1..] ==> SplitFrom(s, from) == ps
  {
    var b, i;
    b, i, j, gs' := FirstMatchOfSplitting(s, from, ps, gs);
    SplittingFirstPiece(s, from, ps, gs);
    if SplitFrom(s, j) == ps[1..] {
      SplitFromAtMatch(s, from, b, i, j, ps[0], ps[1..]);
      assert [ps[0]] + ps[1..] == ps;
    }
  }

  /** Completeness of the split: whenever `s[from..]` can be written as pieces
      separated by texts matching `\s*;\s*` that take all the whitespace next
      to each `;`, those pieces are exactly what `re.split` returns. */
  lemma {:induction false} SplittingIsUniqueFrom(s: string, from: nat, ps: seq<string>, gs: seq<string>)
    requires from <= |s| && IsSplitting(s[from..], ps, gs)
    ensures SplitFrom(s, from) == ps
    decreases |ps|
  {
    if |gs| == 0 {
      SplitFromWithout(s, from, ps[0]);
    } else {
      var j, gs' := UniqueStep(s, from, ps, gs);
      SplittingIsUniqueFrom(s, j, ps[1..], gs');
    }
  }

  /** Any splitting of a row has the pieces `re.split` returns. */
  lemma SplittingIsUnique(s: string, ps: seq<string>, gs: seq<string>)
    requires IsSplitting(s, ps, gs)
    ensures SplitRow(s) == ps
  {
    assert s[0..] == s;
    SplittingIsUniqueFrom(s, 0, ps, gs);
  }

  /** `re.split` returns `ps` exactly when `s` is the pieces `ps` separated by
      texts matching `\s*;\s*` that take all the whitespace next to each `;`. */
  lemma SplitRowCharacterized(s: string, ps: seq<string>)
    ensures SplitRow(s) == ps <==> exists gs :: IsSplitting(s, ps, gs)
  {
    if SplitRow(s) == ps {
      SplitRowIsSplitting(s);
    }
    if gs :| IsSplitting(s, ps, gs) {
      SplittingIsUnique(s, ps, gs);
    }
  }

  // ---------------------------------------------------------------------------
  // What the split keeps and drops
  // ---------------------------------------------------------------------------

  /** A separator holds exactly one `;`. */
  lemma SeparatorCount(g: string)
    requires IsSeparator(g)
    ensures Count(g, ';') == 1
  {
    var k := SeparatorSemicolon(g);
    assert g == g[..k] + [';'] + g[k + 1..];
    assert ';' !in g[..k] && ';' !in g[k + 1..];
    CountZero(g[..k], ';');
    CountZero(g[k + 1..], ';');
    CountAppend(g[..k], [';'], ';');
    CountAppend(g[..k] + [';'], g[k + 1..], ';');
  }

  /** Every separator of a splitting takes one `;`, and the pieces none. */
  lemma {:induction false} SplittingCount(t: string, ps: seq<string>, gs: seq<string>)
    requires IsSplitting(t, ps, gs)
    ensures Count(t, ';') == |gs|
    decreases |gs|
  {
    if |gs| == 0 {
      CountZero(t, ';');
    } else {
      var rest := Interleave(ps[1..], gs[1..]);
      SplittingTail(t, ps, gs);
      SplittingCount(rest, ps[1..], gs[1..]);
      SeparatorCount(gs[0]);
      CountZero(ps[0], ';');
      CountAppend(ps[0], gs[0], ';');
      CountAppend(ps[0] + gs[0], rest, ';');
    }
  }

  /** `re.split` returns one more piece than the row has `;`s: empty pieces
      are kept, at either end of the row and between two `;`s. */
  lemma SplitRowCount(s: string)
    ensures |SplitRow(s)| == Count(s, ';') + 1
  {
    SplitRowIsSplitting(s);
    SplittingCount(s, SplitRow(s), GapsFrom(s, 0));
  }

  /** A character absent from the text is absent from every piece. */
  lemma {:induction false} SplittingKeepsOut(t: string, ps: seq<string>, gs: seq<string>, c: char)
    requires IsSplitting(t, ps, gs) && c !in t
    ensures forall k :: 0 <= k < |ps| ==> c !in ps[k]
    decreases |gs|
  {
    if |gs| == 0 {
      assert t == ps[0];
    } else {
      var rest := Interleave(ps[1..], gs[1..]);
      SplittingTail(t, ps, gs);
      assert c !in ps[0] && c !in rest by {
        assert t == ps[0] + (gs[0] + rest);
        assert forall m :: 0 <= m < |rest| ==> rest[m] == t[|ps[0]| + |gs[0]| + m];
      }
      SplittingKeepsOut(rest, ps[1..], gs[1..], c);
      assert forall k :: 1 <= k < |ps| ==> ps[k] == ps[1..][k - 1];
    }
  }

  /** No piece of a row holds a `;`, and a piece holds a character only if
      the row does. */
  lemma SplitRowPieces(s: string)
    ensures forall k :: 0 <= k < |SplitRow(s)| ==> ';' !in SplitRow(s)[k]
    ensures forall c, k :: c !in s && 0 <= k < |SplitRow(s)| ==> c !in SplitRow(s)[k]
  {
    SplitRowIsSplitting(s);
    forall c | c !in s ensures forall k :: 0 <= k < |SplitRow(s)| ==> c !in SplitRow(s)[k] {
      SplittingKeepsOut(s, SplitRow(s), GapsFrom(s, 0), c);
    }
  }

  // ---------------------------------------------------------------------------
  // Joining the pieces with ";" again
  // ---------------------------------------------------------------------------

  /** No `;` of `s` has whitespace right before or right after it. */
  predicate NoSpaceBesideSemicolon(s: string) {
    forall k :: 0 <= k < |s| && s[k] == ';' ==>
      (k == 0 || !IsSpace(s[k - 1])) && (k + 1 == |s| || !IsSpace(s[k + 1]))
  }

  /** `NoSpaceBesideSemicolon` for `s[from..]`, without looking before `from`. */
  ghost predicate NoSpaceBesideFrom(s: string, from: nat)
    requires from <= |s|
  {
    forall k :: from <= k < |s| && s[k] == ';' ==>
      (k == from || !IsSpace(s[k - 1])) && (k + 1 == |s| || !IsSpace(s[k + 1]))
  }

  /** Joining the pieces again is never longer than the row: every match
      takes at least its `;`. */
  lemma {:induction false} JoinSplitFromLength(s: string, from: nat)
    requires from <= |s|
    ensures |Join(SplitFrom(s, from), ";")| <= |s| - from
    decreases |s| - from
  {
    if Find(s, ';', from) < |s| {
      var b, i, j := JoinStep(s, from);
      JoinSplitFromLength(s, j);
    }
  }

  /** The first match of a search from `from` and the join it contributes. */
  lemma JoinStep(s: string, from: nat) returns (b: nat, i: nat, j: nat)
    requires from <= |s| && Find(s, ';', from) < |s|
    ensures IsMatch(s, from, b, i, j)
    ensures Join(SplitFrom(s, from), ";") == s[from..b] + ";" + Join(SplitFrom(s, j), ";")
  {
    i := Find(s, ';', from);
    b := BackSpaces(s, from, i);
    j := SkipSpaces(s, i + 1);
    FirstMatch(s, from);
    SplitFromAtMatch(s, from, b, i, j, s[from..b], SplitFrom(s, j));
    JoinCons(s[from..b], SplitFrom(s, j), ";");
  }

  /** A match that is the bare `;`: the row is unchanged by it, on both sides. */
  lemma TightMatch(s: string, from: nat, b: nat, i: nat, j: nat)
    requires IsMatch(s, from, b, i, j) && b == i && j == i + 1
    ensures s[from..] == s[from..b] + ";" + s[j..]
    ensures NoSpaceBesideFrom(s, from) <==> NoSpaceBesideFrom(s, j)
  {
    SliceInThree(s, from, b, j);
    assert s[b..j] == [s[i]];
  }

  /** A match that takes whitespace: its `;` has whitespace beside it. */
  lemma LooseMatch(s: string, from: nat, b: nat, i: nat, j: nat)
    requires IsMatch(s, from, b, i, j) && (b < i || j > i + 1)
    ensures !NoSpaceBesideFrom(s, from)
  {
    assert s[i] == ';';
    if b < i {
      assert IsSpace(s[i - 1]);
    } else {
      assert IsSpace(s[i + 1]);
    }
  }

  /** The pieces of `s[from..]` joined with `";"` give `s[from..]` back exactly
      when no `;` there has whitespace beside it. */
  lemma {:induction false} JoinSplitFrom(s: string, from: nat)
    requires from <= |s|
    ensures Join(SplitFrom(s, from), ";") == s[from..] <==> NoSpaceBesideFrom(s, from)
    decreases |s| - from
  {
    if Find(s, ';', from) < |s| {
      var b, i, j := JoinStep(s, from);
      if b == i && j == i + 1 {
        JoinSplitFrom(s, j);
        TightMatch(s, from, b, i, j);
        PrefixCancel(s[from..b] + ";", Join(SplitFrom(s, j), ";"), s[j..]);
      } else {
        JoinSplitFromLength(s, j);
        LooseMatch(s, from, b, i, j);
      }
    } else {
      NoMatchJoin(s, from);
    }
  }

  /** Without a `;` the row is its one piece, and nothing is beside a `;`. */
  lemma NoMatchJoin(s: string, from: nat)
    requires from <= |s| && Find(s, ';', from) == |s|
    ensures Join(SplitFrom(s, from), ";") == s[from..]
    ensures NoSpaceBesideFrom(s, from)
  {
  }

  lemma PrefixCancel(p: string, x: string, y: string)
    ensures p + x == p + y <==> x == y
  {
    if p + x == p + y {
      assert x == (p + x)[|p|..] && y == (p + y)[|p|..];
    }
  }

  /** `";".join(re.split(r"\s*;\s*", row)) == row` exactly when no `;` of the
      row has whitespace beside it. */
  lemma JoinSplitRow(s: string)
    ensures Join(SplitRow(s), ";") == s <==> NoSpaceBesideSemicolon(s)
  {
    JoinSplitFrom(s, 0);
    assert s[0..] == s;
  }

  // ---------------------------------------------------------------------------
  // Rows as the class-list file holds them
  // ---------------------------------------------------------------------------

  /** Whitespace beside a `;` goes with the separator; whitespace at the ends
      of the row stays in the first and last piece. */
  lemma SplitRowKeepsOuterSpace()
    ensures SplitRow(" car ; bus ") == [" car", "bus "]
  {
    var g := " ; ";
    assert g[1] == ';' && IsSpace(g[0]) && IsSpace(g[2]);
    assert IsSeparator(g);
    assert Interleave([" car", "bus "], [g]) == " car ; bus ";
    assert IsSplitting(" car ; bus ", [" car", "bus "], [g]);
    SplittingIsUnique(" car ; bus ", [" car", "bus "], [g]);
  }

  /** Two `;`s in a row leave an empty piece between them, and an empty row is
      one empty piece. */
  lemma SplitRowKeepsEmptyPieces()
    ensures SplitRow("a;;b") == ["a", "", "b"]
    ensures SplitRow("") == [""]
  {
    var g := ";";
    assert IsSeparator(g);
    assert Interleave(["", "b"], [g]) == ";b";
    assert Interleave(["a", "", "b"], [g, g]) == "a;;b";
    assert IsSplitting("a;;b", ["a", "", "b"], [g, g]);
    SplittingIsUnique("a;;b", ["a", "", "b"], [g, g]);
  }

  // ---------------------------------------------------------------------------
  // parse_classes
  // ---------------------------------------------------------------------------

  /** The exception `parse_classes` raises. */
  datatype ClassesError = FileNotFound(path: string)

  /** A line as `for row in fh` yields it: never empty, and a line feed only
      as its last character. */
  predicate IsLine(l: string) {
    |l| > 0 && forall k :: 0 <= k < |l| - 1 ==> l[k] != '\n'
  }

  /** The lines of `t[from..]`, each with its line feed; the last one lacks it
      when the text does not end in a line feed. */
  function LinesFrom(t: string, from: nat): (ls: seq<string>)
    requires from <= |t|
    ensures forall k :: 0 <= k < |ls| ==>
      IsLine(ls[k]) && (k < |ls| - 1 ==> ls[k][|ls[k]| - 1] == '\n')
    decreases |t| - from
  {
    if from == |t| then []
    else
      var i := Find(t, '\n', from);
      if i == |t| then [t[from..]]
      else [t[from..i + 1]] + LinesFrom(t, i + 1)
  }

  /** The rows `for row in fh` yields for a file holding `t` (after the
      text-mode newline translation). */
  function FileLines(t: string): seq<string>
  {
    LinesFrom(t, 0)
  }

  lemma {:induction false} LinesFromConcat(t: string, from: nat)
    requires from <= |t|
    ensures Concat(LinesFrom(t, from)) == t[from..]
    decreases |t| - from
  {
    if from < |t| && Find(t, '\n', from) < |t| {
      var i := Find(t, '\n', from);
      LinesFromConcat(t, i + 1);
      LinesConcatStep(t, from, i, LinesFrom(t, i + 1));
    }
  }

  lemma LinesConcatStep(t: string, from: nat, i: nat, rest: seq<string>)
    requires from <= i < |t| && Find(t, '\n', from) == i
    requires LinesFrom(t, i + 1) == rest && Concat(rest) == t[i + 1..]
    ensures Concat(LinesFrom(t, from)) == t[from..]
  {
    var l := t[from..i + 1];
    assert LinesFrom(t, from) == [l] + rest;
    assert ([l] + rest)[1..] == rest;
    assert t[from..] == l + t[i + 1..];
  }

  /** Reading the lines loses nothing: they add up to the file's text. */
  lemma FileLinesConcat(t: string)
    ensures Concat(FileLines(t)) == t
  {
    LinesFromConcat(t, 0);
    assert t[0..] == t;
  }

  /** `row.strip('\n')` of a line is the line without its line feed. */
  lemma StripLine(l: string)
    requires IsLine(l)
    ensures '\n' !in StripNewlines(l)
    ensures Count(StripNewlines(l), ';') == Count(l, ';')
  {
    StripNewlinesKeeps(l, ';');
    if l[|l| - 1] == '\n' {
      assert l == l[..|l| - 1] + "\n";
      StripLineTerminator(l[..|l| - 1]);
    } else {
      assert l == l[..|l| - 1] + [l[|l| - 1]];
      StripLineTerminator(l);
    }
  }

  /** The list comprehension of `parse_classes`: every row stripped of line
      feeds and split, the pieces of all rows one after the other. */
  function ParseLines(lines: seq<string>): seq<string>
  {
    if lines == [] then [] else SplitRow(StripNewlines(lines[0])) + ParseLines(lines[1..])
  }

  /** The class list read from a file holding `t`. */
  function ParseText(t: string): seq<string>
  {
    ParseLines(FileLines(t))
  }

  /** `parse_classes(classes_file)` over the file system `fs`. */
  function ParseClasses(classesFile: Option<string>, fs: Files)
    : (r: Result<seq<string>, ClassesError>)
    ensures classesFile == None || classesFile == Some("") ==> r == Ok([])
    ensures r.Err? <==>
      classesFile != None && classesFile.value != "" && !IsFile(fs, classesFile.value)
    ensures r.Err? ==> r.error == FileNotFound(classesFile.value)
    ensures r.Ok? && classesFile != None && classesFile.value != "" ==>
      r.value == ParseText(fs[classesFile.value].text)
  {
    match classesFile
    case None => Ok([])
    case Some(path) =>
      if path == "" then Ok([])
      else if !IsFile(fs, path) then Err(FileNotFound(path))
      else Ok(ParseText(fs[path].text))
  }

  /** Rows are read in file order and their pieces kept in order, duplicates
      included. */
  lemma {:induction false} ParseLinesAppend(a: seq<string>, b: seq<string>)
    ensures ParseLines(a + b) == ParseLines(a) + ParseLines(b)
  {
    if a == [] {
      assert a + b == b;
    } else {
      assert (a + b)[1..] == a[1..] + b;
      ParseLinesAppend(a[1..], b);
    }
  }

  /** Each row gives one class more than it has `;`s. */
  lemma {:induction false} ParseLinesCount(lines: seq<string>)
    ensures |ParseLines(lines)| == |lines| + Count(Concat(lines), ';')
  {
    if lines != [] {
      ParseLinesCount(lines[1..]);
      StripNewlinesKeeps(lines[0], ';');
      SplitRowCount(StripNewlines(lines[0]));
      CountAppend(lines[0], Concat(lines[1..]), ';');
    }
  }

  /** No class name holds a `;` or a line feed. */
  lemma {:induction false} ParseLinesEntries(lines: seq<string>)
    requires forall k :: 0 <= k < |lines| ==> IsLine(lines[k])
    ensures forall k :: 0 <= k < |ParseLines(lines)| ==>
      ';' !in ParseLines(lines)[k] && '\n' !in ParseLines(lines)[k]
  {
    if lines != [] {
      ParseLinesEntries(lines[1..]);
      StripLine(lines[0]);
      SplitRowPieces(StripNewlines(lines[0]));
      var head := SplitRow(StripNewlines(lines[0]));
      var r := ParseLines(lines);
      assert forall k :: |head| <= k < |r| ==> r[k] == ParseLines(lines[1..])[k - |head|];
    }
  }

  /** A class file yields one class per row plus one per `;`; no class holds a
      `;` or a line feed. */
  lemma ParseTextShape(t: string)
    ensures |ParseText(t)| == |FileLines(t)| + Count(t, ';')
    ensures forall k :: 0 <= k < |ParseText(t)| ==> ';' !in ParseText(t)[k] && '\n' !in ParseText(t)[k]
  {
    ParseLinesCount(FileLines(t));
    FileLinesConcat(t);
    ParseLinesEntries(FileLines(t));
  }

  /** Rows read in order; the space after a `;` is dropped, the line feed is
      stripped. */
  lemma ParseTextExample()
    ensures ParseText("car; pedestrian\ntruck") == ["car", "pedestrian", "truck"]
  {
    ExampleLines();
    ExampleStrip();
    ExampleSplit();
    TwoLines("car; pedestrian\n", "truck");
  }

  /** A file of two rows gives the pieces of the first, then of the second. */
  lemma TwoLines(l0: string, l1: string)
    ensures ParseLines([l0, l1]) == SplitRow(StripNewlines(l0)) + SplitRow(StripNewlines(l1))
  {
    OneLine(l0);
    OneLine(l1);
    assert [l0, l1] == [l0] + [l1];
    ParseLinesAppend([l0], [l1]);
  }

  lemma OneLine(l: string)
    ensures ParseLines([l]) == SplitRow(StripNewlines(l))
  {
    assert [l][1..] == [];
    calc {
      ParseLines([l]);
      SplitRow(StripNewlines(l)) + ParseLines([]);
      SplitRow(StripNewlines(l)) + [];
    }
  }

  lemma ExampleLines()
    ensures FileLines("car; pedestrian\ntruck") == ["car; pedestrian\n", "truck"]
  {
    var t := "car; pedestrian\ntruck";
    FindAt(t, '\n', 0, 15);
    assert Find(t, '\n', 16) == |t| by {
      assert forall k :: 16 <= k < |t| ==> t[k] != '\n';
    }
    assert t[0..16] == "car; pedestrian\n" && t[16..] == "truck";
  }

  lemma ExampleStrip()
    ensures StripNewlines("car; pedestrian\n") == "car; pedestrian"
    ensures StripNewlines("truck") == "truck"
  {
    var r0 := "car; pedestrian";
    assert forall k :: 0 <= k < |r0| ==> r0[k] != '\n';
    StripLineTerminator(r0);
    assert r0 + "\n" == "car; pedestrian\n";
    StripLineTerminator("truck");
  }

  lemma ExampleSplit()
    ensures SplitRow("car; pedestrian") == ["car", "pedestrian"]
    ensures SplitRow("truck") == ["truck"]
  {
    assert forall k :: 0 <= k < 5 ==> "truck"[k] != ';';
    SingleRow("truck");
    var r0 := "car; pedestrian";
    var g := "; ";
    assert IsSpace(g[1]) && IsSeparator(g);
    assert Interleave(["pedestrian"], []) == "pedestrian";
    assert Interleave(["car", "pedestrian"], [g]) == r0;
    SplittingIsUnique(r0, ["car", "pedestrian"], [g]);
  }

  /** A row without a `;` is one class. */
  lemma SingleRow(s: string)
    requires ';' !in s
    ensures SplitRow(s) == [s]
  {
    SplittingIsUnique(s, [s], []);
  }
}
