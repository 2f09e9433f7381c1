/** The parts of Go's `strings` package the core relies on, `Index` and `Split`,
    over strings of characters, with `Join` as the inverse that pins down what
    `Split` keeps. A Go string is a byte sequence; here one character stands
    for one rune. */
module GoStrings {

  /** `sep` occurs in `s` starting at position `i`. */
  predicate OccursAt(s: string, sep: string, i: nat) {
    i + |sep| <= |s| && s[i..i + |sep|] == sep
  }

  predicate Contains(s: string, sep: string) {
    exists i: nat :: i <= |s| && OccursAt(s, sep, i)
  }

  /** The first position at or after `from` where `sep` occurs, or -1. */
  function IndexFrom(s: string, sep: string, from: nat): (r: int)
    requires from <= |s|
    ensures r == -1 || from <= r <= |s| - |sep|
    ensures r >= 0 ==> OccursAt(s, sep, r) && forall j: nat :: from <= j < r ==> !OccursAt(s, sep, j)
    ensures r == -1 ==> forall j: nat :: from <= j ==> !OccursAt(s, sep, j)
    decreases |s| - from
  {
    if OccursAt(s, sep, from) then from
    else if from == |s| then -1
    else IndexFrom(s, sep, from + 1)
  }

  /** strings.Index: the first occurrence of `sep` in `s`, or -1 when there is none. */
  function Index(s: string, sep: string): (r: int)
    ensures r == -1 || 0 <= r <= |s| - |sep|
    ensures r >= 0 ==> OccursAt(s, sep, r) && forall j: nat :: j < r ==> !OccursAt(s, sep, j)
    ensures r == -1 <==> !Contains(s, sep)
  {
    IndexFrom(s, sep, 0)
  }

  /** strings.Split with the empty separator: one piece per rune, none for "". */
  function Explode(s: string): (pieces: seq<string>)
    ensures |pieces| == |s|
    ensures forall k :: 0 <= k < |s| ==> pieces[k] == s[k..k + 1]
  {
    if s == "" then [] else [s[..1]] + Explode(s[1..])
  }

  /** strings.Split(s, sep): the pieces of `s` between the occurrences of `sep`,
      found left to right without overlap. */
  function Split(s: string, sep: string): (pieces: seq<string>)
    ensures sep != "" ==> |pieces| >= 1
    ensures |pieces| == 0 <==> sep == "" && s == ""
    decreases |s|
  {
    if sep == "" then Explode(s)
    else
      var i := Index(s, sep);
      if i < 0 then [s] else [s[..i]] + Split(s[i + |sep|..], sep)
  }

  /** strings.Join. */
  function Join(pieces: seq<string>, sep: string): string
  {
    if |pieces| == 0 then ""
    else if |pieces| == 1 then pieces[0]
    else pieces[0] + sep + Join(pieces[1..], sep)
  }

  /** The text of `s` before the first occurrence of `sep`: all of `s` when it has none. */
  function Head(s: string, sep: string): (h: string)
    ensures h <= s
  {
    var i := Index(s, sep);
    if i < 0 then s else s[..i]
  }

  /** The text of `s` after the first occurrence of `sep`. */
  function After(s: string, sep: string): (a: string)
    requires Contains(s, sep)
    ensures |a| < |s| || sep == ""
  {
    s[Index(s, sep) + |sep|..]
  }

  /** The first occurrence is at `i` when one starts there and none starts before. */
  lemma IndexIs(s: string, sep: string, i: nat)
    requires OccursAt(s, sep, i)
    requires forall j: nat :: j < i ==> !OccursAt(s, sep, j)
    ensures Index(s, sep) == i
  {
  }

  // Character-by-character checks, which the verifier evaluates on literal strings.

  /** `sep` starts at `i` in `s`, compared from its `k`-th character on. */
  predicate MatchesFrom(s: string, sep: string, i: nat, k: nat)
    decreases |sep| - k
  {
    if k >= |sep| then i + |sep| <= |s|
    else i + k < |s| && s[i + k] == sep[k] && MatchesFrom(s, sep, i, k + 1)
  }

  lemma {:induction false} MatchesFromOccurs(s: string, sep: string, i: nat, k: nat)
    requires k <= |sep|
    ensures MatchesFrom(s, sep, i, k) <==> i + |sep| <= |s| && s[i + k..i + |sep|] == sep[k..]
    decreases |sep| - k
  {
    if k < |sep| {
      MatchesFromOccurs(s, sep, i, k + 1);
      if i + |sep| <= |s| {
        assert s[i + k..i + |sep|] == [s[i + k]] + s[i + k + 1..i + |sep|];
        assert sep[k..] == [sep[k]] + sep[k + 1..];
      }
    }
  }

  /** No occurrence of `sep` starts in [from, stop). */
  predicate AbsentBetween(s: string, sep: string, from: nat, stop: nat)
    decreases stop - from
  {
    from >= stop || (!MatchesFrom(s, sep, from, 0) && AbsentBetween(s, sep, from + 1, stop))
  }

  lemma {:induction false} AbsentBetweenSound(s: string, sep: string, from: nat, stop: nat)
    requires AbsentBetween(s, sep, from, stop)
    ensures forall j: nat :: from <= j < stop ==> !OccursAt(s, sep, j)
    decreases stop - from
  {
    if from < stop {
      MatchesFromOccurs(s, sep, from, 0);
      AbsentBetweenSound(s, sep, from + 1, stop);
    }
  }

  /** The character `c` does not appear in `s` at or after `from`. */
  predicate NoCharFrom(s: string, c: char, from: nat)
    decreases |s| - from
  {
    from >= |s| || (s[from] != c && NoCharFrom(s, c, from + 1))
  }

  /** A separator whose first character never appears does not occur. */
  lemma {:induction false} NoCharAbsent(s: string, sep: string, from: nat)
    requires sep != "" && NoCharFrom(s, sep[0], from)
    ensures forall j: nat :: from <= j ==> !OccursAt(s, sep, j)
    decreases |s| - from
  {
    if from < |s| {
      NoCharAbsent(s, sep, from + 1);
    }
    if from + |sep| <= |s| {
      assert s[from..from + |sep|][0] == s[from];
    }
  }

  /** Joining the pieces of a split gives back the string: strings.Join inverts strings.Split. */
  lemma {:induction false} JoinSplit(s: string, sep: string)
    ensures Join(Split(s, sep), sep) == s
    decreases |s|
  {
    if sep == "" {
      JoinExplode(s);
    } else if Contains(s, sep) {
      var i := Index(s, sep);
      var rest := s[i + |sep|..];
      SplitAfter(s, sep);
      JoinSplit(rest, sep);
      JoinCons(s[..i], Split(rest, sep), sep);
      assert s == s[..i] + sep + rest by {
        assert OccursAt(s, sep, i);
        assert s == s[..i] + s[i..i + |sep|] + rest;
      }
    }
  }

  /** When the separator occurs, the split is the text before it followed by
      the split of the text after it. */
  lemma SplitAfter(s: string, sep: string)
    requires sep != "" && Contains(s, sep)
    ensures Split(s, sep) == [s[..Index(s, sep)]] + Split(After(s, sep), sep)
  {
  }

  lemma JoinCons(p: string, rest: seq<string>, sep: string)
    requires |rest| >= 1
    ensures Join([p] + rest, sep) == p + sep + Join(rest, sep)
  {
    assert ([p] + rest)[1..] == rest;
  }

  lemma {:induction false} JoinExplode(s: string)
    ensures Join(Explode(s), "") == s
  {
    if s != "" {
      JoinExplode(s[1..]);
      if |s| > 1 {
        assert Explode(s)[1..] == Explode(s[1..]);
      }
    }
  }

  /** Piece 0 is the text before the first occurrence of the separator. */
  lemma SplitFirst(s: string, sep: string)
    requires sep != ""
    ensures |Split(s, sep)| >= 1 && Split(s, sep)[0] == Head(s, sep)
  {
  }

  /** There is a piece 1 exactly when the separator occurs; it is the text
      after the first occurrence, up to the next one. */
  lemma SplitSecond(s: string, sep: string)
    requires sep != ""
    ensures |Split(s, sep)| >= 2 <==> Contains(s, sep)
    ensures Contains(s, sep) ==> Split(s, sep)[1] == Head(After(s, sep), sep)
  {
    if Contains(s, sep) {
      SplitFirst(After(s, sep), sep);
    }
  }

  /** No piece contains the separator. */
  lemma {:induction false} SplitPiecesFree(s: string, sep: string)
    requires sep != ""
    ensures forall k :: 0 <= k < |Split(s, sep)| ==> !Contains(Split(s, sep)[k], sep)
    decreases |s|
  {
    HeadFree(s, sep);
    var i := Index(s, sep);
    if i >= 0 {
      SplitPiecesFree(s[i + |sep|..], sep);
    }
  }

  /** The text before the first occurrence has no occurrence in it, starts
      `s`, and is followed by the separator or by the end of `s`. */
  lemma HeadFree(s: string, sep: string)
    requires sep != ""
    ensures !Contains(Head(s, sep), sep)
    ensures forall j: nat :: j < |Head(s, sep)| ==> !OccursAt(s, sep, j)
    ensures |Head(s, sep)| == |s| || OccursAt(s, sep, |Head(s, sep)|)
  {
    var h := Head(s, sep);
    forall j: nat | OccursAt(h, sep, j) ensures false {
      assert h[j..j + |sep|] == s[j..j + |sep|];
      assert OccursAt(s, sep, j);
    }
  }
}
