/**
  The two Python string operations `main.py` calls, `str.strip()` and
  `str.split(sep)`, written out over `seq<char>`. `FindFirst` is the
  left-to-right search inside `split`; `Join` is only its inverse, used to
  state that splitting loses nothing (`JoinSplit`).
*/
module Strings {
  import opened Wrappers

  /** The characters for which Python's `str.isspace()` holds; `str.strip()`
      with no argument removes exactly these from both ends. */
  predicate IsSpace(c: char) {
    var n := c as int;
    9 <= n <= 13 || 28 <= n <= 32 || n == 0x85 || n == 0xA0 || n == 0x1680
    || 0x2000 <= n <= 0x200A || n == 0x2028 || n == 0x2029 || n == 0x202F
    || n == 0x205F || n == 0x3000
  }

  /** Every character of `s` is whitespace. */
  predicate AllSpace(s: string) {
    forall k {:trigger IsSpace(s[k])} :: 0 <= k < |s| ==> IsSpace(s[k])
  }

  /** Leading whitespace removed: `r` is the longest suffix of `s` that does not
      start with whitespace. */
  function TrimStart(s: string): (r: string)
    ensures |r| <= |s| && r == s[|s| - |r|..]
    ensures AllSpace(s[..|s| - |r|])
    ensures r == [] || !IsSpace(r[0])
  {
    if |s| > 0 && IsSpace(s[0]) then
      var r := TrimStart(s[1..]);
      assert s[..|s| - |r|] == [s[0]] + s[1..][..|s| - 1 - |r|];
      r
    else s
  }

  /** Trailing whitespace removed: `r` is the longest prefix of `s` that does
      not end with whitespace. */
  function TrimEnd(s: string): (r: string)
    ensures |r| <= |s| && r == s[..|r|]
    ensures AllSpace(s[|r|..])
    ensures r == [] || !IsSpace(r[|r| - 1])
  {
    if |s| > 0 && IsSpace(s[|s| - 1]) then
      var r := TrimEnd(s[..|s| - 1]);
      assert s[|r|..] == s[..|s| - 1][|r|..] + [s[|s| - 1]];
      r
    else s
  }

  /** Python's `s.strip()`: the slice `s[i..i + |r|]` left once the whitespace
      at both ends is gone; it neither starts nor ends with whitespace. */
  function Strip(s: string): (r: string)
    ensures |r| <= |s|
    ensures exists i :: 0 <= i <= |s| - |r| && r == s[i..i + |r|]
                        && AllSpace(s[..i]) && AllSpace(s[i + |r|..])
    ensures r == [] || (!IsSpace(r[0]) && !IsSpace(r[|r| - 1]))
  {
    var t := TrimStart(s);
    var r := TrimEnd(t);
    SliceOfSuffix(s, t, r);
    r
  }

  /** A prefix `r` of a suffix `t` of `s` is a slice of `s`. */
  lemma SliceOfSuffix(s: string, t: string, r: string)
    requires |t| <= |s| && t == s[|s| - |t|..]
    requires |r| <= |t| && r == t[..|r|]
    ensures var i := |s| - |t|;
            r == s[i..i + |r|] && s[i + |r|..] == t[|r|..]
  {
    var i := |s| - |t|;
    assert forall k :: 0 <= k < |r| ==> r[k] == s[i + k];
    assert forall k :: |r| <= k < |t| ==> t[k] == s[i + k];
  }

  /** Stripping a stripped string changes nothing. */
  lemma {:induction false} StripIdempotent(s: string)
    ensures Strip(Strip(s)) == Strip(s)
  {
    var r := Strip(s);
    TrimStartKeeps(r);
    TrimEndKeeps(r);
  }

  lemma TrimStartKeeps(s: string)
    requires s == [] || !IsSpace(s[0])
    ensures TrimStart(s) == s
  {
  }

  lemma TrimEndKeeps(s: string)
    requires s == [] || !IsSpace(s[|s| - 1])
    ensures TrimEnd(s) == s
  {
  }

  /** `sep` occurs in `s` starting at index `i`. */
  predicate OccursAt(s: string, sep: string, i: nat) {
    i + |sep| <= |s| && s[i..i + |sep|] == sep
  }

  /** Index of the leftmost occurrence of `sep` in `s`, as Python's `s.find(sep)`
      (with `None` for its -1). */
  function FindFirst(s: string, sep: string): (r: Option<nat>)
    ensures r.Some? ==> OccursAt(s, sep, r.value)
    ensures r.Some? ==> forall k: nat :: k < r.value ==> !OccursAt(s, sep, k)
    ensures r.None? ==> forall k: nat :: !OccursAt(s, sep, k)
  {
    if |s| < |sep| then None
    else if s[..|sep|] == sep then Some(0)
    else
      match FindFirst(s[1..], sep)
      case None =>
        assert forall k: nat :: 1 <= k ==> (OccursAt(s, sep, k) <==> OccursAt(s[1..], sep, k - 1));
        None
      case Some(i) =>
        assert forall k: nat :: 1 <= k ==> (OccursAt(s, sep, k) <==> OccursAt(s[1..], sep, k - 1));
        Some(i + 1)
  }

  /** Python's `s.split(sep)` for a non-empty separator: the pieces between the
      non-overlapping occurrences of `sep`, found left to right. */
  function Split(s: string, sep: string): (r: seq<string>)
    requires |sep| > 0
    ensures |r| >= 1
    decreases |s|
  {
    match FindFirst(s, sep)
    case None => [s]
    case Some(i) => [s[..i]] + Split(s[i + |sep|..], sep)
  }

  /** Python's `sep.join(parts)`. */
  function Join(parts: seq<string>, sep: string): string {
    if |parts| == 0 then []
    else if |parts| == 1 then parts[0]
    else parts[0] + sep + Join(parts[1..], sep)
  }

  /** Splitting and joining again with the same separator gives back the
      original string. */
  lemma {:induction false} JoinSplit(s: string, sep: string)
    requires |sep| > 0
    ensures Join(Split(s, sep), sep) == s
    decreases |s|
  {
    match FindFirst(s, sep)
    case None =>
    case Some(i) =>
      var rest := s[i + |sep|..];
      JoinSplit(rest, sep);
      JoinSplitStep(s, sep, i);
      SplitAround(s, sep, i);
  }

  lemma JoinSplitStep(s: string, sep: string, i: nat)
    requires |sep| > 0 && FindFirst(s, sep) == Some(i)
    ensures Join(Split(s, sep), sep) == s[..i] + sep + Join(Split(s[i + |sep|..], sep), sep)
  {
    var parts := Split(s, sep);
    assert parts[1..] == Split(s[i + |sep|..], sep);
  }

  lemma SplitAround(s: string, sep: string, i: nat)
    requires OccursAt(s, sep, i)
    ensures s == s[..i] + sep + s[i + |sep|..]
  {
    assert s == s[..i] + s[i..i + |sep|] + s[i + |sep|..];
  }

  /** No piece of a split contains the separator. */
  lemma {:induction false} SplitPiecesAreFree(s: string, sep: string)
    requires |sep| > 0
    ensures forall j :: 0 <= j < |Split(s, sep)| ==> FindFirst(Split(s, sep)[j], sep).None?
    decreases |s|
  {
    match FindFirst(s, sep)
    case None =>
    case Some(i) =>
      var rest := s[i + |sep|..];
      SplitPiecesAreFree(rest, sep);
      BeforeFirstIsFree(s, sep, i);
      var parts := Split(s, sep);
      assert parts == [s[..i]] + Split(rest, sep);
      forall j | 0 <= j < |parts| ensures FindFirst(parts[j], sep).None? {
        if j > 0 {
          assert parts[j] == Split(rest, sep)[j - 1];
        }
      }
  }

  /** The text before the first occurrence of `sep` does not contain it. */
  lemma BeforeFirstIsFree(s: string, sep: string, i: nat)
    requires |sep| > 0 && FindFirst(s, sep) == Some(i)
    ensures FindFirst(s[..i], sep).None?
  {
    forall k: nat | OccursAt(s[..i], sep, k) ensures OccursAt(s, sep, k) && k < i {
      OccursInPrefix(s, i, sep, k);
    }
  }

  lemma OccursInPrefix(s: string, n: nat, sep: string, k: nat)
    requires n <= |s| && OccursAt(s[..n], sep, k)
    ensures OccursAt(s, sep, k)
  {
    assert s[..n][k..k + |sep|] == s[k..k + |sep|];
  }

  /** The first piece of a split: the text up to the first occurrence of
      `sep`, or all of `s` when there is none. */
  lemma SplitFirstPiece(s: string, sep: string)
    requires |sep| > 0
    ensures var piece := Split(s, sep)[0];
            |piece| <= |s| && piece == s[..|piece|]
            && FindFirst(piece, sep).None?
            && (|piece| == |s| || OccursAt(s, sep, |piece|))
  {
    match FindFirst(s, sep)
    case None =>
      assert s[..|s|] == s;
    case Some(i) =>
      BeforeFirstIsFree(s, sep, i);
  }

  /** The piece after the first separator: the text that follows the first
      occurrence of `sep`, up to the next occurrence if there is one. */
  lemma SplitSecondPiece(s: string, sep: string)
    requires |sep| > 0 && FindFirst(s, sep).Some?
    ensures |Split(s, sep)| >= 2
    ensures var rest := s[FindFirst(s, sep).value + |sep|..];
            var piece := Split(s, sep)[1];
            |piece| <= |rest| && piece == rest[..|piece|]
            && FindFirst(piece, sep).None?
            && (|piece| == |rest| || OccursAt(rest, sep, |piece|))
  {
    var rest := s[FindFirst(s, sep).value + |sep|..];
    assert Split(s, sep)[1] == Split(rest, sep)[0];
    SplitFirstPiece(rest, sep);
  }

  /** Number of times the character `c` occurs in `s`. */
  function CountChar(s: string, c: char): nat {
    if |s| == 0 then 0 else (if s[0] == c then 1 else 0) + CountChar(s[1..], c)
  }

  lemma {:induction false} CountCharAppend(a: string, b: string, c: char)
    ensures CountChar(a + b, c) == CountChar(a, c) + CountChar(b, c)
  {
    if |a| > 0 {
      assert (a + b)[1..] == a[1..] + b;
      CountCharAppend(a[1..], b, c);
    } else {
      assert a + b == b;
    }
  }

  lemma CountCharZero(s: string, c: char)
    ensures CountChar(s, c) == 0 <==> c !in s
  {
  }

  /** Splitting on a one-character separator gives one more piece than there
      are occurrences of that character. */
  lemma {:induction false} SplitCharPieces(s: string, c: char)
    ensures |Split(s, [c])| == CountChar(s, c) + 1
    decreases |s|
  {
    match FindFirst(s, [c])
    case None =>
      NoOccurrenceOfChar(s, c);
      CountCharZero(s, c);
    case Some(i) =>
      var rest := s[i + 1..];
      SplitCharPieces(rest, c);
      assert s == s[..i] + [c] + rest;
      CountCharAppend(s[..i] + [c], rest, c);
      CountCharAppend(s[..i], [c], c);
      assert c !in s[..i] by {
        if c in s[..i] {
          var k :| 0 <= k < i && s[k] == c;
          assert OccursAt(s, [c], k);
        }
      }
      CountCharZero(s[..i], c);
  }

  lemma NoOccurrenceOfChar(s: string, c: char)
    requires forall k: nat :: !OccursAt(s, [c], k)
    ensures c !in s
  {
    if c in s {
      var k :| 0 <= k < |s| && s[k] == c;
      assert OccursAt(s, [c], k);
    }
  }

  /** A character that does not occur is not found. */
  lemma {:induction false} AbsentCharNotFound(s: string, c: char)
    requires c !in s
    ensures FindFirst(s, [c]) == None
    decreases |s|
  {
    if |s| >= 1 {
      assert s[..1] == [s[0]];
      AbsentCharNotFound(s[1..], c);
    }
  }

  /** The first index holding `c` is where `c` is found. */
  lemma {:induction false} FirstCharAt(s: string, c: char, i: nat)
    requires i < |s| && s[i] == c && c !in s[..i]
    ensures FindFirst(s, [c]) == Some(i)
  {
    assert s[..1] == [s[0]];
    if i > 0 {
      assert s[1..][..i - 1] == s[1..i];
      FirstCharAt(s[1..], c, i - 1);
    }
  }
}
