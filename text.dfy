/**
 * Python's `str.split(sep)` for a non-empty separator, and what the uploader
 * needs to know about it: where the first occurrence of a separator is, what
 * the pieces are, and how they join back into the original text.
 */
module Text {
  import opened Wrappers

  /** `pat` occurs in `s` starting at index `k`. */
  predicate OccursAt(s: string, pat: string, k: int)
  {
    0 <= k && k + |pat| <= |s| && s[k..k + |pat|] == pat
  }

  /** `pat` occurs somewhere in `s` (Python's `pat in s`). */
  predicate Contains(s: string, pat: string)
  {
    exists k :: 0 <= k <= |s| && OccursAt(s, pat, k)
  }

  /** The first occurrence of `pat` in `s` at or after index `from`. */
  function FindFrom(s: string, pat: string, from: nat): (r: Option<nat>)
    requires |pat| > 0 && from <= |s|
    ensures r.Some? ==> from <= r.value && OccursAt(s, pat, r.value)
    ensures r.Some? ==> forall j :: from <= j < r.value ==> !OccursAt(s, pat, j)
    ensures r.None? ==> forall j :: from <= j ==> !OccursAt(s, pat, j)
    decreases |s| - from
  {
    if from + |pat| > |s| then None
    else if s[from..from + |pat|] == pat then Some(from)
    else FindFrom(s, pat, from + 1)
  }

  /** The first occurrence of `pat` in `s`, if any (Python's `s.find(pat)`). */
  function Find(s: string, pat: string): (r: Option<nat>)
    requires |pat| > 0
    ensures r.Some? <==> Contains(s, pat)
    ensures r.Some? ==> OccursAt(s, pat, r.value) && forall j :: 0 <= j < r.value ==> !OccursAt(s, pat, j)
  {
    FindFrom(s, pat, 0)
  }

  /** Joins pieces with `sep` between neighbours (Python's `sep.join(parts)`). */
  function Join(parts: seq<string>, sep: string): string
  {
    if |parts| == 0 then ""
    else if |parts| == 1 then parts[0]
    else parts[0] + sep + Join(parts[1..], sep)
  }

  /**
   * Python's `s.split(sep)`: the pieces between the successive leftmost
   * occurrences of `sep`. `SplitJoin` and `SplitPieces` state what the pieces
   * are as a whole.
   */
  function Split(s: string, sep: string): (r: seq<string>)
    requires |sep| > 0
    ensures !Contains(s, sep) ==> r == [s]
    ensures Contains(s, sep) ==> |r| >= 2 && r[0] == s[..Find(s, sep).value]
    decreases |s|
  {
    match Find(s, sep)
    case None => [s]
    case Some(k) => [s[..k]] + Split(s[k + |sep|..], sep)
  }

  /** There is always a first piece, and it begins the text. */
  lemma FirstPieceIsPrefix(s: string, sep: string)
    requires |sep| > 0
    ensures |Split(s, sep)| > 0 && Split(s, sep)[0] <= s
  {
  }

  /** Joining the pieces with the separator gives back the text. */
  lemma {:induction false} SplitJoin(s: string, sep: string)
    requires |sep| > 0
    ensures Join(Split(s, sep), sep) == s
    decreases |s|
  {
    match Find(s, sep)
    case None =>
    case Some(k) =>
      var rest := s[k + |sep|..];
      SplitJoin(rest, sep);
      var r := Split(s, sep);
      assert r[1..] == Split(rest, sep);
      assert s == s[..k] + sep + rest;
  }

  /** No piece contains the separator. */
  lemma {:induction false} SplitPieces(s: string, sep: string)
    requires |sep| > 0
    ensures forall i :: 0 <= i < |Split(s, sep)| ==> !Contains(Split(s, sep)[i], sep)
    decreases |s|
  {
    match Find(s, sep)
    case None =>
    case Some(k) =>
      var rest := s[k + |sep|..];
      PrefixBeforeFirstOccurrence(s, sep, k);
      SplitPieces(rest, sep);
      var whole, tail := Split(s, sep), Split(rest, sep);
      PiecesInFront(s[..k], whole, tail, sep);
  }

  /** A piece without the separator in front of pieces without it. */
  lemma PiecesInFront(x: string, whole: seq<string>, tail: seq<string>, sep: string)
    requires whole == [x] + tail && !Contains(x, sep)
    requires forall i :: 0 <= i < |tail| ==> !Contains(tail[i], sep)
    ensures forall i :: 0 <= i < |whole| ==> !Contains(whole[i], sep)
  {
    forall i | 1 <= i < |whole|
      ensures !Contains(whole[i], sep)
    {
      assert whole[i] == tail[i - 1];
    }
  }

  /** The text before the first occurrence of `pat` does not contain `pat`. */
  lemma PrefixBeforeFirstOccurrence(s: string, pat: string, k: nat)
    requires |pat| > 0 && Find(s, pat) == Some(k)
    ensures !Contains(s[..k], pat)
  {
    forall j | OccursAt(s[..k], pat, j)
      ensures false
    {
      assert s[..k][j..j + |pat|] == s[j..j + |pat|];
      assert OccursAt(s, pat, j);
    }
  }

  /** A one-character pattern occurs exactly where that character is. */
  lemma OccursAtChar(s: string, c: char)
    ensures forall k :: OccursAt(s, [c], k) <==> 0 <= k < |s| && s[k] == c
  {
    forall k ensures OccursAt(s, [c], k) <==> 0 <= k < |s| && s[k] == c {
      if 0 <= k < |s| {
        assert s[k..k + 1] == [s[k]];
      }
    }
  }

  /** The first `c` of `a + [c] + b` is the first `c` of `a`, or the one after `a`. */
  lemma FirstCharOccurrence(a: string, b: string, c: char)
    ensures Find(a + [c] + b, [c]).Some?
    ensures Find(a, [c]).None? ==> Find(a + [c] + b, [c]) == Some(|a|)
    ensures Find(a, [c]).Some? ==> Find(a + [c] + b, [c]) == Find(a, [c])
  {
    var s := a + [c] + b;
    OccursAtChar(s, c);
    OccursAtChar(a, c);
    assert s[|a|] == c;
    assert forall j :: 0 <= j < |a| ==> s[j] == a[j];
  }

  /** When `a` holds no `c`, the first piece is `a` itself. */
  lemma SplitAtMiddle(a: string, b: string, c: char)
    requires Find(a + [c] + b, [c]) == Some(|a|) && Find(a, [c]).None?
    ensures Split(a + [c] + b, [c]) == [a] + Split(b, [c])
    ensures Split(a, [c]) == [a]
  {
    var s := a + [c] + b;
    assert s[..|a|] == a;
    assert s[|a| + 1..] == b;
  }

  /** When the first `c` lies inside `a`, both splits cut there. */
  lemma SplitInsideLeft(a: string, b: string, c: char, k: nat)
    requires Find(a + [c] + b, [c]) == Some(k) && Find(a, [c]) == Some(k)
    ensures Split(a + [c] + b, [c]) == [a[..k]] + Split(a[k + 1..] + [c] + b, [c])
    ensures Split(a, [c]) == [a[..k]] + Split(a[k + 1..], [c])
  {
    var s := a + [c] + b;
    assert s[k + 1..] == a[k + 1..] + [c] + b;
    assert s[..k] == a[..k];
  }

  /** Prepending the same piece on both sides of `whole == left + right`. */
  lemma PrependPiece(x: string, whole: seq<string>, left: seq<string>, right: seq<string>,
                     rest: seq<string>, restLeft: seq<string>)
    requires rest == restLeft + right
    requires whole == [x] + rest && left == [x] + restLeft
    ensures whole == left + right
  {
  }

  /** Splitting `a + [c] + b` on the one-character separator `[c]` splits `a` and `b` separately. */
  lemma {:induction false} SplitAround(a: string, b: string, c: char)
    ensures Split(a + [c] + b, [c]) == Split(a, [c]) + Split(b, [c])
    decreases |a|
  {
    FirstCharOccurrence(a, b, c);
    if Find(a, [c]).None? {
      SplitAtMiddle(a, b, c);
    } else {
      var k := Find(a, [c]).value;
      SplitInsideLeft(a, b, c, k);
      var a' := a[k + 1..];
      SplitAround(a', b, c);
      var whole, left, right := Split(a + [c] + b, [c]), Split(a, [c]), Split(b, [c]);
      var rest, restLeft := Split(a' + [c] + b, [c]), Split(a', [c]);
      PrependPiece(a[..k], whole, left, right, rest, restLeft);
    }
  }

  /** A one-character separator absent from `s` leaves it whole. */
  lemma SplitWithout(s: string, c: char)
    requires forall i :: 0 <= i < |s| ==> s[i] != c
    ensures Split(s, [c]) == [s]
  {
    OccursAtChar(s, c);
    assert Find(s, [c]).None?;
  }

  /** `s` is empty or ends with `sep`. */
  predicate EmptyOrEndsWith(s: string, sep: string)
  {
    s == "" || (|sep| <= |s| && s[|s| - |sep|..] == sep)
  }

  /**
   * `Join` of a proper tail of the pieces is a suffix of `Join` of all of them,
   * and what comes before it, `t`, is empty or ends with the separator.
   */
  lemma {:induction false} JoinTailIsSuffix(parts: seq<string>, sep: string, m: nat) returns (t: string)
    requires m < |parts|
    ensures Join(parts, sep) == t + Join(parts[m..], sep) && EmptyOrEndsWith(t, sep)
    decreases m
  {
    if m == 0 {
      assert parts[0..] == parts;
      t := "";
    } else {
      var t' := JoinTailIsSuffix(parts[1..], sep, m - 1);
      assert parts[1..][m - 1..] == parts[m..];
      t := parts[0] + sep + t';
      PrependToSuffix(parts, sep, t', Join(parts[m..], sep));
      if t' == "" {
        assert t[|t| - |sep|..] == sep;
      } else {
        assert t[|t| - |sep|..] == t'[|t'| - |sep|..];
      }
    }
  }

  /** One more piece in front of a `Join` that ends with `tail`. */
  lemma PrependToSuffix(parts: seq<string>, sep: string, t: string, tail: string)
    requires |parts| >= 2 && Join(parts[1..], sep) == t + tail
    ensures Join(parts, sep) == (parts[0] + sep + t) + tail
  {
  }
}
