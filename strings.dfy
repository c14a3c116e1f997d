/** Substring search and Python's `str.split` on a non-empty separator. */
module Strings {
  import opened Wrappers

  /** `p` occurs in `s` starting at index `i`. */
  predicate OccursAt(s: string, p: string, i: int) {
    0 <= i && i + |p| <= |s| && s[i..i + |p|] == p
  }

  ghost predicate Contains(s: string, p: string) {
    exists i :: OccursAt(s, p, i)
  }

  /** `s.find(p, from)`: the leftmost occurrence of `p` at or after `from`. */
  function Find(s: string, p: string, from: nat): (r: Option<nat>)
    decreases |s| - from
    ensures r.Some? ==> from <= r.value && OccursAt(s, p, r.value)
    ensures forall i :: from <= i && (r.None? || i < r.value) ==> !OccursAt(s, p, i)
  {
    if from + |p| > |s| then None
    else if s[from..from + |p|] == p then Some(from)
    else Find(s, p, from + 1)
  }

  lemma FindNone(s: string, p: string)
    ensures Find(s, p, 0).None? <==> !Contains(s, p)
  {
    if Find(s, p, 0).Some? {
      assert OccursAt(s, p, Find(s, p, 0).value);
    }
  }

  /** `s.split(sep)`: the pieces between the successive leftmost occurrences of `sep`. */
  function Split(s: string, sep: string): (pieces: seq<string>)
    requires |sep| > 0
    decreases |s|
    ensures |pieces| >= 1
  {
    match Find(s, sep, 0)
    case None => [s]
    case Some(i) => [s[..i]] + Split(s[i + |sep|..], sep)
  }

  /** `sep.join(pieces)`. */
  function Join(pieces: seq<string>, sep: string): string
    requires |pieces| >= 1
  {
    if |pieces| == 1 then pieces[0] else pieces[0] + sep + Join(pieces[1..], sep)
  }

  /** The first piece of a split is the text before the leftmost separator, or the whole
      string when there is none. */
  lemma SplitFirst(s: string, sep: string)
    requires |sep| > 0
    ensures var f := Split(s, sep)[0];
      && |f| <= |s| && s[..|f|] == f
      && (|Split(s, sep)| == 1 ==> f == s)
      && (|Split(s, sep)| > 1 ==> OccursAt(s, sep, |f|))
  {
  }

  /** A string none of whose characters starts `p` does not contain `p`. */
  lemma NoFirstChar(s: string, p: string)
    requires |p| > 0 && forall i :: 0 <= i < |s| ==> s[i] != p[0]
    ensures !Contains(s, p)
  {
    forall i | 0 <= i && i + |p| <= |s| ensures !OccursAt(s, p, i) {
      assert s[i..i + |p|][0] == s[i];
    }
  }

  /** The second piece of a split starts right after the leftmost separator and runs to the
      end of the string or to the next separator. */
  lemma SplitSecond(s: string, sep: string)
    requires |sep| > 0 && |Split(s, sep)| >= 2
    ensures Find(s, sep, 0).Some?
    ensures var rest := s[Find(s, sep, 0).value + |sep|..];
      var f := Split(s, sep)[1];
      && |f| <= |rest| && rest[..|f|] == f
      && (|f| == |rest| || OccursAt(rest, sep, |f|))
  {
    var rest := s[Find(s, sep, 0).value + |sep|..];
    assert Split(s, sep)[1] == Split(rest, sep)[0];
    SplitFirst(rest, sep);
  }

  /** A separator that occurs once, with a first character it does not repeat, splits
      `a + sep + c` into `a` and `c`. */
  lemma SplitOnce(a: string, sep: string, c: string)
    requires |sep| > 0 && !Contains(a, sep) && !Contains(c, sep)
    requires forall k :: 0 < k < |sep| ==> sep[k] != sep[0]
    ensures Split(a + sep + c, sep) == [a, c]
  {
    var s := a + sep + c;
    FindAtJoin(a, sep, c);
    assert s[..|a|] == a && s[|a| + |sep|..] == c;
    FindNone(c, sep);
  }

  /** Splitting loses nothing: joining the pieces gives the string back. */
  lemma {:induction false} SplitJoin(s: string, sep: string)
    requires |sep| > 0
    decreases |s|
    ensures Join(Split(s, sep), sep) == s
  {
    var r := Find(s, sep, 0);
    if r.Some? {
      var i := r.value;
      var rest := s[i + |sep|..];
      var pieces := Split(s, sep);
      assert pieces == [s[..i]] + Split(rest, sep);
      assert pieces[1..] == Split(rest, sep);
      SplitJoin(rest, sep);
      assert Join(pieces, sep) == s[..i] + sep + rest;
      assert s == s[..i] + s[i..i + |sep|] + rest;
    }
  }

  lemma {:induction false} PrefixFree(s: string, p: string, k: nat)
    requires |p| > 0 && k <= |s|
    requires forall i :: 0 <= i < k ==> !OccursAt(s, p, i)
    ensures !Contains(s[..k], p)
  {
    forall i | 0 <= i && i + |p| <= k ensures !OccursAt(s[..k], p, i) {
      assert s[..k][i..i + |p|] == s[i..i + |p|];
      assert !OccursAt(s, p, i);
    }
  }

  /** No piece of a split contains the separator. */
  lemma {:induction false} SplitPiecesFree(s: string, sep: string)
    requires |sep| > 0
    decreases |s|
    ensures forall j :: 0 <= j < |Split(s, sep)| ==> !Contains(Split(s, sep)[j], sep)
  {
    var r := Find(s, sep, 0);
    if r.None? {
      FindNone(s, sep);
    } else {
      var i := r.value;
      var rest := s[i + |sep|..];
      var pieces := Split(s, sep);
      assert pieces == [s[..i]] + Split(rest, sep);
      SplitPiecesFree(rest, sep);
      PrefixFree(s, sep, i);
      forall j | 0 <= j < |pieces| ensures !Contains(pieces[j], sep) {
        if j > 0 {
          assert pieces[j] == Split(rest, sep)[j - 1];
        }
      }
    }
  }

  /** When `a` does not contain `p`, and the first character of `p` does not occur again in `p`,
      the leftmost occurrence of `p` in `a + p + c` is the one right after `a`. */
  lemma FindAtJoin(a: string, p: string, c: string)
    requires |p| > 0 && !Contains(a, p)
    requires forall k :: 0 < k < |p| ==> p[k] != p[0]
    ensures Find(a + p + c, p, 0) == Some(|a|)
  {
    var s := a + p + c;
    assert s[|a|..|a| + |p|] == p;
    assert OccursAt(s, p, |a|);
    forall i | 0 <= i < |a| && i + |p| <= |s| ensures !OccursAt(s, p, i) {
      if i + |p| <= |a| {
        assert s[i..i + |p|] == a[i..i + |p|];
        assert !OccursAt(a, p, i);
      } else {
        assert s[i..i + |p|][|a| - i] == p[0];
      }
    }
  }

  /** `p` does not occur in `a + l + c` when it occurs in neither `a` nor `c` and cannot
      overlap `l`: `p` does not contain the first character of `l`, and no later character
      of `l` is the first character of `p`. */
  lemma NoneAcrossJoin(a: string, l: string, c: string, p: string)
    requires |p| > 0 && |l| > 0
    requires !Contains(a, p) && !Contains(c, p)
    requires forall k :: 0 <= k < |p| ==> p[k] != l[0]
    requires forall k :: 0 < k < |l| ==> l[k] != p[0]
    ensures !Contains(a + l + c, p)
  {
    var s := a + l + c;
    forall i | 0 <= i && i + |p| <= |s| ensures !OccursAt(s, p, i) {
      if i + |p| <= |a| {
        assert s[i..i + |p|] == a[i..i + |p|];
        assert !OccursAt(a, p, i);
      } else if i <= |a| {
        assert s[i..i + |p|][|a| - i] == l[0];
      } else if i < |a| + |l| {
        assert s[i..i + |p|][0] == l[i - |a|];
      } else {
        var j := i - |a| - |l|;
        assert s[i..i + |p|] == c[j..j + |p|];
        assert !OccursAt(c, p, j);
      }
    }
  }
}
