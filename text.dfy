/**
 * Python's string primitives that run.py relies on, over `seq<char>`:
 * substring membership (`t in s`), `str.index`, `str.count`, `str.split`
 * and slicing with out-of-order bounds.
 */
module Text {
  import opened Results

  /** The characters of `t` from index `m` on agree with those of `s` from `i + m` on. */
  predicate MatchesFrom(s: string, t: string, i: int, m: nat)
    decreases |t| - m
  {
    m >= |t| || (0 <= i + m < |s| && s[i + m] == t[m] && MatchesFrom(s, t, i, m + 1))
  }

  /** `t` occurs in `s` starting at index `i`. */
  predicate OccursAt(s: string, t: string, i: int) {
    0 <= i && i + |t| <= |s| && MatchesFrom(s, t, i, 0)
  }

  lemma {:induction false} MatchesFromChars(s: string, t: string, i: int, m: nat)
    requires 0 <= i && i + |t| <= |s|
    ensures MatchesFrom(s, t, i, m) <==> forall q :: m <= q < |t| ==> s[i + q] == t[q]
    decreases |t| - m
  {
    if m < |t| {
      MatchesFromChars(s, t, i, m + 1);
    }
  }

  /** An occurrence, character by character. */
  lemma OccursAtChars(s: string, t: string, i: int)
    ensures OccursAt(s, t, i) <==> 0 <= i && i + |t| <= |s| && forall q :: 0 <= q < |t| ==> s[i + q] == t[q]
  {
    if 0 <= i && i + |t| <= |s| {
      MatchesFromChars(s, t, i, 0);
    }
  }

  /** An occurrence, as a slice. */
  lemma OccursAtSlice(s: string, t: string, i: int)
    ensures OccursAt(s, t, i) <==> 0 <= i && i + |t| <= |s| && s[i..i + |t|] == t
  {
    OccursAtChars(s, t, i);
  }

  /** Python's `t in s`. */
  ghost predicate Contains(s: string, t: string) {
    exists i :: OccursAt(s, t, i)
  }

  /** No occurrence of `t` in `s` starts before index `k`. */
  ghost predicate NoneBefore(s: string, t: string, k: int) {
    forall j :: 0 <= j < k ==> !OccursAt(s, t, j)
  }

  /** `i` is the leftmost occurrence of `t` in `s`. */
  ghost predicate FirstAt(s: string, t: string, i: int) {
    OccursAt(s, t, i) && NoneBefore(s, t, i)
  }

  /** Scan for `t` in `s` from index `k` on. */
  function IndexFrom(s: string, t: string, k: nat): (r: Option<nat>)
    ensures r.Some? ==> k <= r.value && OccursAt(s, t, r.value)
    ensures r.Some? ==> forall j :: k <= j < r.value ==> !OccursAt(s, t, j)
    ensures r.None? ==> forall j :: k <= j ==> !OccursAt(s, t, j)
    decreases |s| - k
  {
    if |s| < k + |t| then None
    else if OccursAt(s, t, k) then Some(k)
    else IndexFrom(s, t, k + 1)
  }

  /** Python's `str.index` (and `str.find`): the leftmost occurrence, or `None`. */
  function IndexOf(s: string, t: string): (r: Option<nat>)
    ensures r.Some? ==> FirstAt(s, t, r.value)
    ensures r.None? ==> !Contains(s, t)
  {
    IndexFrom(s, t, 0)
  }

  /** A text is found at the start of any text it begins. */
  lemma IndexOfStart(t: string, rest: string)
    ensures IndexOf(t + rest, t) == Some(0)
  {
    OccursAtSlice(t + rest, t, 0);
    assert (t + rest)[0..|t|] == t;
    IndexOfIs(t + rest, t, 0);
  }

  /** A tag is first found right after a prefix that does not contain it. */
  lemma FoundAfter(a: string, t: string, rest: string)
    requires TagShaped(t) && !Contains(a, t)
    ensures IndexOf(a + (t + rest), t) == Some(|a|)
  {
    IndexOfStart(t, rest);
    IndexOfAfter(a, t + rest, t);
  }

  /** The leftmost occurrence is unique, so `IndexOf` is determined by `FirstAt`. */
  lemma IndexOfIs(s: string, t: string, i: int)
    requires FirstAt(s, t, i)
    ensures IndexOf(s, t) == Some(i)
  {
    assert IndexOf(s, t).Some?;
  }

  lemma OccursInSuffix(a: string, b: string, t: string, k: int)
    requires 0 <= k
    ensures OccursAt(a + b, t, |a| + k) <==> OccursAt(b, t, k)
  {
    OccursAtSlice(a + b, t, |a| + k);
    OccursAtSlice(b, t, k);
    if k + |t| <= |b| {
      assert (a + b)[|a| + k..|a| + k + |t|] == b[k..k + |t|];
    }
  }

  lemma OccursInPrefix(a: string, b: string, t: string, k: int)
    requires 0 <= k && k + |t| <= |a|
    ensures OccursAt(a + b, t, k) <==> OccursAt(a, t, k)
  {
    OccursAtSlice(a + b, t, k);
    OccursAtSlice(a, t, k);
    assert (a + b)[k..k + |t|] == a[k..k + |t|];
  }

  /**
   * Markup tags have the shape of `t` below: a '<' first and nowhere else.
   * Such a tag cannot occur across a boundary that is followed by a '<'.
   */
  ghost predicate TagShaped(t: string) {
    |t| > 0 && t[0] == '<' && forall k :: 0 < k < |t| ==> t[k] != '<'
  }

  /** `b` is empty or opens with '<', as every tag does. */
  ghost predicate OpensWithLt(b: string) {
    |b| == 0 || b[0] == '<'
  }

  lemma NoStraddle(a: string, b: string, t: string, j: int)
    requires TagShaped(t) && OpensWithLt(b) && !Contains(a, t) && 0 <= j < |a|
    ensures !OccursAt(a + b, t, j)
  {
    if j + |t| <= |a| {
      OccursInPrefix(a, b, t, j);
    } else {
      OccursAtChars(a + b, t, j);
      if j + |t| <= |a + b| {
        var k := |a| - j;
        assert (a + b)[j + k] == b[0] != t[k];
      }
    }
  }

  /** Past a stretch without occurrences, the scan goes on as if it had started after it. */
  lemma {:induction false} IndexFromSkip(s: string, t: string, k: nat, k': nat)
    requires k <= k'
    requires forall j :: k <= j < k' ==> !OccursAt(s, t, j)
    ensures IndexFrom(s, t, k) == IndexFrom(s, t, k')
    decreases k' - k
  {
    if k < k' && k + |t| <= |s| {
      IndexFromSkip(s, t, k + 1, k');
    }
  }

  /** From index `k` on, `u` has an occurrence exactly `d` places after each of `s`. */
  ghost predicate Aligned(s: string, u: string, t: string, k: int, d: int) {
    |u| == |s| + d && forall j :: k <= j ==> (OccursAt(s, t, j) <==> OccursAt(u, t, j + d))
  }

  /** Scanning aligned texts finds aligned occurrences. */
  lemma {:induction false} IndexFromAligned(s: string, u: string, t: string, k: nat, d: int)
    requires k + d >= 0 && Aligned(s, u, t, k, d)
    ensures IndexFrom(u, t, k + d) == match IndexFrom(s, t, k) case None => None case Some(i) => Some(i + d)
    decreases |s| - k
  {
    if k + |t| <= |s| && !OccursAt(s, t, k) {
      IndexFromAligned(s, u, t, k + 1, d);
    }
  }

  /** The part after a prefix is aligned with the whole, shifted by the prefix. */
  lemma SuffixAligned(a: string, b: string, t: string)
    ensures Aligned(b, a + b, t, 0, |a|)
  {
    forall j | 0 <= j ensures OccursAt(b, t, j) <==> OccursAt(a + b, t, j + |a|) {
      OccursInSuffix(a, b, t, j);
    }
  }

  /** Behind a prefix free of a tag, the tag is first found where it is first found in the rest. */
  lemma IndexOfAfter(a: string, b: string, t: string)
    requires TagShaped(t) && OpensWithLt(b) && !Contains(a, t)
    ensures IndexOf(a + b, t) == match IndexOf(b, t) case None => None case Some(k) => Some(|a| + k)
  {
    forall j | 0 <= j < |a| ensures !OccursAt(a + b, t, j) {
      NoStraddle(a, b, t, j);
    }
    IndexFromSkip(a + b, t, 0, |a|);
    SuffixAligned(a, b, t);
    IndexFromAligned(b, a + b, t, 0, |a|);
  }

  /** Gluing two tag-free texts at a '<' boundary gives a tag-free text. */
  lemma NotContainsConcat(a: string, b: string, t: string)
    requires TagShaped(t) && OpensWithLt(b) && !Contains(a, t) && !Contains(b, t)
    ensures !Contains(a + b, t)
  {
    IndexOfAfter(a, b, t);
  }

  /** Non-overlapping occurrences of `t` in `s` from index `k` on, left to right. */
  function CountFrom(s: string, t: string, k: nat): nat
    requires |t| > 0
    decreases |s| - k
  {
    match IndexFrom(s, t, k)
    case None => 0
    case Some(i) => 1 + CountFrom(s, t, i + |t|)
  }

  /** Python's `str.count` for a non-empty needle. */
  function Count(s: string, t: string): (n: nat)
    requires |t| > 0
    ensures n == 0 <==> !Contains(s, t)
  {
    CountFrom(s, t, 0)
  }

  lemma CountFromSkip(s: string, t: string, k: nat, k': nat)
    requires |t| > 0 && k <= k'
    requires forall j :: k <= j < k' ==> !OccursAt(s, t, j)
    ensures CountFrom(s, t, k) == CountFrom(s, t, k')
  {
    IndexFromSkip(s, t, k, k');
  }

  /** Aligned texts hold as many occurrences from the aligned indexes on. */
  lemma {:induction false} CountFromAligned(s: string, u: string, t: string, k: nat, d: int)
    requires |t| > 0 && k + d >= 0 && Aligned(s, u, t, k, d)
    ensures CountFrom(u, t, k + d) == CountFrom(s, t, k)
    decreases |s| - k
  {
    IndexFromAligned(s, u, t, k, d);
    var r := IndexFrom(s, t, k);
    if r.Some? {
      CountFromAligned(s, u, t, r.value + |t|, d);
    }
  }

  /**
   * Counting from the end of `p`: a stretch `a` free of a tag, followed by a
   * boundary at a '<', adds nothing to the count of the tag in `b`.
   */
  lemma CountFromAfter(p: string, a: string, b: string, t: string)
    requires TagShaped(t) && OpensWithLt(b) && !Contains(a, t)
    ensures CountFrom(p + a + b, t, |p|) == Count(b, t)
  {
    var w := p + a + b;
    MiddleFree(p, a, b, t, w);
    CountFromSkip(w, t, |p|, |p| + |a|);
    SuffixAligned(p + a, b, t);
    CountFromAligned(b, w, t, 0, |p| + |a|);
    assert CountFrom(w, t, |p| + |a|) == CountFrom(b, t, 0);
  }

  /** No occurrence of a tag starts in a tag-free stretch in front of a '<' boundary. */
  lemma MiddleFree(p: string, a: string, b: string, t: string, w: string)
    requires TagShaped(t) && OpensWithLt(b) && !Contains(a, t) && w == p + a + b
    ensures forall j :: |p| <= j < |p| + |a| ==> !OccursAt(w, t, j)
  {
    assert w == p + (a + b);
    forall j | |p| <= j < |p| + |a| ensures !OccursAt(w, t, j) {
      OccursInSuffix(p, a + b, t, j - |p|);
      NoStraddle(a, b, t, j - |p|);
    }
  }

  /** The pieces of `s.split(sep)` from index `k` on. */
  function SplitFrom(s: string, sep: string, k: nat): (parts: seq<string>)
    requires |sep| > 0 && k <= |s|
    ensures |parts| == CountFrom(s, sep, k) + 1
    decreases |s| - k
  {
    match IndexFrom(s, sep, k)
    case None => [s[k..]]
    case Some(i) => [s[k..i]] + SplitFrom(s, sep, i + |sep|)
  }

  /** Python's `s.split(sep)` for a non-empty separator. */
  function Split(s: string, sep: string): (parts: seq<string>)
    requires |sep| > 0
    ensures |parts| == Count(s, sep) + 1
  {
    SplitFrom(s, sep, 0)
  }

  /** Python's `sep.join(parts)`. */
  function Join(parts: seq<string>, sep: string): string
    requires |parts| > 0
  {
    if |parts| == 1 then parts[0] else parts[0] + sep + Join(parts[1..], sep)
  }

  lemma {:induction false} JoinSplitFrom(s: string, sep: string, k: nat)
    requires |sep| > 0 && k <= |s|
    ensures Join(SplitFrom(s, sep, k), sep) == s[k..]
    decreases |s| - k
  {
    var r := IndexFrom(s, sep, k);
    if r.Some? {
      var i := r.value;
      JoinSplitFrom(s, sep, i + |sep|);
      SplitAround(s, sep, k, i);
    }
  }

  /** A text is the part before an occurrence of `sep`, `sep`, and the part after it. */
  lemma SplitAround(s: string, sep: string, k: nat, i: nat)
    requires k <= i && OccursAt(s, sep, i)
    ensures s[k..] == s[k..i] + sep + s[i + |sep|..]
  {
    OccursAtSlice(s, sep, i);
    assert s[k..] == s[k..i] + s[i..i + |sep|] + s[i + |sep|..];
  }

  /** Joining the pieces of a split with the separator gives back the text. */
  lemma JoinSplit(s: string, sep: string)
    requires |sep| > 0
    ensures Join(Split(s, sep), sep) == s
  {
    JoinSplitFrom(s, sep, 0);
    assert s[0..] == s;
  }

  /** A piece running from `k` to `i`, with no occurrence starting in between, holds none. */
  lemma PieceFree(s: string, sep: string, k: nat, i: nat)
    requires |sep| > 0 && k <= i <= |s|
    requires forall j :: k <= j < i ==> !OccursAt(s, sep, j)
    ensures !Contains(s[k..i], sep)
  {
    forall j | OccursAt(s[k..i], sep, j) ensures false {
      OccursAtChars(s[k..i], sep, j);
      OccursAtChars(s, sep, k + j);
      forall q | 0 <= q < |sep| ensures s[k + j + q] == sep[q] {
        assert s[k..i][j + q] == s[k + j + q];
      }
    }
  }

  lemma {:induction false} SplitFromPiecesFree(s: string, sep: string, k: nat)
    requires |sep| > 0 && k <= |s|
    ensures forall m :: 0 <= m < |SplitFrom(s, sep, k)| ==> !Contains(SplitFrom(s, sep, k)[m], sep)
    decreases |s| - k
  {
    var r := IndexFrom(s, sep, k);
    if r.None? {
      PieceFree(s, sep, k, |s|);
      assert s[k..|s|] == s[k..];
    } else {
      var i := r.value;
      PieceFree(s, sep, k, i);
      SplitFromPiecesFree(s, sep, i + |sep|);
    }
  }

  /** No piece of a split contains the separator. */
  lemma SplitPiecesFree(s: string, sep: string)
    requires |sep| > 0
    ensures forall m :: 0 <= m < |Split(s, sep)| ==> !Contains(Split(s, sep)[m], sep)
  {
    SplitFromPiecesFree(s, sep, 0);
  }

  /** Python slicing `s[lo:hi]` with non-negative bounds: clamped, and empty when `hi <= lo`. */
  function Slice(s: string, lo: nat, hi: nat): (r: string)
    ensures lo <= hi <= |s| ==> r == s[lo..hi]
    ensures hi <= lo ==> r == ""
  {
    var lo' := if lo < |s| then lo else |s|;
    var hi' := if hi < |s| then hi else |s|;
    if hi' <= lo' then "" else s[lo'..hi']
  }
}
