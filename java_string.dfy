// The handful of java.lang.String operations the TOML reader is built on,
// with the meaning Java gives them: trim() strips every character up to
// U+0020 at both ends, indexOf/lastIndexOf answer -1 when the character is
// absent, and substring(begin, end) fails (StringIndexOutOfBoundsException)
// unless 0 <= begin <= end <= length.
//
// The contracts of the functions are kept free of quantifiers; what holds of
// every position is stated in the lemmas beside them.

module JavaString {

  datatype Option<T> = None | Some(value: T)

  /** The characters String.trim() removes: every code point up to the space. */
  predicate IsTrimmable(c: char) {
    c <= ' '
  }

  /** Where trim() starts: the first position in [i, hi) whose character is kept, or `hi`. */
  function TrimStart(s: string, i: nat, hi: nat): (a: nat)
    requires i <= hi <= |s|
    ensures i <= a <= hi
    ensures a < hi ==> !IsTrimmable(s[a])
    decreases hi - i
  {
    if i < hi && IsTrimmable(s[i]) then TrimStart(s, i + 1, hi) else i
  }

  /** Where trim() ends: `hi` moved back over removable characters, but never below `lo`. */
  function TrimEnd(s: string, lo: nat, hi: nat): (b: nat)
    requires lo <= hi <= |s|
    ensures lo <= b <= hi
    ensures lo < b ==> !IsTrimmable(s[b - 1])
    decreases hi
  {
    if lo < hi && IsTrimmable(s[hi - 1]) then TrimEnd(s, lo, hi - 1) else hi
  }

  /** String.trim(): the start index moves forward, then the end index back, over removable characters. */
  function Trim(s: string): (r: string)
    ensures |r| <= |s|
    ensures r != "" ==> !IsTrimmable(r[0]) && !IsTrimmable(r[|r| - 1])
  {
    var a := TrimStart(s, 0, |s|);
    s[a..TrimEnd(s, a, |s|)]
  }

  /** s.substring(from).trim(), found without building the suffix first. */
  function TrimFrom(s: string, from: nat): (r: string)
    requires from <= |s|
  {
    var a := TrimStart(s, from, |s|);
    s[a..TrimEnd(s, a, |s|)]
  }

  /** s.substring(0, end).trim(), found without building the prefix first. */
  function TrimTo(s: string, end: nat): (r: string)
    requires end <= |s|
  {
    var a := TrimStart(s, 0, end);
    s[a..TrimEnd(s, a, end)]
  }

  /** Nothing TrimStart passes over is kept. */
  lemma {:induction false} TrimStartSkipsRemovable(s: string, i: nat, hi: nat)
    requires i <= hi <= |s|
    ensures forall k :: i <= k < TrimStart(s, i, hi) ==> IsTrimmable(s[k])
    decreases hi - i
  {
    if i < hi && IsTrimmable(s[i]) {
      TrimStartSkipsRemovable(s, i + 1, hi);
    }
  }

  /** Nothing TrimEnd passes over is kept. */
  lemma {:induction false} TrimEndSkipsRemovable(s: string, lo: nat, hi: nat)
    requires lo <= hi <= |s|
    ensures forall k :: TrimEnd(s, lo, hi) <= k < hi ==> IsTrimmable(s[k])
    decreases hi
  {
    if lo < hi && IsTrimmable(s[hi - 1]) {
      TrimEndSkipsRemovable(s, lo, hi - 1);
    }
  }

  /** trim() keeps one contiguous piece of `s` and drops only removable characters around it. */
  lemma TrimIsInfix(s: string)
    ensures exists a, b ::
      && 0 <= a <= b <= |s| && Trim(s) == s[a..b]
      && (forall k :: 0 <= k < a ==> IsTrimmable(s[k]))
      && (forall k :: b <= k < |s| ==> IsTrimmable(s[k]))
  {
    var a := TrimStart(s, 0, |s|);
    TrimStartSkipsRemovable(s, 0, |s|);
    TrimEndSkipsRemovable(s, a, |s|);
    assert Trim(s) == s[a..TrimEnd(s, a, |s|)];
  }

  /** trim() gives "" exactly for the strings made only of removable characters. */
  lemma TrimEmpty(s: string)
    ensures Trim(s) == "" <==> forall k :: 0 <= k < |s| ==> IsTrimmable(s[k])
  {
    TrimIsInfix(s);
  }

  /**
   * TrimStart looks at the same characters in the slice t == s[from..end]:
   * position `i` of `t` is position `k` == from + i of `s`.
   */
  lemma {:induction false} TrimStartShift(s: string, t: string, from: nat, end: nat, i: nat, k: nat)
    requires from <= end <= |s| && t == s[from..end] && i <= |t| && k == from + i
    ensures TrimStart(t, i, |t|) + from == TrimStart(s, k, end)
    decreases |t| - i
  {
    if i < |t| {
      assert t[i] == s[k];
      if IsTrimmable(t[i]) {
        TrimStartShift(s, t, from, end, i + 1, k + 1);
      }
    }
  }

  /**
   * TrimEnd looks at the same characters in the slice t == s[from..end]:
   * the bounds `lo` and `hi` of `t` are the bounds `lo'` and `hi'` of `s`.
   */
  lemma {:induction false} TrimEndShift(s: string, t: string, from: nat, end: nat, lo: nat, hi: nat, lo': nat, hi': nat)
    requires from <= end <= |s| && t == s[from..end] && lo <= hi <= |t|
    requires lo' == from + lo && hi' == from + hi
    ensures TrimEnd(t, lo, hi) + from == TrimEnd(s, lo', hi')
    decreases hi
  {
    if lo < hi {
      assert t[hi - 1] == s[hi' - 1];
      if IsTrimmable(t[hi - 1]) {
        TrimEndShift(s, t, from, end, lo, hi - 1, lo', hi' - 1);
      }
    }
  }

  /** A slice of the slice t == s[from..end] is the slice of `s` between the same characters. */
  lemma SliceOfSlice(s: string, t: string, from: nat, end: nat, i: nat, j: nat, i': nat, j': nat)
    requires from <= end <= |s| && t == s[from..end] && i <= j <= |t|
    requires i' == from + i && j' == from + j
    ensures t[i..j] == s[i'..j']
  {
    assert forall k :: 0 <= k < j - i ==> t[i..j][k] == s[i'..j'][k];
  }

  /** Trimming the slice s[from..end] is trimming s between the same bounds. */
  lemma TrimSlice(s: string, from: nat, end: nat)
    requires from <= end <= |s|
    ensures var a := TrimStart(s, from, end); Trim(s[from..end]) == s[a..TrimEnd(s, a, end)]
  {
    var t := s[from..end];
    var a, a' := TrimStart(s, from, end), TrimStart(t, 0, |t|);
    TrimStartShift(s, t, from, end, 0, from);
    var b, b' := TrimEnd(s, a, end), TrimEnd(t, a', |t|);
    TrimEndShift(s, t, from, end, a', |t|, a, end);
    assert Trim(t) == t[a'..b'];
    SliceOfSlice(s, t, from, end, a', b', a, b);
  }

  /** TrimFrom(s, from) is s.substring(from).trim(). */
  lemma TrimFromIsTrim(s: string, from: nat)
    requires from <= |s|
    ensures TrimFrom(s, from) == Trim(s[from..])
  {
    TrimSlice(s, from, |s|);
    assert s[from..|s|] == s[from..];
  }

  /** TrimTo(s, end) is s.substring(0, end).trim(). */
  lemma TrimToIsTrim(s: string, end: nat)
    requires end <= |s|
    ensures TrimTo(s, end) == Trim(s[..end])
  {
    TrimSlice(s, 0, end);
    assert s[0..end] == s[..end];
  }

  /** s.startsWith(String.valueOf(c)). */
  predicate StartsWith(s: string, c: char) {
    |s| > 0 && s[0] == c
  }

  /** s.indexOf(c, from): the first position at or after `from` holding `c`, or -1. */
  function IndexFrom(s: string, c: char, from: nat): (r: int)
    requires from <= |s|
    ensures r == -1 || from <= r < |s|
    ensures r != -1 ==> s[r] == c
    decreases |s| - from
  {
    if from == |s| then -1 else if s[from] == c then from else IndexFrom(s, c, from + 1)
  }

  /** Nothing IndexFrom passes over is `c`; -1 means `c` does not occur from `from` on. */
  lemma {:induction false} IndexFromIsFirst(s: string, c: char, from: nat)
    requires from <= |s|
    ensures var r := IndexFrom(s, c, from);
      forall j :: from <= j < (if r == -1 then |s| else r) ==> s[j] != c
    decreases |s| - from
  {
    if from < |s| && s[from] != c {
      IndexFromIsFirst(s, c, from + 1);
    }
  }

  /** s.indexOf(c): the first position of `c`, or -1. */
  function IndexOf(s: string, c: char): (r: int)
    ensures -1 <= r < |s|
    ensures r != -1 ==> s[r] == c
  {
    IndexFrom(s, c, 0)
  }

  /** indexOf finds the first occurrence, and answers -1 only when there is none. */
  lemma IndexOfIsFirst(s: string, c: char)
    ensures IndexOf(s, c) == -1 ==> forall j :: 0 <= j < |s| ==> s[j] != c
    ensures IndexOf(s, c) != -1 ==> forall j :: 0 <= j < IndexOf(s, c) ==> s[j] != c
  {
    IndexFromIsFirst(s, c, 0);
  }

  /** s.lastIndexOf(c, before - 1): the last position before `before` holding `c`, or -1. */
  function LastIndexBefore(s: string, c: char, before: nat): (r: int)
    requires before <= |s|
    ensures -1 <= r < before
    ensures r != -1 ==> s[r] == c
    decreases before
  {
    if before == 0 then -1 else if s[before - 1] == c then before - 1 else LastIndexBefore(s, c, before - 1)
  }

  /** Nothing LastIndexBefore passes over is `c`. */
  lemma {:induction false} LastIndexBeforeIsLast(s: string, c: char, before: nat)
    requires before <= |s|
    ensures forall j :: LastIndexBefore(s, c, before) < j < before ==> s[j] != c
    decreases before
  {
    if before > 0 && s[before - 1] != c {
      LastIndexBeforeIsLast(s, c, before - 1);
    }
  }

  /** s.lastIndexOf(c): the last position of `c`, or -1. */
  function LastIndexOf(s: string, c: char): (r: int)
    ensures -1 <= r < |s|
    ensures r != -1 ==> s[r] == c
  {
    LastIndexBefore(s, c, |s|)
  }

  /** lastIndexOf finds the last occurrence, and answers -1 only when there is none. */
  lemma LastIndexOfIsLast(s: string, c: char)
    ensures forall j :: LastIndexOf(s, c) < j < |s| ==> s[j] != c
    ensures c !in s[LastIndexOf(s, c) + 1..]
  {
    var last := LastIndexOf(s, c);
    LastIndexBeforeIsLast(s, c, |s|);
    var after := s[last + 1..];
    forall j | 0 <= j < |after|
      ensures after[j] != c
    {
      assert after[j] == s[last + 1 + j];
    }
  }

  /** s.substring(begin, end), or None where Java throws StringIndexOutOfBoundsException. */
  function Substring(s: string, begin: int, end: int): (r: Option<string>)
    ensures r.Some? <==> 0 <= begin <= end <= |s|
    ensures r.Some? ==> r.value == s[begin..end]
  {
    if 0 <= begin <= end <= |s| then Some(s[begin..end]) else None
  }
}
