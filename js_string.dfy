/** The part of the ECMAScript string library that the request validator
    relies on: `String.prototype.trim` (section 22.1.3.32 of ECMA-262), which
    removes leading and trailing WhiteSpace (section 12.2) and LineTerminator
    (section 12.3) code points. A JavaScript string is modelled as a sequence
    of `char`; surrogate pairs are not modelled. */
module JsString {

  /** WhiteSpace of ECMA-262 section 12.2: TAB, VT, FF, ZWNBSP and every code
      point of Unicode general category Zs (Space_Separator): SPACE,
      NO-BREAK SPACE, OGHAM SPACE MARK, U+2000 to U+200A, NARROW NO-BREAK
      SPACE, MEDIUM MATHEMATICAL SPACE and IDEOGRAPHIC SPACE. */
  predicate IsWhiteSpace(c: char)
  {
    || c == '\U{9}' || c == '\U{B}' || c == '\U{C}' || c == '\U{FEFF}'
    || c == '\U{20}' || c == '\U{A0}' || c == '\U{1680}'
    || ('\U{2000}' <= c <= '\U{200A}')
    || c == '\U{202F}' || c == '\U{205F}' || c == '\U{3000}'
  }

  /** LineTerminator of ECMA-262 section 12.3: LF, CR, LS and PS. */
  predicate IsLineTerminator(c: char)
  {
    c == '\U{A}' || c == '\U{D}' || c == '\U{2028}' || c == '\U{2029}'
  }

  /** The code points that `trim` removes from either end. */
  predicate IsTrimmable(c: char)
  {
    IsWhiteSpace(c) || IsLineTerminator(c)
  }

  /** Every character of `s` is removed by `trim`. */
  predicate AllTrimmable(s: seq<char>)
  {
    forall k :: 0 <= k < |s| ==> IsTrimmable(s[k])
  }

  /** The first index at or after `i` whose character `trim` keeps, or `|s|`
      when there is none. */
  function KeptStart(s: seq<char>, i: nat): (n: nat)
    requires i <= |s|
    ensures i <= n <= |s|
    ensures forall k :: i <= k < n ==> IsTrimmable(s[k])
    ensures n < |s| ==> !IsTrimmable(s[n])
    decreases |s| - i
  {
    if i < |s| && IsTrimmable(s[i]) then KeptStart(s, i + 1) else i
  }

  /** The end (exclusive) of the last character in `s[lo..j]` that `trim`
      keeps, or `lo` when there is none. */
  function KeptEnd(s: seq<char>, lo: nat, j: nat): (m: nat)
    requires lo <= j <= |s|
    ensures lo <= m <= j
    ensures forall k :: m <= k < j ==> IsTrimmable(s[k])
    ensures m > lo ==> !IsTrimmable(s[m - 1])
    decreases j
  {
    if j > lo && IsTrimmable(s[j - 1]) then KeptEnd(s, lo, j - 1) else j
  }

  /** `String.prototype.trim`. */
  function Trim(s: seq<char>): (r: seq<char>)
    ensures |r| <= |s|
    ensures r == [] || (!IsTrimmable(r[0]) && !IsTrimmable(r[|r| - 1]))
  {
    var a := KeptStart(s, 0);
    var b := KeptEnd(s, a, |s|);
    assert b > a ==> s[a..b][0] == s[a] && s[a..b][b - a - 1] == s[b - 1];
    s[a..b]
  }

  /** Helper: `KeptStart` is determined by its contract. */
  lemma KeptStartUnique(s: seq<char>, i: nat, n: nat)
    requires i <= n <= |s|
    requires forall k :: i <= k < n ==> IsTrimmable(s[k])
    requires n < |s| ==> !IsTrimmable(s[n])
    ensures KeptStart(s, i) == n
  {
  }

  /** Helper: `KeptEnd` is determined by its contract. */
  lemma KeptEndUnique(s: seq<char>, lo: nat, j: nat, m: nat)
    requires lo <= m <= j <= |s|
    requires forall k :: m <= k < j ==> IsTrimmable(s[k])
    requires m > lo ==> !IsTrimmable(s[m - 1])
    ensures KeptEnd(s, lo, j) == m
  {
  }

  /** The result of `trim` is the infix of its input that starts at the first
      kept character; only trimmable code points stand before and after it. */
  lemma TrimIsInfix(s: seq<char>)
    ensures var i := KeptStart(s, 0);
            && i + |Trim(s)| <= |s| && Trim(s) == s[i..i + |Trim(s)|]
            && (forall k :: 0 <= k < i ==> IsTrimmable(s[k]))
            && (forall k :: i + |Trim(s)| <= k < |s| ==> IsTrimmable(s[k]))
  {
  }

  /** `trim` yields the empty string exactly when every character is trimmable. */
  lemma TrimEmptyIff(s: seq<char>)
    ensures Trim(s) == [] <==> AllTrimmable(s)
  {
    var a := KeptStart(s, 0);
    var b := KeptEnd(s, a, |s|);
    if Trim(s) == [] {
      assert |s[a..b]| == 0;
    }
  }

  /** A string that neither starts nor ends with a trimmable code point is
      returned unchanged. */
  lemma TrimUnchanged(s: seq<char>)
    requires s == [] || (!IsTrimmable(s[0]) && !IsTrimmable(s[|s| - 1]))
    ensures Trim(s) == s
  {
    KeptStartUnique(s, 0, 0);
    KeptEndUnique(s, 0, |s|, |s|);
  }

  /** `trim` is idempotent. */
  lemma TrimIdempotent(s: seq<char>)
    ensures Trim(Trim(s)) == Trim(s)
  {
    TrimUnchanged(Trim(s));
  }

  /** `trim` only removes characters: a character absent from `s` is absent
      from `Trim(s)`. */
  lemma TrimKeepsAbsent(s: seq<char>, c: char)
    requires c !in s
    ensures c !in Trim(s)
  {
    var a := KeptStart(s, 0);
    var b := KeptEnd(s, a, |s|);
    forall k | 0 <= k < b - a ensures s[a..b][k] != c {
      assert s[a..b][k] == s[a + k];
    }
  }

  /** Helper: `t` is `s` behind `d` trimmable code points. */
  predicate PaddedInFront(t: seq<char>, s: seq<char>, d: nat)
  {
    && d + |s| == |t|
    && (forall k :: 0 <= k < d ==> IsTrimmable(t[k]))
    && (forall k :: 0 <= k < |s| ==> t[d + k] == s[k])
  }

  /** Helper: `t` is `s` followed by trimmable code points. */
  predicate PaddedBehind(t: seq<char>, s: seq<char>)
  {
    && |s| <= |t|
    && (forall k :: 0 <= k < |s| ==> t[k] == s[k])
    && (forall k :: |s| <= k < |t| ==> IsTrimmable(t[k]))
  }

  /** Helper: the first kept character moves by the padding. */
  lemma KeptStartInFront(t: seq<char>, s: seq<char>, d: nat)
    requires PaddedInFront(t, s, d)
    ensures KeptStart(t, 0) == d + KeptStart(s, 0)
  {
    var a := KeptStart(s, 0);
    forall k | 0 <= k < d + a ensures IsTrimmable(t[k]) {
      if d <= k {
        assert t[d + (k - d)] == s[k - d];
      }
    }
    if d + a < |t| {
      assert t[d + a] == s[a];
    }
    KeptStartUnique(t, 0, d + a);
  }

  /** Helper: the end of the last kept character moves by the padding. */
  lemma KeptEndInFront(t: seq<char>, s: seq<char>, d: nat, a: nat)
    requires PaddedInFront(t, s, d) && a <= |s|
    ensures KeptEnd(t, d + a, |t|) == d + KeptEnd(s, a, |s|)
  {
    var b := KeptEnd(s, a, |s|);
    forall k | d + b <= k < |t| ensures IsTrimmable(t[k]) {
      assert t[d + (k - d)] == s[k - d];
    }
    if d + b > d + a {
      assert t[d + (b - 1)] == s[b - 1];
    }
    KeptEndUnique(t, d + a, |t|, d + b);
  }

  /** Helper: trailing padding does not move the first kept character of a
      string that has one. */
  lemma KeptStartBehind(t: seq<char>, s: seq<char>)
    requires PaddedBehind(t, s)
    ensures KeptStart(t, 0) == if KeptStart(s, 0) < |s| then KeptStart(s, 0) else |t|
  {
    var a := KeptStart(s, 0);
    if a < |s| {
      assert t[a] == s[a];
      KeptStartUnique(t, 0, a);
    } else {
      forall k | 0 <= k < |t| ensures IsTrimmable(t[k]) {
        if k < |s| {
          assert t[k] == s[k];
        }
      }
      KeptStartUnique(t, 0, |t|);
    }
  }

  /** Helper: trailing padding does not move the end of the last kept
      character. */
  lemma KeptEndBehind(t: seq<char>, s: seq<char>, a: nat)
    requires PaddedBehind(t, s) && a <= |s|
    ensures KeptEnd(t, a, |t|) == KeptEnd(s, a, |s|)
  {
    var b := KeptEnd(s, a, |s|);
    forall k | b <= k < |t| ensures IsTrimmable(t[k]) {
      if k < |s| {
        assert t[k] == s[k];
      }
    }
    if b > a {
      assert t[b - 1] == s[b - 1];
    }
    KeptEndUnique(t, a, |t|, b);
  }

  /** Helper: the same characters stand in `t` from `d` on as in `s`. */
  lemma SliceShift(t: seq<char>, s: seq<char>, d: nat, a: nat, b: nat)
    requires d + |s| <= |t| && a <= b <= |s|
    requires forall k :: 0 <= k < |s| ==> t[d + k] == s[k]
    ensures t[d + a..d + b] == s[a..b]
  {
    forall k | 0 <= k < b - a ensures t[d + a..d + b][k] == s[a..b][k] {
      assert t[d + a..d + b][k] == t[d + (a + k)];
    }
  }

  /** Trimmable code points in front of a string do not change its trimmed
      form; in particular they do not count towards its trimmed length. */
  lemma TrimIgnoresLeadingPadding(p: seq<char>, s: seq<char>)
    requires AllTrimmable(p)
    ensures Trim(p + s) == Trim(s)
  {
    var t := p + s;
    assert PaddedInFront(t, s, |p|) by {
      forall k | 0 <= k < |p| ensures t[k] == p[k] { }
      forall k | 0 <= k < |s| ensures t[|p| + k] == s[k] { }
    }
    PaddedTrim(t, s, |p|);
  }

  /** Helper: `TrimIgnoresLeadingPadding` over the index relation. */
  lemma PaddedTrim(t: seq<char>, s: seq<char>, d: nat)
    requires PaddedInFront(t, s, d)
    ensures Trim(t) == Trim(s)
  {
    var a := KeptStart(s, 0);
    KeptStartInFront(t, s, d);
    KeptEndInFront(t, s, d, a);
    SliceShift(t, s, d, a, KeptEnd(s, a, |s|));
  }

  /** Trimmable code points after a string do not change its trimmed form. */
  lemma TrimIgnoresTrailingPadding(s: seq<char>, p: seq<char>)
    requires AllTrimmable(p)
    ensures Trim(s + p) == Trim(s)
  {
    var t := s + p;
    assert PaddedBehind(t, s) by {
      forall k | 0 <= k < |s| ensures t[k] == s[k] { }
      forall k | |s| <= k < |t| ensures IsTrimmable(t[k]) {
        assert t[k] == p[k - |s|];
      }
    }
    PaddedBehindTrim(t, s);
  }

  /** Helper: `TrimIgnoresTrailingPadding` over the index relation. */
  lemma PaddedBehindTrim(t: seq<char>, s: seq<char>)
    requires PaddedBehind(t, s)
    ensures Trim(t) == Trim(s)
  {
    if KeptStart(s, 0) < |s| {
      PaddedBehindKept(t, s);
    } else {
      PaddedBehindBlank(t, s);
    }
  }

  /** Helper: the case of `PaddedBehindTrim` where `s` keeps a character. */
  lemma PaddedBehindKept(t: seq<char>, s: seq<char>)
    requires PaddedBehind(t, s) && KeptStart(s, 0) < |s|
    ensures Trim(t) == Trim(s)
  {
    var a := KeptStart(s, 0);
    KeptStartBehind(t, s);
    KeptEndBehind(t, s, a);
    SlicePrefix(t, s, a, KeptEnd(s, a, |s|));
  }

  /** Helper: `t` and `s` agree on `s[a..b]`. */
  lemma SlicePrefix(t: seq<char>, s: seq<char>, a: nat, b: nat)
    requires PaddedBehind(t, s) && a <= b <= |s|
    ensures t[a..b] == s[a..b]
  {
    forall k | 0 <= k < b - a ensures t[a..b][k] == s[a..b][k] {
      assert t[a..b][k] == t[a + k];
    }
  }

  /** Helper: the case of `PaddedBehindTrim` where `s` is blank. */
  lemma PaddedBehindBlank(t: seq<char>, s: seq<char>)
    requires PaddedBehind(t, s) && KeptStart(s, 0) == |s|
    ensures Trim(t) == Trim(s)
  {
    KeptStartBehind(t, s);
    assert KeptEnd(s, |s|, |s|) == |s|;
    assert KeptEnd(t, |t|, |t|) == |t|;
  }
}
