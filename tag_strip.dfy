/** The HTML tag removal of the request validator: a global replace of every
    match of the regular expression `<[^>]*>?` by the empty string. A match
    starts at a `<`; the greedy `[^>]*` then takes every character up to (not
    including) the next `>`, other `<` characters included, and `>?` takes that
    `>` when there is one. So each `<` deletes itself and everything up to the
    next `>` inclusive, or up to the end of the string when no `>` follows.
    The `m` flag has no effect because the pattern has no anchors. */
module TagStrip {

  /** The index of the first `>` in `t`, or `|t|` when `t` has none: the
      length of what `[^>]*` matches at the front of `t`. */
  function CloseIndex(t: seq<char>): (n: nat)
    ensures n <= |t|
    ensures forall k :: 0 <= k < n ==> t[k] != '>'
    ensures n < |t| ==> t[n] == '>'
  {
    if t == [] || t[0] == '>' then 0 else 1 + CloseIndex(t[1..])
  }

  /** `s.replace(/<[^>]*>?/gm, "")`: scanning left to right, a `<` starts a
      match that ends after the next `>` or at the end of `s`; every match is
      removed and every other character is kept. */
  function StripTags(s: seq<char>): (r: seq<char>)
    ensures '<' !in r
    ensures |r| <= |s|
    decreases |s|
  {
    if s == [] then []
    else if s[0] != '<' then [s[0]] + StripTags(s[1..])
    else
      var n := CloseIndex(s[1..]);
      // the `>` that closes the match, if any, is s[n + 1]
      if n + 1 < |s| then StripTags(s[n + 2..]) else []
  }

  /** Reference view, independent of the scan in `StripTags`: after reading
      `s`, the scanner is inside an unclosed match, that is, some `<` of `s`
      has no `>` after it. */
  ghost predicate InsideTag(s: seq<char>)
  {
    exists j :: 0 <= j < |s| && s[j] == '<' && forall k :: j < k < |s| ==> s[k] != '>'
  }

  /** How reading one more character moves the reference view: a `<` opens a
      match, a `>` closes any open one, any other character leaves it as it was. */
  lemma InsideTagSnoc(s: seq<char>, c: char)
    ensures InsideTag(s + [c]) <==> c == '<' || (c != '>' && InsideTag(s))
  {
    var t := s + [c];
    if c == '<' {
      assert t[|s|] == '<';
    }
    if c != '<' && InsideTag(t) {
      var j :| 0 <= j < |t| && t[j] == '<' && forall k :: j < k < |t| ==> t[k] != '>';
      assert j < |s| && t[j] == s[j];
      assert t[|s|] == c;
      forall k | j < k < |s| ensures s[k] != '>' {
        assert t[k] == s[k];
      }
    }
    if c != '>' && InsideTag(s) {
      var j :| 0 <= j < |s| && s[j] == '<' && forall k :: j < k < |s| ==> s[k] != '>';
      assert t[j] == '<';
      forall k | j < k < |t| ensures t[k] != '>' {
        if k < |s| { assert t[k] == s[k]; } else { assert t[k] == c; }
      }
    }
  }

  /** The empty string is outside any match. */
  lemma InsideTagEmpty()
    ensures !InsideTag([])
  {
  }

  /** Helper: a leading character other than `<` cannot open a match. */
  lemma InsideTagDropText(s: seq<char>)
    requires s != [] && s[0] != '<'
    ensures InsideTag(s) <==> InsideTag(s[1..])
  {
    var u := s[1..];
    if InsideTag(s) {
      var j :| 0 <= j < |s| && s[j] == '<' && forall k :: j < k < |s| ==> s[k] != '>';
      assert j >= 1 && u[j - 1] == s[j];
      forall k | j - 1 < k < |u| ensures u[k] != '>' {
        assert u[k] == s[k + 1];
      }
    }
    if InsideTag(u) {
      var j :| 0 <= j < |u| && u[j] == '<' && forall k :: j < k < |u| ==> u[k] != '>';
      assert s[j + 1] == u[j];
      forall k | j + 1 < k < |s| ensures s[k] != '>' {
        assert s[k] == u[k - 1];
      }
    }
  }

  /** Helper: a `>` closes every match before it, so only what follows it
      decides whether the scanner ends inside a match. */
  lemma InsideTagDropClosed(s: seq<char>, m: nat)
    requires 1 <= m <= |s| && s[m - 1] == '>'
    ensures InsideTag(s) <==> InsideTag(s[m..])
  {
    var u := s[m..];
    if InsideTag(s) {
      var j :| 0 <= j < |s| && s[j] == '<' && forall k :: j < k < |s| ==> s[k] != '>';
      assert j >= m;
      assert u[j - m] == s[j];
      forall k | j - m < k < |u| ensures u[k] != '>' {
        assert u[k] == s[k + m];
      }
    }
    if InsideTag(u) {
      var j :| 0 <= j < |u| && u[j] == '<' && forall k :: j < k < |u| ==> u[k] != '>';
      assert s[j + m] == u[j];
      forall k | j + m < k < |s| ensures s[k] != '>' {
        assert s[k] == u[k - m];
      }
    }
  }

  /** Helper: an unclosed `<` leaves the scanner inside a match. */
  lemma InsideTagOpen(s: seq<char>)
    requires s != [] && s[0] == '<'
    requires forall k :: 1 <= k < |s| ==> s[k] != '>'
    ensures InsideTag(s)
  {
    assert s[0] == '<';
  }

  /** Helper: `CloseIndex` is determined by its contract. */
  lemma CloseIndexUnique(t: seq<char>, m: nat)
    requires m <= |t|
    requires forall k :: 0 <= k < m ==> t[k] != '>'
    requires m < |t| ==> t[m] == '>'
    ensures CloseIndex(t) == m
  {
  }

  /** The scan in `StripTags` agrees with the reference view, one character
      at a time: appending `c` appends `c` to the output exactly when `c` is
      not `<` and the input read so far is not inside an unclosed match. */
  lemma {:induction false} StripTagsSnoc(s: seq<char>, c: char)
    ensures StripTags(s + [c]) == StripTags(s) + (if c == '<' || InsideTag(s) then [] else [c])
    decreases |s|, 1
  {
    if s == [] {
      var t := s + [c];
      assert t == [c];
      if c == '<' {
        assert CloseIndex(t[1..]) == 0;
      } else {
        assert t[1..] == [];
      }
    } else if s[0] != '<' {
      SnocAfterText(s, c);
    } else if CloseIndex(s[1..]) + 1 < |s| {
      SnocAfterClosedTag(s, c);
    } else {
      SnocInOpenTag(s, c);
    }
  }

  /** Helper for `StripTagsSnoc`: `s` starts with a kept character. */
  lemma {:induction false} SnocAfterText(s: seq<char>, c: char)
    requires s != [] && s[0] != '<'
    ensures StripTags(s + [c]) == StripTags(s) + (if c == '<' || InsideTag(s) then [] else [c])
    decreases |s|, 0
  {
    var t := s + [c];
    assert t[0] == s[0];
    assert t[1..] == s[1..] + [c];
    StripTagsSnoc(s[1..], c);
    InsideTagDropText(s);
  }

  /** Helper for `StripTagsSnoc`: `s` starts with a match that `s` closes. */
  lemma {:induction false} SnocAfterClosedTag(s: seq<char>, c: char)
    requires s != [] && s[0] == '<' && CloseIndex(s[1..]) + 1 < |s|
    ensures StripTags(s + [c]) == StripTags(s) + (if c == '<' || InsideTag(s) then [] else [c])
    decreases |s|, 0
  {
    var t := s + [c];
    var n := CloseIndex(s[1..]);
    var u := s[n + 2..];
    assert t[0] == '<' && t[1..] == s[1..] + [c];
    CloseIndexUnique(t[1..], n);
    assert t[n + 2..] == u + [c];
    ClosedHead(t);
    assert StripTags(t) == StripTags(u + [c]);
    ClosedHead(s);
    StripTagsSnoc(u, c);
  }

  /** Helper: when the match of a leading `<` closes, stripping and the
      reference view both restart after its `>`. */
  lemma ClosedHead(s: seq<char>)
    requires s != [] && s[0] == '<' && CloseIndex(s[1..]) + 1 < |s|
    ensures StripTags(s) == StripTags(s[CloseIndex(s[1..]) + 2..])
    ensures InsideTag(s) <==> InsideTag(s[CloseIndex(s[1..]) + 2..])
  {
    var n := CloseIndex(s[1..]);
    assert s[n + 1] == s[1..][n] == '>';
    InsideTagDropClosed(s, n + 2);
  }

  /** Helper for `StripTagsSnoc`: `s` starts with a match still open at its end. */
  lemma SnocInOpenTag(s: seq<char>, c: char)
    requires s != [] && s[0] == '<' && CloseIndex(s[1..]) + 1 >= |s|
    ensures StripTags(s + [c]) == StripTags(s) + (if c == '<' || InsideTag(s) then [] else [c])
  {
    OpenHead(s);
    OpenHeadSnoc(s, c);
  }

  /** Helper: a character appended after an unclosed match is removed with it. */
  lemma OpenHeadSnoc(s: seq<char>, c: char)
    requires s != [] && s[0] == '<' && CloseIndex(s[1..]) + 1 >= |s|
    ensures StripTags(s + [c]) == []
  {
    var t := s + [c];
    var n := CloseIndex(s[1..]);
    assert t[0] == '<' && t[1..] == s[1..] + [c];
    if c == '>' {
      CloseIndexUnique(t[1..], n);
      ClosedHead(t);
      assert t[n + 2..] == [];
    } else {
      CloseIndexUnique(t[1..], n + 1);
      OpenHead(t);
    }
  }

  /** Helper: a leading `<` whose match is never closed removes everything
      and leaves the scanner inside a match. */
  lemma OpenHead(s: seq<char>)
    requires s != [] && s[0] == '<' && CloseIndex(s[1..]) + 1 >= |s|
    ensures StripTags(s) == []
    ensures InsideTag(s)
  {
    forall k | 1 <= k < |s| ensures s[k] != '>' {
      assert s[k] == s[1..][k - 1];
    }
    InsideTagOpen(s);
  }

  /** A closed prefix is stripped on its own: when `x` does not end inside a
      match, stripping `x + y` strips `x` and `y` separately. */
  lemma {:induction false} StripTagsAppend(x: seq<char>, y: seq<char>)
    requires !InsideTag(x)
    ensures StripTags(x + y) == StripTags(x) + StripTags(y)
    ensures InsideTag(x + y) <==> InsideTag(y)
    decreases |y|
  {
    if y == [] {
      assert x + y == x;
      InsideTagEmpty();
    } else {
      var z := y[..|y| - 1];
      var c := y[|y| - 1];
      assert y == z + [c];
      assert x + y == (x + z) + [c];
      StripTagsAppend(x, z);
      StripTagsSnoc(x + z, c);
      StripTagsSnoc(z, c);
      InsideTagSnoc(x + z, c);
      InsideTagSnoc(z, c);
    }
  }

  /** `a` can be obtained from `b` by deleting characters. */
  predicate IsSubsequence(a: seq<char>, b: seq<char>)
    decreases |b|
  {
    if a == [] then true
    else if b == [] then false
    else (a[0] == b[0] && IsSubsequence(a[1..], b[1..])) || IsSubsequence(a, b[1..])
  }

  /** Helper: a subsequence of a suffix of `b` is a subsequence of `b`. */
  lemma {:induction false} SubsequenceOfSuffix(a: seq<char>, b: seq<char>, i: nat)
    requires i <= |b|
    requires IsSubsequence(a, b[i..])
    ensures IsSubsequence(a, b)
    decreases i
  {
    if i > 0 {
      assert b[i - 1..][1..] == b[i..];
      SubsequenceOfSuffix(a, b, i - 1);
    } else {
      assert b[0..] == b;
    }
  }

  /** Stripping only deletes characters: the output is a subsequence of the
      input, in the same order. */
  lemma {:induction false} StripTagsSubsequence(s: seq<char>)
    ensures IsSubsequence(StripTags(s), s)
    decreases |s|
  {
    if s != [] {
      if s[0] != '<' {
        StripTagsSubsequence(s[1..]);
        assert ([s[0]] + StripTags(s[1..]))[1..] == StripTags(s[1..]);
      } else {
        var n := CloseIndex(s[1..]);
        if n + 1 < |s| {
          StripTagsSubsequence(s[n + 2..]);
          SubsequenceOfSuffix(StripTags(s), s, n + 2);
        }
      }
    }
  }

  /** A subsequence is no longer than the sequence it is taken from, and
      every character of it occurs there. */
  lemma {:induction false} SubsequenceBounds(a: seq<char>, b: seq<char>)
    requires IsSubsequence(a, b)
    ensures |a| <= |b|
    ensures multiset(a) <= multiset(b)
    decreases |b|
  {
    if a != [] {
      assert b == [b[0]] + b[1..];
      if a[0] == b[0] && IsSubsequence(a[1..], b[1..]) {
        SubsequenceBounds(a[1..], b[1..]);
        assert a == [a[0]] + a[1..];
      } else {
        SubsequenceBounds(a, b[1..]);
      }
    }
  }

  /** Without a `<` there is nothing to remove: the string is kept as it is,
      `>` characters included. */
  lemma {:induction false} StripTagsIdentity(s: seq<char>)
    requires '<' !in s
    ensures StripTags(s) == s
    decreases |s|
  {
    if s != [] {
      assert s[0] in s;
      StripTagsIdentity(s[1..]);
      assert s == [s[0]] + s[1..];
    }
  }

  /** Stripping is idempotent. */
  lemma StripTagsIdempotent(s: seq<char>)
    ensures StripTags(StripTags(s)) == StripTags(s)
  {
    StripTagsIdentity(StripTags(s));
  }
}
