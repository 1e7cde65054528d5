/**
 * The Python string operations the pipeline relies on, over `seq<char>`:
 * `str.rstrip()`, the substring test `w in s`, `s.split(c)` and `c.join(parts)`
 * for a one-character separator, and `''.join(parts)`.
 */
module Strings {

  /** The characters Python 2's `str.rstrip()` removes: space, tab, newline,
      vertical tab, form feed and carriage return (codes 32 and 9 to 13). */
  predicate IsSpace(c: char)
  {
    c == ' ' || '\t' <= c <= '\r'
  }

  /** The length `s[..n]` keeps once its trailing whitespace is removed. */
  function StrippedLength(s: string, n: nat): (m: nat)
    requires n <= |s|
    ensures m <= n
    decreases n
  {
    if n > 0 && IsSpace(s[n - 1]) then StrippedLength(s, n - 1) else n
  }

  /** `s.rstrip()`: `s` without its trailing whitespace. */
  function RStrip(s: string): string
  {
    s[..StrippedLength(s, |s|)]
  }

  /** `StrippedLength` stops at a non-space character, and all it skips is whitespace. */
  lemma {:induction false} StrippedLengthStops(s: string, n: nat)
    requires n <= |s|
    ensures var m := StrippedLength(s, n);
      (m == 0 || !IsSpace(s[m - 1])) && forall k :: m <= k < n ==> IsSpace(s[k])
    decreases n
  {
    if n > 0 && IsSpace(s[n - 1]) {
      StrippedLengthStops(s, n - 1);
    }
  }

  /** `StrippedLength` only looks at the first `n` characters. */
  lemma {:induction false} StrippedLengthOfPrefix(s: string, t: string, n: nat)
    requires n <= |s| && s <= t
    ensures StrippedLength(t, n) == StrippedLength(s, n)
    decreases n
  {
    if n > 0 {
      assert t[n - 1] == s[n - 1];
      StrippedLengthOfPrefix(s, t, n - 1);
    }
  }

  /** `RStrip(s)` is the longest prefix of `s` that does not end in whitespace:
      everything it drops is whitespace. */
  lemma RStripIsLongestPrefix(s: string)
    ensures RStrip(s) <= s
    ensures RStrip(s) == [] || !IsSpace(RStrip(s)[|RStrip(s)| - 1])
    ensures forall k :: |RStrip(s)| <= k < |s| ==> IsSpace(s[k])
  {
    StrippedLengthStops(s, |s|);
  }

  /** Stripping a string that ends in a non-space character changes nothing. */
  lemma RStripKeeps(s: string)
    requires s != [] && !IsSpace(s[|s| - 1])
    ensures RStrip(s) == s
  {
    assert s[..|s|] == s;
  }

  /** A trailing whitespace character is always stripped. */
  lemma RStripDropsSpace(s: string, c: char)
    requires IsSpace(c)
    ensures RStrip(s + [c]) == RStrip(s)
  {
    var t := s + [c];
    StrippedLengthOfPrefix(s, t, |s|);
    var m := StrippedLength(s, |s|);
    assert StrippedLength(t, |t|) == m;
    assert t[..m] == s[..m];
  }

  /** Python's `w in s` on strings: `w` occurs in `s` as a contiguous substring. */
  predicate Contains(s: string, w: string)
    decreases |s|
  {
    w <= s || (s != [] && Contains(s[1..], w))
  }

  /** `w` occurs in `s` starting at index `i`. */
  predicate OccursAt(s: string, w: string, i: int)
  {
    0 <= i <= |s| - |w| && s[i..i + |w|] == w
  }

  /** An occurrence at index `i` is found by `Contains`. */
  lemma {:induction false} OccursContains(s: string, w: string, i: int)
    requires OccursAt(s, w, i)
    ensures Contains(s, w)
    decreases i
  {
    if i > 0 {
      assert s[1..][i - 1..i - 1 + |w|] == s[i..i + |w|];
      assert OccursAt(s[1..], w, i - 1);
      OccursContains(s[1..], w, i - 1);
    } else {
      assert w == s[..|w|];
    }
  }

  /** `Contains` finds only actual occurrences. */
  lemma {:induction false} ContainsOccurs(s: string, w: string)
    requires Contains(s, w)
    ensures exists i :: OccursAt(s, w, i)
    decreases |s|
  {
    if w <= s {
      assert OccursAt(s, w, 0);
    } else {
      ContainsOccurs(s[1..], w);
      var i :| OccursAt(s[1..], w, i);
      assert s[i + 1..i + 1 + |w|] == s[1..][i..i + |w|];
      assert OccursAt(s, w, i + 1);
    }
  }

  /** `Contains` is the substring relation: `w` occurs in `s` at some index. */
  lemma ContainsIffOccurs(s: string, w: string)
    ensures Contains(s, w) <==> exists i :: OccursAt(s, w, i)
  {
    if Contains(s, w) {
      ContainsOccurs(s, w);
    }
    forall i | OccursAt(s, w, i)
      ensures Contains(s, w)
    {
      OccursContains(s, w, i);
    }
  }

  /** For a one-character `w`, Python's `w in s` is character membership. */
  lemma {:induction false} ContainsChar(s: string, c: char)
    ensures Contains(s, [c]) <==> c in s
    decreases |s|
  {
    if s != [] {
      ContainsChar(s[1..], c);
      assert s == [s[0]] + s[1..];
    }
  }

  /** A string contains whatever one of its prefixes contains. */
  lemma {:induction false} ContainsInPrefix(p: string, s: string, w: string)
    requires p <= s && Contains(p, w)
    ensures Contains(s, w)
    decreases |p|
  {
    if w <= p {
    } else {
      assert p[1..] <= s[1..];
      ContainsInPrefix(p[1..], s[1..], w);
    }
  }

  /** A string contains every string placed inside it. */
  lemma {:induction false} ContainsMiddle(a: string, w: string, b: string)
    ensures Contains(a + w + b, w)
    decreases |a|
  {
    if a == [] {
      assert a + w + b == w + b;
    } else {
      assert (a + w + b)[1..] == a[1..] + w + b;
      ContainsMiddle(a[1..], w, b);
    }
  }

  /** A string that contains `w + x` contains `w`. */
  lemma {:induction false} ContainsStartOfWord(s: string, w: string, x: string)
    ensures Contains(s, w + x) ==> Contains(s, w)
    decreases |s|
  {
    if Contains(s, w + x) {
      if w + x <= s {
        assert s[..|w|] == (w + x)[..|w|] == w;
      } else {
        ContainsStartOfWord(s[1..], w, x);
      }
    }
  }

  /** A prefix of `a + [c] + b` that is longer than `a` contains `c`. */
  lemma PrefixPastChar(a: string, c: char, b: string, w: string)
    requires w <= a + [c] + b && |w| > |a|
    ensures c in w
  {
    assert w[|a|] == c;
  }

  /** An occurrence of `w` in `a + [c] + b` lies inside `a` or inside `b`
      when `w` does not itself contain the character `c`. */
  lemma {:induction false} ContainsAcross(a: string, c: char, b: string, w: string)
    requires c !in w
    requires Contains(a + [c] + b, w)
    ensures Contains(a, w) || Contains(b, w)
    decreases |a|
  {
    var s := a + [c] + b;
    if w <= s {
      if |w| > |a| {
        PrefixPastChar(a, c, b, w);
        assert false;
      }
      assert w == a[..|w|];
    } else if a == [] {
      assert s[1..] == b;
    } else {
      assert s[1..] == a[1..] + [c] + b;
      ContainsAcross(a[1..], c, b, w);
    }
  }

  /** Python's `s.split(c)` for a one-character separator `c`: the pieces
      between consecutive occurrences of `c`. */
  function Split(s: string, c: char): (r: seq<string>)
    ensures |r| >= 1
    decreases |s|
  {
    if s == [] then [""]
    else
      assert s == [s[0]] + s[1..];
      var rest := Split(s[1..], c);
      if s[0] == c then [""] + rest
      else [[s[0]] + rest[0]] + rest[1..]
  }

  /** Python's `c.join(parts)`: the parts with one `c` between neighbours. */
  function Join(parts: seq<string>, c: char): (r: string)
  {
    if |parts| == 0 then ""
    else if |parts| == 1 then parts[0]
    else parts[0] + [c] + Join(parts[1..], c)
  }

  /** No piece of `s.split(c)` contains the separator. */
  lemma {:induction false} SplitPiecesFree(s: string, c: char)
    ensures forall k :: 0 <= k < |Split(s, c)| ==> c !in Split(s, c)[k]
    decreases |s|
  {
    if s != [] {
      var rest := Split(s[1..], c);
      SplitPiecesFree(s[1..], c);
      if s[0] != c {
        var r := [[s[0]] + rest[0]] + rest[1..];
        assert Split(s, c) == r;
        assert c !in r[0];
        assert forall k :: 1 <= k < |r| ==> r[k] == rest[k];
      }
    }
  }

  /** `s.split(c)` has one piece more than `s` has occurrences of `c`. */
  lemma {:induction false} SplitCount(s: string, c: char)
    ensures |Split(s, c)| == 1 + multiset(s)[c]
    decreases |s|
  {
    if s != [] {
      SplitCount(s[1..], c);
      assert s == [s[0]] + s[1..];
      assert multiset(s) == multiset([s[0]]) + multiset(s[1..]);
    }
  }

  /** Joining the pieces with the separator gives back the string: `c.join(s.split(c)) == s`. */
  lemma {:induction false} JoinSplit(s: string, c: char)
    ensures Join(Split(s, c), c) == s
    decreases |s|
  {
    if s != [] {
      var rest := Split(s[1..], c);
      JoinSplit(s[1..], c);
      assert s == [s[0]] + s[1..];
      if s[0] == c {
        var r := [""] + rest;
        assert Split(s, c) == r;
        assert r[1..] == rest;
        assert Join(r, c) == "" + [c] + Join(rest, c);
      } else if |rest| == 1 {
        var r := [[s[0]] + rest[0]];
        assert Split(s, c) == r;
        assert Join(r, c) == [s[0]] + rest[0];
      } else {
        var r := [[s[0]] + rest[0]] + rest[1..];
        assert Split(s, c) == r;
        assert r[1..] == rest[1..];
        var tail := Join(rest[1..], c);
        assert Join(r, c) == [s[0]] + rest[0] + [c] + tail;
        assert Join(rest, c) == rest[0] + [c] + tail;
        assert [s[0]] + rest[0] + [c] + tail == [s[0]] + (rest[0] + [c] + tail);
      }
    }
  }

  /** The first piece of `s.split(c)` is the text before the first `c`:
      a prefix of `s` free of `c`, followed in `s` by `c` unless it is all of `s`. */
  lemma SplitFirst(s: string, c: char)
    ensures Split(s, c)[0] <= s
    ensures c !in Split(s, c)[0]
    ensures |Split(s, c)[0]| < |s| ==> s[|Split(s, c)[0]|] == c
    ensures c !in s ==> Split(s, c) == [s]
  {
    var r := Split(s, c);
    JoinSplit(s, c);
    SplitPiecesFree(s, c);
    if |r| > 1 {
      assert s == r[0] + [c] + Join(r[1..], c);
      assert s[|r[0]|] == c;
    } else if c !in s {
      assert r == [r[0]];
    }
  }

  /** When `c` occurs in `s`, the first piece of `s.split(c)` stops before the end of `s`. */
  lemma {:induction false} SplitFirstShorter(s: string, c: char)
    requires c in s
    ensures |Split(s, c)[0]| < |s|
    decreases |s|
  {
    if s[0] != c {
      assert s == [s[0]] + s[1..];
      SplitFirstShorter(s[1..], c);
    }
  }

  /** A piece free of `c` followed by `c` splits off as the first piece. */
  lemma {:induction false} SplitAfterPiece(p: string, c: char, t: string)
    requires c !in p
    ensures Split(p + [c] + t, c) == [p] + Split(t, c)
    decreases |p|
  {
    var s := p + [c] + t;
    if p == [] {
      assert s == [c] + t;
      assert s[1..] == t;
    } else {
      assert s[1..] == p[1..] + [c] + t;
      SplitAfterPiece(p[1..], c, t);
      assert [p[0]] + p[1..] == p;
    }
  }

  /** Splitting undoes joining: for parts free of the separator,
      `c.join(parts).split(c) == parts`. */
  lemma {:induction false} SplitJoin(parts: seq<string>, c: char)
    requires |parts| > 0
    requires forall k :: 0 <= k < |parts| ==> c !in parts[k]
    ensures Split(Join(parts, c), c) == parts
    decreases |parts|
  {
    if |parts| == 1 {
      SplitFirst(parts[0], c);
    } else {
      SplitAfterPiece(parts[0], c, Join(parts[1..], c));
      SplitJoin(parts[1..], c);
      assert [parts[0]] + parts[1..] == parts;
    }
  }

  /** An occurrence of `w` in a join lies inside one of the parts when `w`
      does not contain the separator. */
  lemma {:induction false} ContainsInJoin(parts: seq<string>, c: char, w: string)
    requires w != [] && c !in w
    requires Contains(Join(parts, c), w)
    ensures exists k :: 0 <= k < |parts| && Contains(parts[k], w)
    decreases |parts|
  {
    if |parts| == 1 {
      assert Contains(parts[0], w);
    } else {
      ContainsAcross(parts[0], c, Join(parts[1..], c), w);
      if !Contains(parts[0], w) {
        ContainsInJoin(parts[1..], c, w);
        var k :| 0 <= k < |parts| - 1 && Contains(parts[1..][k], w);
        assert Contains(parts[k + 1], w);
      }
    }
  }

  /** Python's `''.join(parts)`. */
  function Concat(parts: seq<string>): string
  {
    if parts == [] then "" else parts[0] + Concat(parts[1..])
  }

  /** Joining one more part appends that part. */
  lemma {:induction false} ConcatSnoc(parts: seq<string>, p: string)
    ensures Concat(parts + [p]) == Concat(parts) + p
  {
    if parts != [] {
      assert (parts + [p])[1..] == parts[1..] + [p];
      ConcatSnoc(parts[1..], p);
    }
  }
}
