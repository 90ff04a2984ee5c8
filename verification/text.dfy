/** The parts of `java.lang.String` the watcher relies on, over `seq<char>`:
    character counting, literal `replace`, `trim` and `split` on a single
    separator character. */
module Text {

  /** Number of occurrences of `c` in `s` (`s.chars().filter(ch -> ch == c).count()`). */
  function CountChar(s: string, c: char): nat
  {
    if |s| == 0 then 0
    else (if s[0] == c then 1 else 0) + CountChar(s[1..], c)
  }

  lemma {:induction false} CountCharAppend(a: string, b: string, c: char)
    ensures CountChar(a + b, c) == CountChar(a, c) + CountChar(b, c)
    decreases |a|
  {
    if |a| == 0 {
      assert a + b == b;
    } else {
      assert (a + b)[1..] == a[1..] + b;
      CountCharAppend(a[1..], b, c);
    }
  }

  /** `n` copies of `c`: the watcher's `multiplyNTimes` and its padding loops. */
  function Repeat(c: char, n: nat): (r: string)
    ensures |r| == n
    ensures forall i :: 0 <= i < n ==> r[i] == c
  {
    if n == 0 then [] else [c] + Repeat(c, n - 1)
  }

  /** Every character lies in the Basic Multilingual Plane. */
  predicate InBmp(s: string)
  {
    forall i :: 0 <= i < |s| ==> s[i] as int < 0x1_0000
  }

  /** Java's `String.length()`: one UTF-16 code unit per character of the
      Basic Multilingual Plane, a surrogate pair of two for any other. */
  function Utf16Length(s: string): (n: nat)
    ensures |s| <= n <= 2 * |s|
  {
    if |s| == 0 then 0
    else (if s[0] as int < 0x1_0000 then 1 else 2) + Utf16Length(s[1..])
  }

  /** Java's length is the character count exactly when no character needs
      a surrogate pair. */
  lemma {:induction false} Utf16LengthIsCountIff(s: string)
    ensures Utf16Length(s) == |s| <==> InBmp(s)
    decreases |s|
  {
    if |s| > 0 {
      Utf16LengthIsCountIff(s[1..]);
      if InBmp(s) {
        assert InBmp(s[1..]) by {
          forall i | 0 <= i < |s[1..]| ensures s[1..][i] as int < 0x1_0000 {
            assert s[1..][i] == s[i + 1];
          }
        }
      } else if s[0] as int < 0x1_0000 {
        assert !InBmp(s[1..]) by {
          var i :| 0 <= i < |s| && s[i] as int >= 0x1_0000;
          assert s[1..][i - 1] == s[i];
        }
      }
    }
  }

  /** `p` occurs in `s` starting at index `i`. */
  predicate OccursAt(s: string, p: string, i: nat)
  {
    i + |p| <= |s| && s[i..i + |p|] == p
  }

  /** `p` occurs nowhere in `s`. */
  predicate Absent(s: string, p: string)
  {
    forall i: nat :: i <= |s| ==> !OccursAt(s, p, i)
  }

  /** Java's `s.replace(p, r)`: every non-overlapping occurrence of `p`, found
      left to right, is replaced by `r`. An empty `p` inserts `r` before every
      character and at the end. */
  function ReplaceAll(s: string, p: string, r: string): string
    decreases |s|
  {
    if |p| == 0 then
      (if |s| == 0 then r else r + [s[0]] + ReplaceAll(s[1..], p, r))
    else if OccursAt(s, p, 0) then r + ReplaceAll(s[|p|..], p, r)
    else if |s| == 0 then []
    else [s[0]] + ReplaceAll(s[1..], p, r)
  }

  /** Java's `s.replace(p, "")` (and `Matcher.replaceAll("")` on a literal pattern). */
  function RemoveAll(s: string, p: string): string
  {
    ReplaceAll(s, p, [])
  }

  lemma OccursAtShift(s: string, p: string, i: nat)
    requires |s| > 0
    ensures OccursAt(s[1..], p, i) <==> OccursAt(s, p, i + 1)
  {
    if i + 1 + |p| <= |s| {
      assert s[1..][i..i + |p|] == s[i + 1..i + 1 + |p|];
    }
  }

  /** Replacing a pattern that does not occur changes nothing. */
  lemma {:induction false} ReplaceAllAbsent(s: string, p: string, r: string)
    requires |p| > 0
    requires Absent(s, p)
    ensures ReplaceAll(s, p, r) == s
    decreases |s|
  {
    if |s| > 0 {
      assert !OccursAt(s, p, 0);
      forall i: nat
        ensures !OccursAt(s[1..], p, i)
      {
        OccursAtShift(s, p, i);
        assert !OccursAt(s, p, i + 1);
      }
      ReplaceAllAbsent(s[1..], p, r);
    }
  }

  /** Removing the empty string is the identity. */
  lemma {:induction false} RemoveEmpty(s: string)
    ensures RemoveAll(s, []) == s
    decreases |s|
  {
    if |s| > 0 {
      RemoveEmpty(s[1..]);
    }
  }

  /** When the first occurrence of `p` in `t + p` is the final one, replacing
      turns exactly that occurrence into `r`. */
  lemma {:induction false} ReplaceAllFirstAtEnd(t: string, p: string, r: string)
    requires |p| > 0
    requires forall i: nat :: i < |t| ==> !OccursAt(t + p, p, i)
    ensures ReplaceAll(t + p, p, r) == t + r
    decreases |t|
  {
    if |t| == 0 {
      assert t + p == p;
      assert OccursAt(p, p, 0);
      assert p[|p|..] == [];
    } else {
      var s := t + p;
      assert !OccursAt(s, p, 0);
      assert s[1..] == t[1..] + p;
      forall i: nat | i < |t[1..]|
        ensures !OccursAt(t[1..] + p, p, i)
      {
        OccursAtShift(s, p, i);
      }
      ReplaceAllFirstAtEnd(t[1..], p, r);
      assert ReplaceAll(s, p, r) == [s[0]] + ReplaceAll(s[1..], p, r);
      assert s[0] == t[0];
      assert [t[0]] + (t[1..] + r) == t + r;
    }
  }

  /** Removal never lengthens a string. */
  lemma {:induction false} RemoveAllNotLonger(s: string, p: string)
    requires |p| > 0
    ensures |RemoveAll(s, p)| <= |s|
    decreases |s|
  {
    if OccursAt(s, p, 0) {
      RemoveAllNotLonger(s[|p|..], p);
    } else if |s| > 0 {
      RemoveAllNotLonger(s[1..], p);
    }
  }

  /** Removal leaves a string unchanged exactly when the pattern does not
      occur in it: each occurrence found costs at least one character. */
  lemma {:induction false} RemoveAllIdentityIff(s: string, p: string)
    requires |p| > 0
    ensures RemoveAll(s, p) == s <==> Absent(s, p)
    decreases |s|
  {
    if Absent(s, p) {
      ReplaceAllAbsent(s, p, []);
    } else {
      var i: nat :| OccursAt(s, p, i);
      RemoveAllShorter(s, p, i);
    }
  }

  lemma {:induction false} RemoveAllShorter(s: string, p: string, i: nat)
    requires |p| > 0
    requires OccursAt(s, p, i)
    ensures |RemoveAll(s, p)| < |s|
    decreases |s|
  {
    if OccursAt(s, p, 0) {
      RemoveAllNotLonger(s[|p|..], p);
    } else {
      assert i > 0;
      OccursAtShift(s, p, i - 1);
      RemoveAllShorter(s[1..], p, i - 1);
    }
  }

  /** An occurrence at the front is removed and the search goes on after it. */
  lemma RemoveLeading(p: string, u: string)
    requires |p| > 0
    ensures RemoveAll(p + u, p) == RemoveAll(u, p)
  {
    assert OccursAt(p + u, p, 0);
    assert (p + u)[|p|..] == u;
  }

  /** A front character that starts no occurrence is kept. */
  lemma RemoveSkip(c: char, u: string, p: string)
    requires |p| > 0 && !OccursAt([c] + u, p, 0)
    ensures RemoveAll([c] + u, p) == [c] + RemoveAll(u, p)
  {
    assert ([c] + u)[1..] == u;
  }

  /** Replacing a single character distributes over concatenation. */
  lemma {:induction false} ReplaceCharAppend(a: string, b: string, c: char, r: string)
    ensures ReplaceAll(a + b, [c], r) == ReplaceAll(a, [c], r) + ReplaceAll(b, [c], r)
    decreases |a|
  {
    if |a| == 0 {
      assert a + b == b;
    } else {
      assert (a + b)[1..] == a[1..] + b;
      assert (a + b)[0..1] == [a[0]] == a[0..1];
      ReplaceCharAppend(a[1..], b, c, r);
    }
  }

  /** Java's `Character` test used by `String.trim`: code point at most U+0020. */
  predicate IsTrimmed(c: char)
  {
    c <= ' '
  }

  /** Number of trimmed characters at the front of `s`. */
  function LeadingTrimmed(s: string): (n: nat)
    ensures n <= |s|
    ensures forall i :: 0 <= i < n ==> IsTrimmed(s[i])
    ensures n < |s| ==> !IsTrimmed(s[n])
  {
    if |s| > 0 && IsTrimmed(s[0]) then 1 + LeadingTrimmed(s[1..]) else 0
  }

  /** End of the kept part of `s`, not before `lo`: everything after it is
      trimmed and the character just before it (if after `lo`) is not. */
  function KeptEnd(s: string, lo: nat): (m: nat)
    requires lo <= |s|
    ensures lo <= m <= |s|
    ensures forall i :: m <= i < |s| ==> IsTrimmed(s[i])
    ensures m > lo ==> !IsTrimmed(s[m - 1])
    decreases |s|
  {
    if |s| > lo && IsTrimmed(s[|s| - 1]) then KeptEnd(s[..|s| - 1], lo) else |s|
  }

  /** Java's `s.trim()`: the longest slice of `s` that neither starts nor ends
      with a character at or below U+0020. */
  function Trim(s: string): (r: string)
    ensures var a := LeadingTrimmed(s);
      && a + |r| <= |s| && r == s[a..a + |r|]
      && (forall i :: 0 <= i < a ==> IsTrimmed(s[i]))
      && (forall i :: a + |r| <= i < |s| ==> IsTrimmed(s[i]))
    ensures |r| > 0 ==> !IsTrimmed(r[0]) && !IsTrimmed(r[|r| - 1])
  {
    var a := LeadingTrimmed(s);
    s[a..KeptEnd(s, a)]
  }

  /** Every piece of `s` between separators `c`, empty pieces included. */
  function SplitAll(s: string, c: char): (pieces: seq<string>)
    ensures |pieces| >= 1
    decreases |s|
  {
    if |s| == 0 then [[]]
    else
      var rest := SplitAll(s[1..], c);
      if s[0] == c then [[]] + rest
      else [[s[0]] + rest[0]] + rest[1..]
  }

  /** Glues pieces back together with `c` between neighbours. */
  function Join(pieces: seq<string>, c: char): string
  {
    if |pieces| == 0 then []
    else if |pieces| == 1 then pieces[0]
    else pieces[0] + [c] + Join(pieces[1..], c)
  }

  /** Splitting loses nothing: joining the pieces gives the string back, and
      no piece contains the separator. */
  lemma {:induction false} SplitAllJoin(s: string, c: char)
    ensures Join(SplitAll(s, c), c) == s
    ensures forall k :: 0 <= k < |SplitAll(s, c)| ==> c !in SplitAll(s, c)[k]
    decreases |s|
  {
    if |s| > 0 {
      var rest := SplitAll(s[1..], c);
      SplitAllJoin(s[1..], c);
      if s[0] == c {
        assert SplitAll(s, c)[1..] == rest;
        assert s == [c] + s[1..];
      } else {
        var pieces := SplitAll(s, c);
        assert pieces[1..] == rest[1..];
        if |rest| > 1 {
          assert Join(rest, c) == rest[0] + [c] + Join(rest[1..], c);
        }
        assert s == [s[0]] + s[1..];
        forall k | 0 <= k < |pieces|
          ensures c !in pieces[k]
        {
          if k > 0 {
            assert pieces[k] == rest[k];
          }
        }
      }
    }
  }

  lemma {:induction false} SplitAllNoSeparator(s: string, c: char)
    requires c !in s
    ensures SplitAll(s, c) == [s]
    decreases |s|
  {
    if |s| > 0 {
      SplitAllNoSeparator(s[1..], c);
      assert [s[0]] + s[1..] == s;
    }
  }

  /** The first separator ends the first piece. */
  lemma {:induction false} SplitAllAt(a: string, b: string, c: char)
    requires c !in a
    ensures SplitAll(a + [c] + b, c) == [a] + SplitAll(b, c)
    decreases |a|
  {
    if |a| == 0 {
      assert (a + [c] + b)[1..] == b;
    } else {
      assert (a + [c] + b)[1..] == a[1..] + [c] + b;
      SplitAllAt(a[1..], b, c);
      assert [a[0]] + a[1..] == a;
    }
  }

  /** Joining pieces free of the separator and splitting again gives the
      pieces back. */
  lemma {:induction false} JoinSplitAll(pieces: seq<string>, c: char)
    requires |pieces| >= 1
    requires forall k :: 0 <= k < |pieces| ==> c !in pieces[k]
    ensures SplitAll(Join(pieces, c), c) == pieces
    decreases |pieces|
  {
    if |pieces| == 1 {
      SplitAllNoSeparator(pieces[0], c);
    } else {
      JoinSplitAll(pieces[1..], c);
      SplitAllAt(pieces[0], Join(pieces[1..], c), c);
      assert [pieces[0]] + pieces[1..] == pieces;
    }
  }

  /** A last separator followed by separator-free text adds that text as a
      final piece. */
  lemma {:induction false} SplitAllSnoc(x: string, z: string, c: char)
    requires c !in z
    ensures SplitAll(x + [c] + z, c) == SplitAll(x, c) + [z]
    decreases |x|
  {
    if |x| == 0 {
      assert x + [c] + z == [c] + z;
      assert ([c] + z)[1..] == z;
      SplitAllNoSeparator(z, c);
    } else {
      var s := x + [c] + z;
      assert s[1..] == x[1..] + [c] + z;
      SplitAllSnoc(x[1..], z, c);
      var rest := SplitAll(x[1..], c);
      if x[0] != c {
        assert (rest + [z])[1..] == rest[1..] + [z];
      }
    }
  }

  /** A string holding the separator splits into at least two pieces, the
      first shorter than the string. */
  lemma SplitAllFirstShorter(s: string, c: char)
    requires c in s
    ensures |SplitAll(s, c)| >= 2 && |SplitAll(s, c)[0]| < |s|
  {
    var pieces := SplitAll(s, c);
    SplitAllJoin(s, c);
    assert Join(pieces, c) == pieces[0] + [c] + Join(pieces[1..], c);
  }

  /** `s` is `p`, the separator, `x` and `q`, where `p` holds no separator
      and `q` is empty or starts with one: `x` is the second piece of `s`. */
  predicate SecondPieceLayout(s: string, c: char, p: string, x: string, q: string)
  {
    s == p + [c] + x + q && c !in p && (q == [] || q[0] == c)
  }

  /** The second piece sits right after the first separator, and is
      followed by the end of the string or by the next separator. */
  lemma SplitAllSecondPiece(s: string, c: char)
    requires |SplitAll(s, c)| >= 2
    ensures exists p, q :: SecondPieceLayout(s, c, p, SplitAll(s, c)[1], q)
  {
    var pieces := SplitAll(s, c);
    SplitAllJoin(s, c);
    var p := pieces[0];
    assert c !in p;
    assert s == p + [c] + Join(pieces[1..], c);
    if |pieces| == 2 {
      assert SecondPieceLayout(s, c, p, pieces[1], []);
    } else {
      var q := [c] + Join(pieces[2..], c);
      assert pieces[1..][1..] == pieces[2..];
      assert Join(pieces[1..], c) == pieces[1] + q;
      assert SecondPieceLayout(s, c, p, pieces[1], q);
    }
  }

  /** Java's `split` keeps the second piece as it is: it holds no
      separator, follows the first separator and runs to the next one or
      to the end. */
  lemma JavaSplitSecondPiece(s: string, c: char)
    requires |JavaSplit(s, c)| >= 2
    ensures c in s && c !in JavaSplit(s, c)[1]
    ensures exists p, q :: SecondPieceLayout(s, c, p, JavaSplit(s, c)[1], q)
  {
    assert c in s;
    var all := SplitAll(s, c);
    SplitAllJoin(s, c);
    assert JavaSplit(s, c) == StripTrailingEmpty(all);
    assert JavaSplit(s, c)[1] == all[1];
    SplitAllSecondPiece(s, c);
  }

  /** The separator occurs in a join of two or more pieces. */
  lemma JoinHasSeparator(pieces: seq<string>, c: char)
    requires |pieces| >= 2
    ensures c in Join(pieces, c)
  {
    assert Join(pieces, c) == pieces[0] + [c] + Join(pieces[1..], c);
    assert (pieces[0] + [c] + Join(pieces[1..], c))[|pieces[0]|] == c;
  }

  /** Drops the empty strings at the end, as Java's `split` with limit 0 does. */
  function StripTrailingEmpty(xs: seq<string>): (r: seq<string>)
    ensures |r| <= |xs| && r == xs[..|r|]
    ensures |r| > 0 ==> r[|r| - 1] != []
    ensures forall k :: |r| <= k < |xs| ==> xs[k] == []
  {
    if |xs| > 0 && xs[|xs| - 1] == [] then StripTrailingEmpty(xs[..|xs| - 1]) else xs
  }

  /** Java's `s.split(c)` for a one-character, non-special separator: the
      whole string when `c` does not occur, otherwise the pieces with the
      trailing empty ones dropped. */
  function JavaSplit(s: string, c: char): seq<string>
  {
    if c !in s then [s] else StripTrailingEmpty(SplitAll(s, c))
  }

  /** Java's `split` undoes a join of separator-free pieces whose last piece
      is not empty. */
  lemma JavaSplitJoin(pieces: seq<string>, c: char)
    requires |pieces| >= 1 && pieces[|pieces| - 1] != []
    requires forall k :: 0 <= k < |pieces| ==> c !in pieces[k]
    ensures JavaSplit(Join(pieces, c), c) == pieces
  {
    JoinSplitAll(pieces, c);
    if |pieces| >= 2 {
      JoinHasSeparator(pieces, c);
    }
  }

  /** The lines glued together without separator (a `StringBuilder` fed
      line by line). */
  function Concat(lines: seq<string>): string
  {
    if |lines| == 0 then [] else lines[0] + Concat(lines[1..])
  }

  /** Lines of equal width `w` can be read back from their concatenation:
      line `k` is the slice `[k * w, (k + 1) * w)`. */
  lemma {:induction false} ConcatSlice(lines: seq<string>, w: nat, k: nat)
    requires forall i :: 0 <= i < |lines| ==> |lines[i]| == w
    requires k < |lines|
    ensures |Concat(lines)| == |lines| * w
    ensures (k + 1) * w <= |Concat(lines)| && Concat(lines)[k * w..(k + 1) * w] == lines[k]
    decreases k
  {
    ConcatLength(lines, w);
    var c := Concat(lines);
    var rest := Concat(lines[1..]);
    assert c == lines[0] + rest;
    if k == 0 {
      assert c[..w] == lines[0];
    } else {
      ConcatSlice(lines[1..], w, k - 1);
      assert (k - 1) * w + w == k * w;
      assert c[k * w..(k + 1) * w] == rest[(k - 1) * w..k * w];
    }
  }

  lemma {:induction false} ConcatLength(lines: seq<string>, w: nat)
    requires forall i :: 0 <= i < |lines| ==> |lines[i]| == w
    ensures |Concat(lines)| == |lines| * w
    decreases |lines|
  {
    if |lines| > 0 {
      ConcatLength(lines[1..], w);
      assert (|lines| - 1) * w + w == |lines| * w;
    }
  }
}
