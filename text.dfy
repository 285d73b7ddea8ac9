/** Sequences of bytes and characters as the mail sender handles them: Python's
    `split` with an explicit separator, its inverse `Join`, and the substring
    test `needle in haystack`. */
module Text {

  /** One octet of a stored message. */
  newtype byte = b: int | 0 <= b < 256

  /** `s.split(sep)`: the separator-free pieces of `s` in order. The empty
      sequence gives one empty piece, and each separator starts a new piece. */
  function Split<T(==)>(s: seq<T>, sep: T): (parts: seq<seq<T>>)
    ensures |parts| >= 1
    ensures forall k :: 0 <= k < |parts| ==> sep !in parts[k]
    ensures |parts| == 1 <==> sep !in s
    decreases |s|
  {
    if |s| == 0 then [[]]
    else if s[0] == sep then [[]] + Split(s[1..], sep)
    else
      var rest := Split(s[1..], sep);
      [[s[0]] + rest[0]] + rest[1..]
  }

  /** `sep.join(parts)`: the pieces with one separator between neighbours. */
  function Join<T>(parts: seq<seq<T>>, sep: T): seq<T>
  {
    if |parts| == 0 then []
    else if |parts| == 1 then parts[0]
    else parts[0] + [sep] + Join(parts[1..], sep)
  }

  /** `Split` loses nothing: joining the pieces gives the input back. */
  lemma {:induction false} JoinSplit<T>(s: seq<T>, sep: T)
    ensures Join(Split(s, sep), sep) == s
    decreases |s|
  {
    if |s| > 0 {
      var rest := Split(s[1..], sep);
      JoinSplit(s[1..], sep);
      if s[0] == sep {
        assert Split(s, sep) == [[]] + rest;
        assert ([[]] + rest)[1..] == rest;
      } else {
        var parts := [[s[0]] + rest[0]] + rest[1..];
        assert Split(s, sep) == parts;
        if |rest| > 1 {
          assert parts[1..] == rest[1..];
          assert Join(rest, sep) == rest[0] + [sep] + Join(rest[1..], sep);
        }
      }
    }
  }

  /** A sequence without the separator is a single piece. */
  lemma {:induction false} SplitWithoutSep<T>(s: seq<T>, sep: T)
    requires sep !in s
    ensures Split(s, sep) == [s]
    decreases |s|
  {
    if |s| > 0 {
      SplitWithoutSep(s[1..], sep);
      assert [s[0]] + s[1..] == s;
    }
  }

  /** The first separator closes the first piece. */
  lemma {:induction false} SplitAfterPiece<T>(a: seq<T>, sep: T, t: seq<T>)
    requires sep !in a
    ensures Split(a + [sep] + t, sep) == [a] + Split(t, sep)
    decreases |a|
  {
    var s := a + [sep] + t;
    if |a| == 0 {
      assert s == [sep] + t;
      assert s[1..] == t;
    } else {
      assert s[0] == a[0] && s[0] != sep;
      assert s[1..] == a[1..] + [sep] + t;
      SplitAfterPiece(a[1..], sep, t);
      var rest := Split(s[1..], sep);
      assert rest[0] == a[1..] && rest[1..] == Split(t, sep);
      assert [a[0]] + a[1..] == a;
    }
  }

  /** `Split` undoes `Join` for separator-free pieces. */
  lemma {:induction false} SplitJoin<T>(parts: seq<seq<T>>, sep: T)
    requires |parts| >= 1
    requires forall k :: 0 <= k < |parts| ==> sep !in parts[k]
    ensures Split(Join(parts, sep), sep) == parts
    decreases |parts|
  {
    if |parts| == 1 {
      SplitWithoutSep(parts[0], sep);
    } else {
      SplitJoin(parts[1..], sep);
      SplitAfterPiece(parts[0], sep, Join(parts[1..], sep));
      assert [parts[0]] + parts[1..] == parts;
    }
  }

  /** `p` stands in `s` at offset `i`. */
  predicate OccursAt<T(==)>(s: seq<T>, p: seq<T>, i: nat)
  {
    i + |p| <= |s| && s[i..i + |p|] == p
  }

  /** Python's `p in s` on byte strings: `p` is a contiguous part of `s`. */
  predicate Contains<T(==)>(s: seq<T>, p: seq<T>)
  {
    exists i: nat :: i <= |s| && OccursAt(s, p, i)
  }

  /** Only the empty pattern stands in the empty sequence. */
  lemma {:induction false} ContainsInEmpty<T>(p: seq<T>)
    requires Contains([], p)
    ensures |p| == 0
  {
    var i: nat :| i <= 0 && OccursAt([], p, i);
  }

  /** A pattern inside `b` is inside anything that surrounds `b`. */
  lemma {:induction false} ContainsInfix<T>(a: seq<T>, b: seq<T>, c: seq<T>, p: seq<T>)
    requires Contains(b, p)
    ensures Contains(a + b + c, p)
  {
    var i: nat :| i <= |b| && OccursAt(b, p, i);
    var s := a + b + c;
    assert s[|a| + i..|a| + i + |p|] == b[i..i + |p|];
    assert |a| + i <= |s| && OccursAt(s, p, |a| + i);
  }

  /** An occurrence at `i` agrees with `s` at every position it covers. */
  lemma {:induction false} WindowAt<T>(s: seq<T>, p: seq<T>, i: nat, k: nat)
    ensures OccursAt(s, p, i) && i <= k < i + |p| ==> p[k - i] == s[k]
  {
    if OccursAt(s, p, i) && i <= k < i + |p| {
      assert s[i..i + |p|][k - i] == s[k];
    }
  }

  /** A pattern without the separator cannot straddle one. */
  lemma {:induction false} ContainsAcrossSep<T>(a: seq<T>, sep: T, b: seq<T>, p: seq<T>)
    requires sep !in p
    requires Contains(a + [sep] + b, p)
    ensures Contains(a, p) || Contains(b, p)
  {
    var s := a + [sep] + b;
    var i: nat :| i <= |s| && OccursAt(s, p, i);
    // a window that covered `s[|a|]` would hold the separator
    WindowAt(s, p, i, |a|);
    if i + |p| <= |a| {
      assert s[i..i + |p|] == a[i..i + |p|];
      assert i <= |a| && OccursAt(a, p, i);
    } else if i > |a| {
      var j: nat := i - |a| - 1;
      WindowInTail(a, sep, b, j, |p|);
      assert j <= |b| && OccursAt(b, p, j);
    } else {
      assert false;
    }
  }

  lemma {:induction false} WindowInTail<T>(a: seq<T>, sep: T, b: seq<T>, j: nat, n: nat)
    requires j + n <= |b|
    ensures (a + [sep] + b)[|a| + 1 + j..|a| + 1 + j + n] == b[j..j + n]
  {
    var s := a + [sep] + b;
    assert s[|a| + 1..] == b;
    assert s[|a| + 1 + j..|a| + 1 + j + n] == s[|a| + 1..][j..j + n];
  }

  /** Each piece is a contiguous part of the joined sequence. */
  lemma {:induction false} ContainsPieceOfJoin<T>(parts: seq<seq<T>>, sep: T, k: nat, p: seq<T>)
    requires k < |parts|
    requires Contains(parts[k], p)
    ensures Contains(Join(parts, sep), p)
    decreases k
  {
    if |parts| > 1 {
      var tail := Join(parts[1..], sep);
      if k == 0 {
        ContainsInfix([], parts[0], [sep] + tail, p);
        assert [] + parts[0] + ([sep] + tail) == Join(parts, sep);
      } else {
        ContainsPieceOfJoin(parts[1..], sep, k - 1, p);
        ContainsInfix(parts[0] + [sep], tail, [], p);
        assert parts[0] + [sep] + tail + [] == Join(parts, sep);
      }
    }
  }
}
