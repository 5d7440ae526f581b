/** The string library calls the codecs make: `String.prototype.repeat`,
    `split` with a non-empty separator, `Array.prototype.join`, and the
    `s.split(p).join(r)` idiom they use as a replace-all. A string is a
    sequence of characters, one per UTF-16 code unit of a JavaScript
    string. */
module Text {

  function Min(a: nat, b: nat): nat {
    if a < b then a else b
  }

  /** `c.repeat(n)`. */
  function Repeat(c: char, n: nat): (r: seq<char>)
    ensures |r| == n
    ensures forall k :: 0 <= k < n ==> r[k] == c
  {
    if n == 0 then [] else [c] + Repeat(c, n - 1)
  }

  /** `p` occurs in `s` starting at offset `i`. */
  predicate OccursAt(s: seq<char>, p: seq<char>, i: nat) {
    i + |p| <= |s| && s[i..i + |p|] == p
  }

  /** `p` occurs at no offset of `s`. */
  predicate Absent(p: seq<char>, s: seq<char>) {
    forall i: nat :: i <= |s| ==> !OccursAt(s, p, i)
  }

  /** `s.split(sep)` for a non-empty separator: the pieces between the
      leftmost, non-overlapping occurrences of `sep`, scanning left to right. */
  function Split(s: seq<char>, sep: seq<char>): (parts: seq<seq<char>>)
    requires |sep| > 0
    ensures |parts| >= 1
    decreases |s|
  {
    if |s| < |sep| then [s]
    else if s[..|sep|] == sep then [[]] + Split(s[|sep|..], sep)
    else
      var rest := Split(s[1..], sep);
      [[s[0]] + rest[0]] + rest[1..]
  }

  /** `parts.join(glue)`. */
  function Join(parts: seq<seq<char>>, glue: seq<char>): seq<char>
  {
    if |parts| == 0 then []
    else if |parts| == 1 then parts[0]
    else parts[0] + glue + Join(parts[1..], glue)
  }

  /** `s.split(p).join(r)`: every leftmost, non-overlapping occurrence of
      `p` in `s` replaced by `r`. */
  function ReplaceAll(s: seq<char>, p: seq<char>, r: seq<char>): seq<char>
    requires |p| > 0
  {
    Join(Split(s, p), r)
  }

  /** Every occurrence of the single character `m` replaced by `r`, all
      other characters kept: the reference meaning of a replace-all whose
      pattern is one character long. */
  function SubstChar(s: seq<char>, m: char, r: seq<char>): seq<char>
  {
    if s == [] then [] else (if s[0] == m then r else [s[0]]) + SubstChar(s[1..], m, r)
  }

  lemma JoinConsHead(x: char, a: seq<char>, rest: seq<seq<char>>, glue: seq<char>)
    ensures Join([[x] + a] + rest, glue) == [x] + Join([a] + rest, glue)
  {
    var l := [[x] + a] + rest;
    var l' := [a] + rest;
    assert l[1..] == rest && l'[1..] == rest;
  }

  lemma JoinConsEmpty(rest: seq<seq<char>>, glue: seq<char>)
    requires |rest| >= 1
    ensures Join([[]] + rest, glue) == glue + Join(rest, glue)
  {
    assert ([[]] + rest)[1..] == rest;
  }

  /** Joining the pieces of a split with the separator itself restores the
      text: `s.split(p).join(p) == s`. */
  lemma {:induction false} JoinSplit(s: seq<char>, sep: seq<char>)
    requires |sep| > 0
    ensures Join(Split(s, sep), sep) == s
    decreases |s|
  {
    if |s| < |sep| {
    } else if s[..|sep|] == sep {
      JoinSplit(s[|sep|..], sep);
      JoinConsEmpty(Split(s[|sep|..], sep), sep);
      assert s == sep + s[|sep|..];
    } else {
      var rest := Split(s[1..], sep);
      JoinSplit(s[1..], sep);
      JoinConsHead(s[0], rest[0], rest[1..], sep);
      assert [rest[0]] + rest[1..] == rest;
      assert s == [s[0]] + s[1..];
    }
  }

  /** A one-character replace-all is the per-character substitution. */
  lemma {:induction false} ReplaceAllChar(s: seq<char>, m: char, r: seq<char>)
    ensures ReplaceAll(s, [m], r) == SubstChar(s, m, r)
    decreases |s|
  {
    if s != [] {
      ReplaceAllChar(s[1..], m, r);
      var rest := Split(s[1..], [m]);
      assert s[..1] == [s[0]];
      if s[0] == m {
        JoinConsEmpty(rest, r);
      } else {
        JoinConsHead(s[0], rest[0], rest[1..], r);
        assert [rest[0]] + rest[1..] == rest;
      }
    }
  }

  /** Splitting never invents a character. */
  lemma {:induction false} SplitAvoids(s: seq<char>, sep: seq<char>, c: char)
    requires |sep| > 0 && c !in s
    ensures forall k :: 0 <= k < |Split(s, sep)| ==> c !in Split(s, sep)[k]
    decreases |s|
  {
    if |s| >= |sep| {
      if s[..|sep|] == sep {
        SplitAvoids(s[|sep|..], sep, c);
      } else {
        SplitAvoids(s[1..], sep, c);
        var rest := Split(s[1..], sep);
        assert c !in [s[0]] + rest[0];
      }
    }
  }

  /** Joining never invents a character. */
  lemma {:induction false} JoinAvoids(parts: seq<seq<char>>, glue: seq<char>, c: char)
    requires forall k :: 0 <= k < |parts| ==> c !in parts[k]
    requires c !in glue
    ensures c !in Join(parts, glue)
    decreases |parts|
  {
    if |parts| > 1 {
      JoinAvoids(parts[1..], glue, c);
    }
  }

  /** A character absent from the text and from the replacement is absent
      from the result of a replace-all. */
  lemma ReplaceAllAvoids(s: seq<char>, p: seq<char>, r: seq<char>, c: char)
    requires |p| > 0 && c !in s && c !in r
    ensures c !in ReplaceAll(s, p, r)
  {
    SplitAvoids(s, p, c);
    JoinAvoids(Split(s, p), r, c);
  }

  /** A text in which the separator occurs nowhere splits into itself
      alone. */
  lemma {:induction false} SplitAbsent(s: seq<char>, sep: seq<char>)
    requires |sep| > 0 && Absent(sep, s)
    ensures Split(s, sep) == [s]
    decreases |s|
  {
    if |s| >= |sep| {
      assert !OccursAt(s, sep, 0);
      assert s[0..|sep|] == s[..|sep|];
      AbsentInSuffix(sep, s, 1);
      SplitAbsent(s[1..], sep);
      assert [s[0]] + s[1..] == s;
    }
  }

  /** Splitting cuts at the first occurrence of the separator: when `sep`
      occurs at no offset of `a + sep + b` below `|a|`, the first piece is
      `a` and the rest is the split of `b`. */
  lemma {:induction false} SplitAtOccurrence(a: seq<char>, b: seq<char>, sep: seq<char>)
    requires |sep| > 0
    requires forall i: nat :: i < |a| ==> !OccursAt(a + sep + b, sep, i)
    ensures Split(a + sep + b, sep) == [a] + Split(b, sep)
    decreases |a|
  {
    var s := a + sep + b;
    if a == [] {
      assert s[..|sep|] == sep && s[|sep|..] == b;
    } else {
      assert !OccursAt(s, sep, 0);
      assert s[0..|sep|] == s[..|sep|];
      assert s[1..] == a[1..] + sep + b;
      forall i: nat | i < |a[1..]| ensures !OccursAt(a[1..] + sep + b, sep, i) {
        assert !OccursAt(s, sep, i + 1);
        if i + |sep| <= |s| - 1 {
          assert s[1..][i..i + |sep|] == s[i + 1..i + 1 + |sep|];
        }
      }
      SplitAtOccurrence(a[1..], b, sep);
      assert [a[0]] + a[1..] == a;
    }
  }

  /** A text without the one-character separator splits into itself
      alone. */
  lemma SplitWithoutSeparator(s: seq<char>, c: char)
    requires c !in s
    ensures Split(s, [c]) == [s]
  {
    forall i: nat ensures !OccursAt(s, [c], i) {
      if i + 1 <= |s| {
        assert s[i..i + 1] == [s[i]];
      }
    }
    SplitAbsent(s, [c]);
  }

  /** Splitting at a one-character separator cuts at its first
      occurrence. */
  lemma SplitAtFirst(a: seq<char>, b: seq<char>, c: char)
    requires c !in a
    ensures Split(a + [c] + b, [c]) == [a] + Split(b, [c])
  {
    var s := a + [c] + b;
    forall i: nat | i < |a| ensures !OccursAt(s, [c], i) {
      assert s[i..i + 1] == [a[i]];
    }
    SplitAtOccurrence(a, b, [c]);
  }

  /** The first piece of a split is a prefix of the text. */
  lemma {:induction false} SplitFirstIsPrefix(s: seq<char>, sep: seq<char>)
    requires |sep| > 0
    ensures Split(s, sep)[0] <= s
    decreases |s|
  {
    if |s| >= |sep| && s[..|sep|] != sep {
      SplitFirstIsPrefix(s[1..], sep);
      assert s == [s[0]] + s[1..];
    }
  }

  /** A prefix of a text in which `p` is absent holds no `p` either. */
  lemma AbsentInPrefix(p: seq<char>, x: seq<char>, s: seq<char>)
    requires x <= s && Absent(p, s)
    ensures Absent(p, x)
  {
    forall i: nat ensures !OccursAt(x, p, i) {
      assert !OccursAt(s, p, i);
      if i + |p| <= |x| {
        assert x[i..i + |p|] == s[i..i + |p|];
      }
    }
  }

  /** A suffix of a text in which `p` is absent holds no `p` either. */
  lemma AbsentInSuffix(p: seq<char>, s: seq<char>, k: nat)
    requires k <= |s| && Absent(p, s)
    ensures Absent(p, s[k..])
  {
    forall i: nat ensures !OccursAt(s[k..], p, i) {
      assert !OccursAt(s, p, i + k);
      if i + |p| <= |s| - k {
        assert s[k..][i..i + |p|] == s[i + k..i + k + |p|];
      }
    }
  }

  /** No piece of a split holds the separator: every occurrence was cut
      out. */
  lemma {:induction false} SplitPiecesLackSeparator(s: seq<char>, sep: seq<char>)
    requires |sep| > 0
    ensures forall k :: 0 <= k < |Split(s, sep)| ==> Absent(sep, Split(s, sep)[k])
    decreases |s|
  {
    if |s| < |sep| {
      assert Absent(sep, s);
    } else if s[..|sep|] == sep {
      SplitPiecesLackSeparator(s[|sep|..], sep);
      assert Absent(sep, []);
    } else {
      var rest := Split(s[1..], sep);
      SplitPiecesLackSeparator(s[1..], sep);
      SplitFirstIsPrefix(s[1..], sep);
      var x := [s[0]] + rest[0];
      assert x <= s;
      forall i: nat ensures !OccursAt(x, sep, i) {
        if i == 0 {
          if |sep| <= |x| {
            assert x[0..|sep|] == s[..|sep|];
          }
        } else {
          assert !OccursAt(rest[0], sep, i - 1);
          if i + |sep| <= |x| {
            assert x[i..i + |sep|] == rest[0][i - 1..i - 1 + |sep|];
          }
        }
      }
    }
  }

  /** The pieces of a split of a text in which `q` is absent hold no `q`. */
  lemma {:induction false} SplitPiecesKeepAbsent(s: seq<char>, sep: seq<char>, q: seq<char>)
    requires |sep| > 0 && Absent(q, s)
    ensures forall k :: 0 <= k < |Split(s, sep)| ==> Absent(q, Split(s, sep)[k])
    decreases |s|
  {
    assert !OccursAt(s, q, 0);
    if |s| < |sep| {
    } else if s[..|sep|] == sep {
      AbsentInSuffix(q, s, |sep|);
      SplitPiecesKeepAbsent(s[|sep|..], sep, q);
      assert Absent(q, []);
    } else {
      AbsentInSuffix(q, s, 1);
      SplitPiecesKeepAbsent(s[1..], sep, q);
      SplitFirstIsPrefix(s, sep);
      AbsentInPrefix(q, Split(s, sep)[0], s);
    }
  }

  /** An occurrence of `p` in `x + [m] + y`, when `p` does not hold `m`,
      lies wholly in `x` or wholly in `y`. */
  lemma AbsentAcross(x: seq<char>, m: char, y: seq<char>, p: seq<char>)
    requires m !in p && Absent(p, x) && Absent(p, y)
    ensures Absent(p, x + [m] + y)
  {
    var s := x + [m] + y;
    forall i: nat ensures !OccursAt(s, p, i) {
      if i + |p| <= |x| {
        assert !OccursAt(x, p, i);
        assert s[i..i + |p|] == x[i..i + |p|];
      } else if i <= |x| {
        if i + |p| <= |s| {
          assert s[i..i + |p|][|x| - i] == m;
        }
      } else {
        assert !OccursAt(y, p, i - |x| - 1);
        if i + |p| <= |s| {
          assert s[i..i + |p|] == y[i - |x| - 1..i - |x| - 1 + |p|];
        }
      }
    }
  }

  /** Joining pieces without `p` with a one-character glue absent from `p`
      creates no `p`. */
  lemma {:induction false} JoinKeepsAbsent(parts: seq<seq<char>>, m: char, p: seq<char>)
    requires |p| > 0 && m !in p
    requires forall k :: 0 <= k < |parts| ==> Absent(p, parts[k])
    ensures Absent(p, Join(parts, [m]))
    decreases |parts|
  {
    if |parts| == 0 {
      assert Absent(p, []);
    } else if |parts| > 1 {
      JoinKeepsAbsent(parts[1..], m, p);
      AbsentAcross(parts[0], m, Join(parts[1..], [m]), p);
    }
  }

  /** A replace-all by a one-character marker that `p` does not hold
      leaves no occurrence of `p`. */
  lemma ReplaceAllRemoves(s: seq<char>, p: seq<char>, m: char)
    requires |p| > 0 && m !in p
    ensures Absent(p, ReplaceAll(s, p, [m]))
  {
    SplitPiecesLackSeparator(s, p);
    JoinKeepsAbsent(Split(s, p), m, p);
  }

  /** A replace-all by a one-character marker that `q` does not hold
      creates no occurrence of `q`. */
  lemma ReplaceAllKeepsAbsent(s: seq<char>, p: seq<char>, m: char, q: seq<char>)
    requires |p| > 0 && m !in q && Absent(q, s)
    ensures Absent(q, ReplaceAll(s, p, [m]))
  {
    assert !OccursAt(s, q, 0);
    SplitPiecesKeepAbsent(s, p, q);
    JoinKeepsAbsent(Split(s, p), m, q);
  }

  /** A text holding the separator splits into at least two pieces. */
  lemma {:induction false} SplitHasTwoPieces(s: seq<char>, c: char)
    requires c in s
    ensures |Split(s, [c])| >= 2
    decreases |s|
  {
    assert s[..1] == [s[0]];
    if s[0] == c {
      assert s == [] + [c] + s[1..];
      SplitAtFirst([], s[1..], c);
    } else {
      SplitHasTwoPieces(s[1..], c);
    }
  }
}
