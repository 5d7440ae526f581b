/** The first half of `advancedCompressText`: counting every substring of
    length 3 to 10 that starts before the last three characters, then
    choosing the patterns worth a dictionary entry (at least three
    occurrences and a saving), ranked by `count * length`, at most twenty. */
module Patterns {
  import opened Records
  import opened Text

  /** The `patterns` record: each substring seen, with its count. */
  type Counts = seq<(seq<char>, nat)>

  const MinPatternLength: nat := 3
  const MaxPatternLength: nat := 10
  const MaxPatterns: nat := 20

  /** The substrings the inner counting loop visits at offset `i`, from
      length `j` upward, while the length is at most ten and fits. */
  function WindowsFrom(t: seq<char>, i: nat, j: nat): seq<seq<char>>
    decreases MaxPatternLength + 1 - j
  {
    if j > MaxPatternLength || i + j > |t| then [] else [t[i..i + j]] + WindowsFrom(t, i, j + 1)
  }

  /** Every substring the counting loops visit, in visiting order, for the
      start offsets from `i` on; the outer loop stops three characters
      before the end of the text. */
  function CandidatesFrom(t: seq<char>, i: nat): seq<seq<char>>
    decreases |t| - i
  {
    if i + MinPatternLength >= |t| then [] else WindowsFrom(t, i, MinPatternLength) + CandidatesFrom(t, i + 1)
  }

  /** `patterns[p] = (patterns[p] || 0) + 1`. */
  function Bump(counts: Counts, p: seq<char>): Counts {
    Put(counts, p, Get(counts, p, 0) + 1)
  }

  /** The record after counting each of `ps` in turn. */
  function Tally(counts: Counts, ps: seq<seq<char>>): Counts
    decreases |ps|
  {
    if |ps| == 0 then counts else Tally(Bump(counts, ps[0]), ps[1..])
  }

  /** The record the counting loops build for `t`. */
  function CountTable(t: seq<char>): Counts {
    Tally([], CandidatesFrom(t, 0))
  }

  /** Number of start offsets from `i` on, before the last three characters
      of `t`, at which `p` occurs (overlapping occurrences included). */
  function Occurrences(t: seq<char>, p: seq<char>, i: nat): nat
    decreases |t| - i
  {
    if i + MinPatternLength >= |t| then 0
    else (if OccursAt(t, p, i) then 1 else 0) + Occurrences(t, p, i + 1)
  }

  /** The two counting loops of `advancedCompressText`. */
  method CountPatterns(text: seq<char>) returns (patterns: Counts)
    ensures patterns == CountTable(text)
  {
    patterns := [];
    var i: nat := 0;
    while i + MinPatternLength < |text|
      invariant CountsRemaining(text, patterns, CandidatesFrom(text, i))
      decreases |text| - i
    {
      ghost var before := patterns;
      patterns := CountAtOffset(text, i, patterns);
      CountsRemainingNextOffset(text, i, before, patterns);
      i := i + 1;
    }
    CountsRemainingDone(text, i, patterns);
  }

  /** The inner counting loop: every length from three to ten that fits,
      at offset `i`. */
  method CountAtOffset(text: seq<char>, i: nat, counts: Counts) returns (patterns: Counts)
    ensures patterns == Tally(counts, WindowsFrom(text, i, MinPatternLength))
  {
    patterns := counts;
    var j := MinPatternLength;
    while j <= MaxPatternLength && i + j <= |text|
      invariant MinPatternLength <= j <= MaxPatternLength + 1
      invariant WindowsRemaining(text, i, j, counts, patterns)
      decreases MaxPatternLength + 1 - j
    {
      var pattern := text[i..i + j];
      WindowsRemainingStep(text, i, j, counts, patterns);
      patterns := Bump(patterns, pattern);
      j := j + 1;
    }
    WindowsRemainingDone(text, i, j, counts, patterns);
  }

  /** Counting the lengths still to be visited at offset `i`, from the
      record so far, gives the record the inner loop ends with. */
  ghost predicate WindowsRemaining(t: seq<char>, i: nat, j: nat, counts: Counts, patterns: Counts) {
    Tally(patterns, WindowsFrom(t, i, j)) == Tally(counts, WindowsFrom(t, i, MinPatternLength))
  }

  lemma WindowsRemainingStep(t: seq<char>, i: nat, j: nat, counts: Counts, patterns: Counts)
    requires j <= MaxPatternLength && i + j <= |t|
    requires WindowsRemaining(t, i, j, counts, patterns)
    ensures WindowsRemaining(t, i, j + 1, counts, Bump(patterns, t[i..i + j]))
  {
    TallyCons(patterns, t[i..i + j], WindowsFrom(t, i, j + 1));
  }

  lemma WindowsRemainingDone(t: seq<char>, i: nat, j: nat, counts: Counts, patterns: Counts)
    requires j > MaxPatternLength || i + j > |t|
    requires WindowsRemaining(t, i, j, counts, patterns)
    ensures patterns == Tally(counts, WindowsFrom(t, i, MinPatternLength))
  {
  }

  /** Counting what is still to be visited, from the record so far, gives
      the final record. */
  ghost predicate CountsRemaining(t: seq<char>, counts: Counts, rest: seq<seq<char>>) {
    Tally(counts, rest) == CountTable(t)
  }

  lemma CountsRemainingNextOffset(t: seq<char>, i: nat, before: Counts, after: Counts)
    requires i + MinPatternLength < |t|
    requires CountsRemaining(t, before, CandidatesFrom(t, i))
    requires after == Tally(before, WindowsFrom(t, i, MinPatternLength))
    ensures CountsRemaining(t, after, CandidatesFrom(t, i + 1))
  {
    TallyAppend(before, WindowsFrom(t, i, MinPatternLength), CandidatesFrom(t, i + 1));
  }

  lemma CountsRemainingDone(t: seq<char>, i: nat, counts: Counts)
    requires i + MinPatternLength >= |t|
    requires CountsRemaining(t, counts, CandidatesFrom(t, i))
    ensures counts == CountTable(t)
  {
  }

  lemma TallyCons(counts: Counts, p: seq<char>, rest: seq<seq<char>>)
    ensures Tally(counts, [p] + rest) == Tally(Bump(counts, p), rest)
  {
    assert ([p] + rest)[1..] == rest;
  }

  /** Counting a concatenation counts the first part, then the second. */
  lemma {:induction false} TallyAppend(counts: Counts, a: seq<seq<char>>, b: seq<seq<char>>)
    ensures Tally(counts, a + b) == Tally(Tally(counts, a), b)
    decreases |a|
  {
    if |a| == 0 {
      assert a + b == b;
    } else {
      assert (a + b)[1..] == a[1..] + b;
      TallyAppend(Bump(counts, a[0]), a[1..], b);
    }
  }

  /** Counting keeps one entry per pattern, and a pattern's count grows by
      exactly the number of times it is counted. */
  lemma {:induction false} TallyCounts(counts: Counts, ps: seq<seq<char>>, p: seq<char>)
    requires DistinctKeys(counts)
    ensures DistinctKeys(Tally(counts, ps))
    ensures Get(Tally(counts, ps), p, 0) == Get(counts, p, 0) + multiset(ps)[p]
    decreases |ps|
  {
    if |ps| > 0 {
      var x, rest := ps[0], ps[1..];
      BumpGet(counts, x, p);
      TallyCounts(Bump(counts, x), rest, p);
      CountCons(ps, p);
    }
  }

  /** Counting `x` keeps the keys distinct and adds one to the count of
      `x` only. */
  lemma BumpGet(counts: Counts, x: seq<char>, p: seq<char>)
    requires DistinctKeys(counts)
    ensures DistinctKeys(Bump(counts, x))
    ensures Get(Bump(counts, x), p, 0) == Get(counts, p, 0) + if x == p then 1 else 0
  {
    PutGet(counts, x, Get(counts, x, 0) + 1, p, 0);
  }

  lemma CountCons(ps: seq<seq<char>>, p: seq<char>)
    requires |ps| > 0
    ensures multiset(ps)[p] == (if ps[0] == p then 1 else 0) + multiset(ps[1..])[p]
  {
    assert ps == [ps[0]] + ps[1..];
  }

  lemma CountFront(w: seq<char>, rest: seq<seq<char>>, p: seq<char>)
    ensures multiset([w] + rest)[p] == (if w == p then 1 else 0) + multiset(rest)[p]
  {
  }

  /** At one offset each length is visited once, so `p` is visited there
      once if it occurs there with a length still to come, and never
      otherwise. */
  lemma {:induction false} WindowsCount(t: seq<char>, i: nat, j: nat, p: seq<char>)
    ensures multiset(WindowsFrom(t, i, j))[p] ==
      if j <= |p| <= MaxPatternLength && OccursAt(t, p, i) then 1 else 0
    decreases MaxPatternLength + 1 - j
  {
    if j <= MaxPatternLength && i + j <= |t| {
      var w, rest := t[i..i + j], WindowsFrom(t, i, j + 1);
      CountFront(w, rest, p);
      WindowsCount(t, i, j + 1, p);
      WindowMatch(t, i, j, w, p);
    }
  }

  /** The window of length `j` at `i` is `p` exactly when `p` has length
      `j` and occurs at `i`. */
  lemma WindowMatch(t: seq<char>, i: nat, j: nat, w: seq<char>, p: seq<char>)
    requires i + j <= |t| && w == t[i..i + j]
    ensures w == p <==> |p| == j && OccursAt(t, p, i)
  {
  }

  /** The candidates from offset `i` on visit `p` once per occurrence,
      provided its length is between three and ten. */
  lemma {:induction false} CandidatesCount(t: seq<char>, i: nat, p: seq<char>)
    ensures multiset(CandidatesFrom(t, i))[p] ==
      if MinPatternLength <= |p| <= MaxPatternLength then Occurrences(t, p, i) else 0
    decreases |t| - i
  {
    if i + MinPatternLength < |t| {
      WindowsCount(t, i, MinPatternLength, p);
      CandidatesCount(t, i + 1, p);
    }
  }

  /** What the counting loops compute: one entry per pattern, whose count
      is the number of offsets before the last three characters at which it
      occurs, for every length from three to ten; no other string is
      counted. */
  lemma CountTableCounts(t: seq<char>, p: seq<char>)
    ensures DistinctKeys(CountTable(t))
    ensures Get(CountTable(t), p, 0) ==
      if MinPatternLength <= |p| <= MaxPatternLength then Occurrences(t, p, 0) else 0
  {
    TallyCounts([], CandidatesFrom(t, 0), p);
    CandidatesCount(t, 0, p);
  }

  /** A pattern counted at least once occurs in the text. */
  lemma {:induction false} OccurrencesWitness(t: seq<char>, p: seq<char>, i: nat) returns (k: nat)
    requires Occurrences(t, p, i) > 0
    ensures i <= k && k + MinPatternLength < |t| && OccursAt(t, p, k)
    decreases |t| - i
  {
    if OccursAt(t, p, i) {
      k := i;
    } else {
      k := OccurrencesWitness(t, p, i + 1);
    }
  }

  /** Every key of the count record is a substring of the text of length
      three to ten, and its count is its number of occurrences. */
  lemma CountTableKeys(t: seq<char>, e: (seq<char>, nat))
    requires e in CountTable(t) && e.1 > 0
    ensures MinPatternLength <= |e.0| <= MaxPatternLength
    ensures e.1 == Occurrences(t, e.0, 0)
    ensures forall c :: c in e.0 ==> c in t
  {
    var counts := CountTable(t);
    CountTableCounts(t, e.0);
    var n :| 0 <= n < |counts| && counts[n] == e;
    GetAt(counts, n, 0);
    var k := OccurrencesWitness(t, e.0, 0);
    forall c | c in e.0 ensures c in t {
      var m :| 0 <= m < |e.0| && e.0[m] == c;
      assert t[k + m] == t[k..k + |e.0|][m];
    }
  }

  // ---------------------------------------------------------------- ranking

  type Entry = (seq<char>, nat)

  /** The sort key: characters covered by all occurrences. */
  function Score(e: Entry): nat {
    |e.0| * e.1
  }

  /** The filter of `advancedCompressText`. */
  predicate Qualifies(e: Entry) {
    e.1 >= 3 && |e.0| * e.1 > |e.0| + 2
  }

  /** For a pattern of three or more characters the saving condition follows
      from the count condition, so the filter keeps exactly the patterns seen
      at least three times. */
  lemma QualifiesByCount(e: Entry)
    requires |e.0| >= MinPatternLength
    ensures Qualifies(e) <==> e.1 >= 3
  {
    if e.1 >= 3 {
      assert |e.0| * e.1 >= |e.0| * 3;
    }
  }

  /** `Object.entries(patterns).filter(...)`. */
  function Useful(counts: Counts): (r: Counts)
    ensures |r| <= |counts|
    ensures forall e :: e in r <==> e in counts && Qualifies(e)
    ensures DistinctKeys(counts) ==> DistinctKeys(r)
  {
    if |counts| == 0 then []
    else
      var rest := Useful(counts[1..]);
      assert forall e :: e in counts <==> e == counts[0] || e in counts[1..];
      if Qualifies(counts[0]) then
        assert DistinctKeys(counts) ==> forall k :: 0 <= k < |rest| ==> rest[k].0 != counts[0].0 by {
          if DistinctKeys(counts) {
            forall k | 0 <= k < |rest| ensures rest[k].0 != counts[0].0 {
              assert rest[k] in rest;
              var n :| 0 <= n < |counts[1..]| && counts[1..][n] == rest[k];
              assert counts[n + 1] == rest[k];
            }
          }
        }
        [counts[0]] + rest
      else rest
  }

  predicate NonIncreasing(r: Counts) {
    forall i, j :: 0 <= i < j < |r| ==> Score(r[i]) >= Score(r[j])
  }

  /** Inserts `x` before the first entry whose score is not above its own,
      so that among equal scores the earlier-inserted entry stays first. */
  function Insert(x: Entry, ys: Counts): (r: Counts)
    ensures multiset(r) == multiset(ys) + multiset{x}
    ensures |r| == |ys| + 1
    ensures forall k :: 0 <= k < |r| ==> r[k] == x || r[k] in ys
    ensures NonIncreasing(ys) ==> NonIncreasing(r)
    ensures DistinctKeys(ys) && !HasKey(ys, x.0) ==> DistinctKeys(r)
  {
    if |ys| == 0 then [x]
    else if Score(ys[0]) <= Score(x) then [x] + ys
    else
      var rest := Insert(x, ys[1..]);
      InsertBehindHead(x, ys, rest);
      [ys[0]] + rest
  }

  /** When `x` goes behind the head of `ys`, the head stays in front and
      the result keeps the order and distinctness of `ys`. */
  lemma InsertBehindHead(x: Entry, ys: Counts, rest: Counts)
    requires |ys| > 0 && Score(x) < Score(ys[0])
    requires multiset(rest) == multiset(ys[1..]) + multiset{x}
    requires forall k :: 0 <= k < |rest| ==> rest[k] == x || rest[k] in ys[1..]
    requires NonIncreasing(ys[1..]) ==> NonIncreasing(rest)
    requires DistinctKeys(ys[1..]) && !HasKey(ys[1..], x.0) ==> DistinctKeys(rest)
    ensures multiset([ys[0]] + rest) == multiset(ys) + multiset{x}
    ensures forall k :: 0 <= k < |rest| + 1 ==> ([ys[0]] + rest)[k] == x || ([ys[0]] + rest)[k] in ys
    ensures NonIncreasing(ys) ==> NonIncreasing([ys[0]] + rest)
    ensures DistinctKeys(ys) && !HasKey(ys, x.0) ==> DistinctKeys([ys[0]] + rest)
  {
    var r := [ys[0]] + rest;
    assert ys == [ys[0]] + ys[1..];
    forall k | 0 <= k < |rest| + 1 ensures r[k] == x || r[k] in ys {
      if k > 0 && r[k] != x {
        assert r[k] == rest[k - 1];
      }
    }
    if NonIncreasing(ys) {
      TailNonIncreasing(ys);
      BehindHeadOrdered(x, ys, rest);
    }
    if DistinctKeys(ys) && !HasKey(ys, x.0) {
      TailDistinct(ys, x.0);
      BehindHeadDistinct(x, ys, rest);
    }
  }

  lemma TailNonIncreasing(ys: Counts)
    requires |ys| > 0 && NonIncreasing(ys)
    ensures NonIncreasing(ys[1..])
  {
    forall i, j | 0 <= i < j < |ys[1..]| ensures Score(ys[1..][i]) >= Score(ys[1..][j]) {
      assert ys[1..][i] == ys[i + 1] && ys[1..][j] == ys[j + 1];
    }
  }

  lemma TailDistinct(ys: Counts, k: seq<char>)
    requires |ys| > 0 && DistinctKeys(ys) && !HasKey(ys, k)
    ensures DistinctKeys(ys[1..]) && !HasKey(ys[1..], k)
  {
    forall i, j | 0 <= i < j < |ys[1..]| ensures ys[1..][i].0 != ys[1..][j].0 {
      assert ys[1..][i] == ys[i + 1] && ys[1..][j] == ys[j + 1];
    }
  }

  lemma BehindHeadOrdered(x: Entry, ys: Counts, rest: Counts)
    requires |ys| > 0 && Score(x) < Score(ys[0])
    requires forall k :: 0 <= k < |rest| ==> rest[k] == x || rest[k] in ys[1..]
    requires NonIncreasing(ys) && NonIncreasing(rest)
    ensures NonIncreasing([ys[0]] + rest)
  {
    var r := [ys[0]] + rest;
    forall k | 0 <= k < |rest| ensures Score(rest[k]) <= Score(ys[0]) {
      if rest[k] != x {
        var n :| 0 <= n < |ys[1..]| && ys[1..][n] == rest[k];
        assert ys[n + 1] == rest[k];
      }
    }
    forall i, j | 0 <= i < j < |r| ensures Score(r[i]) >= Score(r[j]) {
      assert r[j] == rest[j - 1];
      if i > 0 {
        assert r[i] == rest[i - 1];
      }
    }
  }

  lemma BehindHeadDistinct(x: Entry, ys: Counts, rest: Counts)
    requires |ys| > 0 && DistinctKeys(ys) && !HasKey(ys, x.0)
    requires forall k :: 0 <= k < |rest| ==> rest[k] == x || rest[k] in ys[1..]
    requires DistinctKeys(rest)
    ensures DistinctKeys([ys[0]] + rest)
  {
    var r := [ys[0]] + rest;
    forall k | 0 <= k < |rest| ensures rest[k].0 != ys[0].0 {
      if rest[k] != x {
        var n :| 0 <= n < |ys[1..]| && ys[1..][n] == rest[k];
        assert ys[n + 1] == rest[k];
      }
    }
    forall i, j | 0 <= i < j < |r| ensures r[i].0 != r[j].0 {
      assert r[j] == rest[j - 1];
      if i > 0 {
        assert r[i] == rest[i - 1];
      }
    }
  }

  /** `.sort((a, b) => score(b) - score(a))`: a stable sort by decreasing
      score, written as an insertion sort. */
  function SortByScore(xs: Counts): (r: Counts)
    ensures multiset(r) == multiset(xs)
    ensures |r| == |xs|
    ensures NonIncreasing(r)
    ensures DistinctKeys(xs) ==> DistinctKeys(r)
  {
    if |xs| == 0 then []
    else
      var rest := SortByScore(xs[1..]);
      HeadNotInSortedTail(xs, rest);
      Insert(xs[0], rest)
  }

  lemma HeadNotInSortedTail(xs: Counts, rest: Counts)
    requires |xs| > 0 && multiset(rest) == multiset(xs[1..])
    ensures multiset(xs) == multiset(rest) + multiset{xs[0]}
    ensures |xs| == |rest| + 1
    ensures DistinctKeys(xs) ==> DistinctKeys(xs[1..]) && !HasKey(rest, xs[0].0)
  {
    assert xs == [xs[0]] + xs[1..];
    assert |multiset(rest)| == |rest|;
    if DistinctKeys(xs) {
      forall i, j | 0 <= i < j < |xs[1..]| ensures xs[1..][i].0 != xs[1..][j].0 {
        assert xs[1..][i] == xs[i + 1] && xs[1..][j] == xs[j + 1];
      }
      forall k | 0 <= k < |rest| ensures rest[k].0 != xs[0].0 {
        assert rest[k] in multiset(xs[1..]);
        var n :| 0 <= n < |xs[1..]| && xs[1..][n] == rest[k];
        assert xs[n + 1] == rest[k];
      }
    }
  }

  /** The qualifying entries, best first. */
  function Ranked(counts: Counts): Counts {
    SortByScore(Useful(counts))
  }

  /** The pattern of each entry, in order. */
  function Keys(es: Counts): (ps: seq<seq<char>>)
    ensures |ps| == |es|
    ensures forall k :: 0 <= k < |es| ==> ps[k] == es[k].0
  {
    if |es| == 0 then [] else [es[0].0] + Keys(es[1..])
  }

  /** `usefulPatterns`: the patterns of the first twenty ranked entries. */
  function SelectPatterns(counts: Counts): seq<seq<char>> {
    var ranked := Ranked(counts);
    Keys(ranked[..Min(MaxPatterns, |ranked|)])
  }

  /** The count of a selected pattern. */
  function CountOf(counts: Counts, p: seq<char>): Entry {
    (p, Get(counts, p, 0))
  }

  /** The selected patterns are distinct keys of the record that pass the
      filter, ordered by non-increasing score; there are twenty of them, or
      every qualifying pattern when fewer qualify; and a qualifying pattern
      left out scores no more than any selected one. */
  lemma SelectedPatterns(counts: Counts)
    requires DistinctKeys(counts)
    ensures var ps := SelectPatterns(counts);
      && |ps| == Min(MaxPatterns, |Useful(counts)|)
      && (forall i, j :: 0 <= i < j < |ps| ==> ps[i] != ps[j])
      && (forall i :: 0 <= i < |ps| ==> HasKey(counts, ps[i]) && Qualifies(CountOf(counts, ps[i])))
      && (forall i, j :: 0 <= i < j < |ps| ==> Score(CountOf(counts, ps[i])) >= Score(CountOf(counts, ps[j])))
      && (forall e :: e in counts && Qualifies(e) && e.0 !in ps ==>
            |ps| == MaxPatterns && forall i :: 0 <= i < |ps| ==> Score(CountOf(counts, ps[i])) >= Score(e))
  {
    RankedEntries(counts);
    SelectedAreRanked(counts);
    SelectedDistinct(counts);
    SelectedQualify(counts);
    SelectedOrdered(counts);
    var ps := SelectPatterns(counts);
    forall e | e in counts && Qualifies(e) && e.0 !in ps
      ensures |ps| == MaxPatterns && forall i :: 0 <= i < |ps| ==> Score(CountOf(counts, ps[i])) >= Score(e)
    {
      LeftOutScoresLower(counts, e);
    }
  }

  /** The selected patterns are the patterns of the first ranked entries. */
  lemma SelectedAreRanked(counts: Counts)
    ensures |SelectPatterns(counts)| == Min(MaxPatterns, |Ranked(counts)|)
    ensures forall i :: 0 <= i < |SelectPatterns(counts)| ==> SelectPatterns(counts)[i] == Ranked(counts)[i].0
  {
  }

  lemma SelectedDistinct(counts: Counts)
    requires DistinctKeys(counts)
    ensures forall i, j :: 0 <= i < j < |SelectPatterns(counts)| ==> SelectPatterns(counts)[i] != SelectPatterns(counts)[j]
  {
    RankedEntries(counts);
    SelectedAreRanked(counts);
  }

  lemma SelectedQualify(counts: Counts)
    requires DistinctKeys(counts)
    ensures forall i :: 0 <= i < |SelectPatterns(counts)| ==>
      HasKey(counts, SelectPatterns(counts)[i]) && Qualifies(CountOf(counts, SelectPatterns(counts)[i]))
  {
    var ranked, ps := Ranked(counts), SelectPatterns(counts);
    RankedEntries(counts);
    SelectedAreRanked(counts);
    forall i | 0 <= i < |ps| ensures HasKey(counts, ps[i]) && Qualifies(CountOf(counts, ps[i])) {
      var m :| 0 <= m < |counts| && counts[m] == ranked[i];
    }
  }

  lemma SelectedOrdered(counts: Counts)
    requires DistinctKeys(counts)
    ensures forall i, j :: 0 <= i < j < |SelectPatterns(counts)| ==>
      Score(CountOf(counts, SelectPatterns(counts)[i])) >= Score(CountOf(counts, SelectPatterns(counts)[j]))
  {
    RankedEntries(counts);
    SelectedAreRanked(counts);
  }

  /** Every ranked entry is an entry of the record that passes the filter,
      and the record's count for its pattern is its own count. */
  lemma RankedEntries(counts: Counts)
    requires DistinctKeys(counts)
    ensures |Ranked(counts)| == |Useful(counts)|
    ensures DistinctKeys(Ranked(counts)) && NonIncreasing(Ranked(counts))
    ensures forall i :: 0 <= i < |Ranked(counts)| ==>
      Ranked(counts)[i] in counts && Qualifies(Ranked(counts)[i]) && CountOf(counts, Ranked(counts)[i].0) == Ranked(counts)[i]
  {
    var ranked := Ranked(counts);
    forall i | 0 <= i < |ranked|
      ensures ranked[i] in counts && Qualifies(ranked[i]) && CountOf(counts, ranked[i].0) == ranked[i]
    {
      assert ranked[i] in multiset(ranked);
      assert ranked[i] in Useful(counts);
      var m :| 0 <= m < |counts| && counts[m] == ranked[i];
      GetAt(counts, m, 0);
    }
  }

  /** A qualifying entry that is not selected lost only because twenty
      entries scoring at least as much were selected first. */
  lemma LeftOutScoresLower(counts: Counts, e: Entry)
    requires DistinctKeys(counts)
    requires e in counts && Qualifies(e) && e.0 !in SelectPatterns(counts)
    ensures |SelectPatterns(counts)| == MaxPatterns
    ensures forall i :: 0 <= i < MaxPatterns ==> Score(CountOf(counts, SelectPatterns(counts)[i])) >= Score(e)
  {
    var ranked := Ranked(counts);
    RankedEntries(counts);
    SelectedAreRanked(counts);
    assert e in multiset(Useful(counts));
    var m := BeyondPrefix(ranked, Min(MaxPatterns, |ranked|), e);
    forall i | 0 <= i < MaxPatterns ensures Score(CountOf(counts, SelectPatterns(counts)[i])) >= Score(e) {
      assert Score(ranked[i]) >= Score(ranked[m]);
    }
  }

  /** An entry whose pattern is not among the first `n` patterns sits at
      position `n` or later. */
  lemma BeyondPrefix(ranked: Counts, n: nat, e: Entry) returns (m: nat)
    requires n <= |ranked| && e in multiset(ranked) && e.0 !in Keys(ranked[..n])
    ensures n <= m < |ranked| && ranked[m] == e
  {
    m :| 0 <= m < |ranked| && ranked[m] == e;
  }

  /** The pattern path is abandoned exactly when no counted pattern passes
      the filter. */
  lemma NothingSelected(counts: Counts)
    requires DistinctKeys(counts)
    ensures SelectPatterns(counts) == [] <==> forall e :: e in counts ==> !Qualifies(e)
  {
    SelectedPatterns(counts);
    var u := Useful(counts);
    if |u| > 0 {
      assert u[0] in u;
    }
  }
}
