/** The run-length codec (`compressText` / `decompressText`). A maximal run
    of three or more copies of one character is written as its decimal
    length followed by the character; shorter runs are copied verbatim.
    Decoding copies non-digits and expands `<digits><char>`. */
module Rle {
  import opened Decimal
  import opened Text

  /** Length of the run of `s[0]` that starts `s`. */
  function RunLength(s: seq<char>): (n: nat)
    requires s != []
    ensures 1 <= n <= |s|
    ensures forall k :: 0 <= k < n ==> s[k] == s[0]
    ensures n < |s| ==> s[n] != s[0]
  {
    if |s| == 1 || s[0] != s[1] then 1 else 1 + RunLength(s[1..])
  }

  /** A run is fixed by where it stops. */
  lemma RunLengthIs(s: seq<char>, n: nat)
    requires 1 <= n <= |s|
    requires forall k :: 0 <= k < n ==> s[k] == s[0]
    requires n < |s| ==> s[n] != s[0]
    ensures RunLength(s) == n
  {
  }

  /** The encoding of one maximal run of `n` copies of `c`. */
  function EncodeRun(c: char, n: nat): seq<char>
  {
    if n >= 3 then NatToDecimal(n) + [c] else Repeat(c, n)
  }

  /** Run-length encoding: each maximal run, left to right. */
  function Compress(s: seq<char>): seq<char>
    decreases |s|
  {
    if s == [] then [] else
      var n := RunLength(s);
      EncodeRun(s[0], n) + Compress(s[n..])
  }

  /** Run-length decoding. A maximal digit run followed by a character
      stands for that character repeated the digits' value times; a digit
      run at the very end stands for nothing; any other character stands for
      itself. */
  function Decompress(s: seq<char>): seq<char>
    decreases |s|
  {
    if s == [] then []
    else if IsDigit(s[0]) then
      var k := DigitRun(s);
      if k == |s| then []
      else Repeat(s[k], ParseDecimal(s[..k])) + Decompress(s[k + 1..])
    else [s[0]] + Decompress(s[1..])
  }

  /** `compressText`: scans the text once, counting the current run and
      emitting it when the next character differs or the text ends. */
  method CompressText(text: seq<char>) returns (compressed: seq<char>)
    ensures compressed == Compress(text)
  {
    if |text| == 0 {
      return [];
    }
    compressed := [];
    var count := 1;
    ghost var start := 0;
    EncodeStart(text);
    for i := 0 to |text|
      invariant start <= i && count == i + 1 - start
      invariant i == |text| ==> start == i
      invariant i < |text| ==> SameRun(text, start, i)
      invariant EncodedUpTo(text, start, compressed)
    {
      if i + 1 < |text| && text[i] == text[i + 1] {
        count := count + 1;
      } else {
        ghost var before := compressed;
        if count >= 3 {
          compressed := compressed + (NatToDecimal(count) + [text[i]]);
        } else {
          compressed := compressed + Repeat(text[i], count);
        }
        CompressEmitsRun(text, start, i, count, before, compressed);
        count := 1;
        start := i + 1;
      }
    }
    EncodeDone(text, compressed);
  }

  /** `done` is what encoding has produced once `s[..i]` is consumed. */
  ghost predicate EncodedUpTo(s: seq<char>, i: nat, done: seq<char>) {
    i <= |s| && done + Compress(s[i..]) == Compress(s)
  }

  lemma EncodeStart(s: seq<char>)
    ensures EncodedUpTo(s, 0, [])
  {
    WholeSuffix(s);
    assert [] + Compress(s) == Compress(s);
  }

  lemma EncodeDone(s: seq<char>, done: seq<char>)
    requires EncodedUpTo(s, |s|, done)
    ensures done == Compress(s)
  {
    EmptySuffix(s);
    assert done + [] == done;
  }

  /** `done` is what decoding has produced once `s[..i]` is consumed. */
  ghost predicate DecodedUpTo(s: seq<char>, i: nat, done: seq<char>) {
    i <= |s| && done + Decompress(s[i..]) == Decompress(s)
  }

  /** `text[start..i + 1]` is one character repeated. */
  predicate SameRun(text: seq<char>, start: int, i: int)
    requires 0 <= start <= i < |text|
  {
    forall k :: start <= k <= i ==> text[k] == text[i]
  }

  /** The step of `compressText` that emits the finished run
      `text[start..i + 1]` after the output `before`. */
  lemma CompressEmitsRun(text: seq<char>, start: nat, i: nat, count: nat, before: seq<char>, after: seq<char>)
    requires start <= i < |text| && count == i + 1 - start
    requires SameRun(text, start, i)
    requires i + 1 == |text| || text[i + 1] != text[i]
    requires EncodedUpTo(text, start, before)
    requires after == before + EncodeRun(text[i], count)
    ensures EncodedUpTo(text, i + 1, after)
  {
    RunAt(text, start, i, count);
    CompressSuffix(text, start, i + 1, count, text[i]);
    AppendStep(before, after, EncodeRun(text[i], count),
      Compress(text[start..]), Compress(text[i + 1..]), Compress(text));
  }

  /** Moving a piece from the pending part to the produced part keeps
      their concatenation. */
  lemma AppendStep(before: seq<char>, after: seq<char>, piece: seq<char>, pending: seq<char>, rest: seq<char>, whole: seq<char>)
    requires before + pending == whole && pending == piece + rest && after == before + piece
    ensures after + rest == whole
  {
  }

  /** The run that starts the suffix at `start` ends at `i`. */
  lemma RunAt(text: seq<char>, start: nat, i: nat, count: nat)
    requires start <= i < |text| && count == i + 1 - start
    requires SameRun(text, start, i)
    requires i + 1 == |text| || text[i + 1] != text[i]
    ensures text[start] == text[i]
    ensures RunLength(text[start..]) == count
  {
    var rest := text[start..];
    forall k | 0 <= k < count ensures rest[k] == rest[0] {
      assert rest[k] == text[start + k];
    }
    RunLengthIs(rest, count);
  }

  /** Compressing a suffix emits its first run, then compresses the rest. */
  lemma CompressSuffix(text: seq<char>, start: nat, next: nat, n: nat, c: char)
    requires start < next <= |text| && n == next - start
    requires RunLength(text[start..]) == n && c == text[start]
    ensures Compress(text[start..]) == EncodeRun(c, n) + Compress(text[next..])
  {
    DropDrop(text, start, n, next);
  }

  // Sequence identities that hold by the axioms of sequences. They are
  // lemmas so that the step lemmas above can ask for each one on its own,
  // with no specification function in scope, which keeps those proofs cheap.

  lemma Assoc(a: seq<char>, b: seq<char>, c: seq<char>)
    ensures (a + b) + c == a + (b + c)
  {
  }

  lemma WholeSuffix(s: seq<char>)
    ensures s[0..] == s
  {
  }

  lemma EmptySuffix(s: seq<char>)
    ensures s[|s|..] == []
  {
  }

  lemma SliceExtend(s: seq<char>, a: nat, b: nat)
    requires a <= b < |s|
    ensures s[a..b] + [s[b]] == s[a..b + 1]
  {
  }

  lemma DropDrop(s: seq<char>, a: nat, b: nat, c: nat)
    requires a + b == c <= |s|
    ensures s[a..][b..] == s[c..]
  {
  }

  /** `decompressText`: walks the text with one index, reading a digit run
      greedily into a count before repeating the character after it. */
  method DecompressText(compressed: seq<char>) returns (decompressed: seq<char>)
    ensures decompressed == Decompress(compressed)
  {
    if |compressed| == 0 {
      return [];
    }
    decompressed := [];
    var i := 0;
    DecodeStart(compressed);
    while i < |compressed|
      invariant 0 <= i <= |compressed|
      invariant DecodedUpTo(compressed, i, decompressed)
      decreases |compressed| - i
    {
      i, decompressed := DecodeStep(compressed, i, decompressed);
    }
    DecodeDone(compressed, decompressed);
  }

  /** One round of the loop of `decompressText`: a counted run, a digit run
      at the very end, or one literal character. */
  method DecodeStep(compressed: seq<char>, first: nat, before: seq<char>) returns (i: nat, decompressed: seq<char>)
    requires first < |compressed| && DecodedUpTo(compressed, first, before)
    ensures first < i <= |compressed| && DecodedUpTo(compressed, i, decompressed)
  {
    i := first;
    decompressed := before;
    if IsDigit(compressed[i]) {
      var countStr;
      countStr, i := ReadCount(compressed, i);
      if i < |compressed| {
        var c := compressed[i];
        var count := ParseDecimal(countStr);
        decompressed := decompressed + Repeat(c, count);
        DecompressReadsCount(compressed, first, i, countStr, before, decompressed);
        i := i + 1;
      } else {
        DecompressDropsCount(compressed, first, countStr, before);
      }
    } else {
      decompressed := decompressed + [compressed[i]];
      i := i + 1;
      DecompressCopiesLiteral(compressed, i - 1, before, decompressed);
    }
  }

  /** The inner loop of `decompressText`: the digits from `from` on. */
  method ReadCount(s: seq<char>, from: nat) returns (digits: seq<char>, i: nat)
    requires from <= |s|
    ensures from <= i <= |s| && digits == s[from..i] && AllDigits(digits)
    ensures i < |s| ==> !IsDigit(s[i])
  {
    digits := [];
    i := from;
    while i < |s| && IsDigit(s[i])
      invariant from <= i <= |s|
      invariant digits == s[from..i]
      invariant AllDigits(digits)
    {
      SliceExtend(s, from, i);
      digits := digits + [s[i]];
      i := i + 1;
    }
  }

  lemma DecodeStart(s: seq<char>)
    ensures DecodedUpTo(s, 0, [])
  {
    WholeSuffix(s);
    assert [] + Decompress(s) == Decompress(s);
  }

  lemma DecodeDone(s: seq<char>, done: seq<char>)
    requires DecodedUpTo(s, |s|, done)
    ensures done == Decompress(s)
  {
    EmptySuffix(s);
    assert done + [] == done;
  }

  /** The step of `decompressText` that copies the non-digit `s[i]`. */
  lemma DecompressCopiesLiteral(s: seq<char>, i: nat, before: seq<char>, after: seq<char>)
    requires i < |s| && !IsDigit(s[i])
    requires DecodedUpTo(s, i, before)
    requires after == before + [s[i]]
    ensures DecodedUpTo(s, i + 1, after)
  {
    DropDrop(s, i, 1, i + 1);
    Assoc(before, [s[i]], Decompress(s[i + 1..]));
  }

  /** The step of `decompressText` that has read the digits `s[start..i]`
      and repeats the character `s[i]`. */
  lemma DecompressReadsCount(s: seq<char>, start: nat, i: nat, digits: seq<char>, before: seq<char>, after: seq<char>)
    requires start < i < |s| && digits == s[start..i]
    requires AllDigits(digits) && !IsDigit(s[i])
    requires DecodedUpTo(s, start, before)
    requires after == before + Repeat(s[i], ParseDecimal(digits))
    ensures DecodedUpTo(s, i + 1, after)
  {
    var rest := s[start..];
    assert rest[..i - start] == digits;
    DigitRunIs(rest, i - start);
    DropDrop(s, start, i - start + 1, i + 1);
    Assoc(before, Repeat(s[i], ParseDecimal(digits)), Decompress(s[i + 1..]));
  }

  /** The step of `decompressText` that meets a digit run at the very end. */
  lemma DecompressDropsCount(s: seq<char>, start: nat, digits: seq<char>, before: seq<char>)
    requires start < |s| && digits == s[start..|s|]
    requires AllDigits(digits)
    requires DecodedUpTo(s, start, before)
    ensures DecodedUpTo(s, |s|, before)
  {
    assert s[start..] == digits;
    DigitRunIs(s[start..], |s| - start);
    EmptySuffix(s);
    assert before + [] == before;
  }

  /** A run of `n` copies of `c`, then more text, compresses as the run's
      encoding followed by the compression of the rest, provided the rest
      does not continue the run. */
  lemma CompressRunThen(c: char, n: nat, rest: seq<char>)
    requires n >= 1
    requires rest == [] || rest[0] != c
    ensures Compress(Repeat(c, n) + rest) == EncodeRun(c, n) + Compress(rest)
  {
    var s := Repeat(c, n) + rest;
    RunLengthIs(s, n);
    assert s[n..] == rest;
  }

  /** The text is the concatenation of its leading run and the remainder. */
  lemma SplitLeadingRun(s: seq<char>)
    requires s != []
    ensures s == Repeat(s[0], RunLength(s)) + s[RunLength(s)..]
  {
  }

  /** `compressText` never lengthens its input. */
  lemma {:induction false} CompressNeverLonger(s: seq<char>)
    ensures |Compress(s)| <= |s|
    decreases |s|
  {
    if s != [] {
      var n := RunLength(s);
      if n >= 3 {
        DecimalShorterThanValue(n);
      }
      CompressNeverLonger(s[n..]);
    }
  }

  /** Decoding copies a digit-free prefix through unchanged. */
  lemma {:induction false} DecompressLiteralPrefix(a: seq<char>, b: seq<char>)
    requires NoDigits(a)
    ensures Decompress(a + b) == a + Decompress(b)
    decreases |a|
  {
    if a != [] {
      var s := a + b;
      assert s[0] == a[0] && !IsDigit(s[0]);
      assert s[1..] == a[1..] + b;
      assert Decompress(s) == [a[0]] + Decompress(a[1..] + b);
      assert NoDigits(a[1..]) by {
        forall k | 0 <= k < |a[1..]| ensures !IsDigit(a[1..][k]) {
          assert a[1..][k] == a[k + 1];
        }
      }
      DecompressLiteralPrefix(a[1..], b);
      assert [a[0]] + a[1..] == a;
      Assoc([a[0]], a[1..], Decompress(b));
    } else {
      assert a + b == b;
    }
  }

  /** A maximal digit run followed by a character decodes to that character
      repeated `parseInt(digits)` times. */
  lemma DecompressCountedRun(d: seq<char>, c: char, rest: seq<char>)
    requires d != [] && AllDigits(d) && !IsDigit(c)
    ensures Decompress(d + [c] + rest) == Repeat(c, ParseDecimal(d)) + Decompress(rest)
  {
    var s := d + [c] + rest;
    assert s == d + ([c] + rest);
    DigitRunOfPrefix(d, [c] + rest);
    assert s[..|d|] == d;
    assert s[|d| + 1..] == rest;
  }

  /** A digit run at the very end decodes to nothing. */
  lemma DecompressTrailingCount(d: seq<char>)
    requires AllDigits(d)
    ensures Decompress(d) == []
  {
    if d != [] {
      DigitRunIs(d, |d|);
    }
  }

  /** The encoding of a run decodes back to the run. */
  lemma DecodeEncodedRun(c: char, n: nat, rest: seq<char>)
    requires !IsDigit(c)
    ensures Decompress(EncodeRun(c, n) + rest) == Repeat(c, n) + Decompress(rest)
  {
    if n >= 3 {
      ParseRender(n);
      DecompressCountedRun(NatToDecimal(n), c, rest);
    } else {
      DecompressLiteralPrefix(Repeat(c, n), rest);
    }
  }

  /** Round trip: for text without ASCII digits, decoding the encoding gives
      the text back. */
  lemma {:induction false} RleRoundTrip(s: seq<char>)
    requires NoDigits(s)
    ensures Decompress(Compress(s)) == s
    decreases |s|
  {
    if s != [] {
      var n := RunLength(s);
      RleRoundTrip(s[n..]);
      DecodeEncodedRun(s[0], n, Compress(s[n..]));
      SplitLeadingRun(s);
    }
  }

  /** The encoding introduces no character other than digits and the
      characters of the input. */
  lemma {:induction false} CompressAvoids(s: seq<char>, c: char)
    requires c !in s && !IsDigit(c)
    ensures c !in Compress(s)
    decreases |s|
  {
    if s != [] {
      var n := RunLength(s);
      assert c !in s[n..];
      CompressAvoids(s[n..], c);
    }
  }
}
