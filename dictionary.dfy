/** The dictionary half of the advanced codec: the marker alphabet, the
    pattern-to-marker dictionary the encoder builds, the substitution of
    markers for patterns, the `<marker><length><pattern>` header, the
    decoder's header parser, and the decoder's substitution of patterns for
    markers. */
module Dictionary {
  import opened Decimal
  import opened Text
  import opened Records

  /** The encoder's dictionary: pattern -> marker, in insertion order. */
  type PatternDict = seq<(seq<char>, char)>

  /** The decoder's dictionary: marker -> pattern, in insertion order. */
  type MarkerDict = seq<(char, seq<char>)>

  /** `String.fromCharCode(31)`, the unit separator between header and body. */
  const Separator: char := 31 as char

  const MarkerCount: nat := 29

  // ---------------------------------------------------------------- markers

  /** A control character the encoder may use as a marker: 1 to 31 except
      line feed (10) and carriage return (13). */
  predicate IsMarkerCode(n: int) {
    1 <= n <= 31 && n != 10 && n != 13
  }

  /** The code of the `k`-th marker. */
  function MarkerCode(k: nat): nat
    requires k < MarkerCount
  {
    if k < 9 then k + 1 else if k < 11 then k + 2 else k + 3
  }

  /** The marker list, as generated. */
  function Markers(): seq<char> {
    seq(MarkerCount, k requires 0 <= k < MarkerCount => MarkerCode(k) as char)
  }

  /** How many marker codes lie below `i`, for `1 <= i <= 32`. */
  function MarkersBelow(i: nat): nat
    requires 1 <= i
  {
    if i <= 10 then i - 1 else if i <= 13 then i - 2 else i - 3
  }

  /** The marker-generating loop of `advancedCompressText`. */
  method GenerateMarkers() returns (markers: seq<char>)
    ensures markers == Markers()
  {
    markers := [];
    for i := 1 to 32
      invariant |markers| == MarkersBelow(i)
      invariant forall k :: 0 <= k < |markers| ==> markers[k] == MarkerCode(k) as char
    {
      if i != 10 && i != 13 {
        markers := markers + [i as char];
      }
    }
  }

  /** The markers are the 29 control characters other than line feed and
      carriage return, each once, in increasing order. */
  lemma MarkersEnumerate()
    ensures |Markers()| == MarkerCount
    ensures forall k :: 0 <= k < MarkerCount ==> IsMarkerCode(Markers()[k] as int)
    ensures forall i, j :: 0 <= i < j < MarkerCount ==> Markers()[i] < Markers()[j]
    ensures forall n :: IsMarkerCode(n) ==> n as char in Markers()
  {
    forall n | IsMarkerCode(n) ensures n as char in Markers() {
      var k := if n < 10 then n - 1 else if n < 13 then n - 2 else n - 3;
      assert Markers()[k] == n as char;
    }
  }

  // ----------------------------------------------------------- encoder side

  /** The pairs `(ps[k], ms[k])` for every index both lists have. */
  function Pairs(ps: seq<seq<char>>, ms: seq<char>): (e: PatternDict)
    ensures |e| == Min(|ps|, |ms|)
    ensures forall k :: 0 <= k < |e| ==> e[k] == (ps[k], ms[k])
  {
    if |ps| == 0 || |ms| == 0 then [] else [(ps[0], ms[0])] + Pairs(ps[1..], ms[1..])
  }

  /** `dictionary[patterns[i]] = markers[i]` for each `i` below the shorter
      length. */
  method AssignMarkers(patterns: seq<seq<char>>, markers: seq<char>) returns (dictionary: PatternDict)
    ensures dictionary == PutAll([], Pairs(patterns, markers))
  {
    dictionary := [];
    for i := 0 to Min(|patterns|, |markers|)
      invariant PutAll(dictionary, Pairs(patterns[i..], markers[i..])) == PutAll([], Pairs(patterns, markers))
    {
      PairsStep(patterns, markers, i);
      dictionary := Put(dictionary, patterns[i], markers[i]);
    }
    PairsEnd(patterns, markers);
  }

  lemma PairsStep(ps: seq<seq<char>>, ms: seq<char>, i: nat)
    requires i < |ps| && i < |ms|
    ensures Pairs(ps[i..], ms[i..]) == [(ps[i], ms[i])] + Pairs(ps[i + 1..], ms[i + 1..])
  {
    assert ps[i..][1..] == ps[i + 1..];
    assert ms[i..][1..] == ms[i + 1..];
  }

  lemma PairsEnd(ps: seq<seq<char>>, ms: seq<char>)
    ensures Pairs(ps[Min(|ps|, |ms|)..], ms[Min(|ps|, |ms|)..]) == []
  {
  }

  /** Distinct patterns each get their own marker, in order. */
  lemma AssignedDictionary(ps: seq<seq<char>>, ms: seq<char>)
    requires forall i, j :: 0 <= i < j < |ps| ==> ps[i] != ps[j]
    ensures PutAll([], Pairs(ps, ms)) == Pairs(ps, ms)
  {
    var e := Pairs(ps, ms);
    assert [] + e == e;
    PutAllDistinct([], e);
  }

  /** Every pattern of the dictionary replaced by its marker, one entry at
      a time, in dictionary order. */
  function Substitute(s: seq<char>, e: PatternDict): seq<char>
    requires forall k :: 0 <= k < |e| ==> |e[k].0| > 0
    decreases |e|
  {
    if |e| == 0 then s else Substitute(ReplaceAll(s, e[0].0, [e[0].1]), e[1..])
  }

  /** The replacement loop of `advancedCompressText`. */
  method SubstitutePatterns(text: seq<char>, dictionary: PatternDict) returns (compressed: seq<char>)
    requires forall k :: 0 <= k < |dictionary| ==> |dictionary[k].0| > 0
    ensures compressed == Substitute(text, dictionary)
  {
    compressed := text;
    for k := 0 to |dictionary|
      invariant Substitute(compressed, dictionary[k..]) == Substitute(text, dictionary)
    {
      assert dictionary[k..][1..] == dictionary[k + 1..];
      compressed := ReplaceAll(compressed, dictionary[k].0, [dictionary[k].1]);
    }
  }

  /** The dictionary as a header: each entry as its marker, the decimal
      length of its pattern, and the pattern. */
  function Header(e: PatternDict): seq<char> {
    if |e| == 0 then [] else [e[0].1] + NatToDecimal(|e[0].0|) + e[0].0 + Header(e[1..])
  }

  /** The header-building loop of `advancedCompressText`. */
  method BuildHeader(dictionary: PatternDict) returns (header: seq<char>)
    ensures header == Header(dictionary)
  {
    header := [];
    for k := 0 to |dictionary|
      invariant header + Header(dictionary[k..]) == Header(dictionary)
    {
      var entry := [dictionary[k].1] + NatToDecimal(|dictionary[k].0|) + dictionary[k].0;
      HeaderStep(dictionary, k, header);
      header := header + entry;
    }
  }

  lemma HeaderStep(e: PatternDict, k: nat, done: seq<char>)
    requires k < |e|
    ensures done + Header(e[k..]) ==
      (done + ([e[k].1] + NatToDecimal(|e[k].0|) + e[k].0)) + Header(e[k + 1..])
  {
    assert e[k..][1..] == e[k + 1..];
  }

  // ----------------------------------------------------------- decoder side

  /** Where the run of digits that starts at `i` ends. */
  function DigitsEnd(h: seq<char>, i: nat): (j: nat)
    requires i <= |h|
    ensures i <= j <= |h|
    ensures forall k :: i <= k < j ==> IsDigit(h[k])
    ensures j < |h| ==> !IsDigit(h[j])
    decreases |h| - i
  {
    if i < |h| && IsDigit(h[i]) then DigitsEnd(h, i + 1) else i
  }

  /** The greedy digit run is determined by where the digits stop. */
  lemma {:induction false} DigitsEndIs(h: seq<char>, i: nat, j: nat)
    requires i <= j <= |h|
    requires forall k :: i <= k < j ==> IsDigit(h[k])
    requires j < |h| ==> !IsDigit(h[j])
    ensures DigitsEnd(h, i) == j
    decreases j - i
  {
    if i < j {
      DigitsEndIs(h, i + 1, j);
    }
  }

  /** `Number.parseInt` of the digits `h[i..j]`. */
  function LengthAt(h: seq<char>, i: nat, j: nat): nat
    requires i <= j <= |h|
    requires forall k :: i <= k < j ==> IsDigit(h[k])
  {
    assert AllDigits(h[i..j]) by {
      forall k | 0 <= k < j - i ensures IsDigit(h[i..j][k]) {
        assert h[i..j][k] == h[i + k];
      }
    }
    ParseDecimal(h[i..j])
  }

  /** The entries the decoder's header loop reads from position `i` on, in
      reading order: a marker, then a greedy run of digits giving a length,
      then that many characters (fewer if the header ends first). A marker
      not followed by a digit records nothing. */
  function EntriesFrom(h: seq<char>, i: nat): MarkerDict
    decreases |h| - i
  {
    if i >= |h| then []
    else
      var j := DigitsEnd(h, i + 1);
      if j == i + 1 then EntriesFrom(h, i + 1)
      else
        var end := Min(j + LengthAt(h, i + 1, j), |h|);
        [(h[i], h[j..end])] + EntriesFrom(h, end)
  }

  /** The dictionary the decoder builds: each entry assigned in turn, a
      repeated marker keeping its first position and its last pattern. */
  function HeaderDictionary(h: seq<char>): MarkerDict {
    PutAll([], EntriesFrom(h, 0))
  }

  /** Assigning the entries still to be read, from the dictionary so far,
      gives the final dictionary. */
  ghost predicate ParsedUpTo(h: seq<char>, i: nat, d: MarkerDict) {
    PutAll(d, EntriesFrom(h, i)) == HeaderDictionary(h)
  }

  /** The header-parsing loop of `advancedDecompressText`. */
  method ParseDictionary(header: seq<char>) returns (dictionary: MarkerDict)
    ensures dictionary == HeaderDictionary(header)
  {
    dictionary := [];
    var i: nat := 0;
    while i < |header|
      invariant ParsedUpTo(header, i, dictionary)
      decreases |header| - i
    {
      i, dictionary := ReadEntry(header, i, dictionary);
    }
    ParsedAll(header, i, dictionary);
  }

  /** One round of the header-parsing loop, from the marker at `first`:
      read the length digits and, if there are any, record the pattern
      that follows them and skip it. */
  method ReadEntry(header: seq<char>, first: nat, before: MarkerDict) returns (i: nat, dictionary: MarkerDict)
    requires first < |header| && ParsedUpTo(header, first, before)
    ensures first < i && ParsedUpTo(header, i, dictionary)
  {
    var marker := header[first];
    var lengthStr;
    lengthStr, i := ReadLength(header, first + 1);
    if |lengthStr| > 0 {
      DigitsReadAll(header, first + 1, i, lengthStr);
      var length := ParseDecimal(lengthStr);
      var pattern := header[i..Min(i + length, |header|)];
      ParseStepEntry(header, first, i, lengthStr, length, before);
      dictionary := Put(before, marker, pattern);
      i := i + length;
    } else {
      ParseStepMarkerOnly(header, first, i, lengthStr, before);
      dictionary := before;
    }
  }

  /** The inner loop of the header parser: the digits from `from` on, up
      to the first non-digit or the end of the header. */
  method ReadLength(header: seq<char>, from: nat) returns (lengthStr: seq<char>, i: nat)
    requires from <= |header|
    ensures DigitsRead(header, from, i, lengthStr)
    ensures i < |header| ==> !IsDigit(header[i])
  {
    lengthStr := [];
    i := from;
    while i < |header| && IsDigit(header[i])
      invariant DigitsRead(header, from, i, lengthStr)
      decreases |header| - i
    {
      DigitsReadStep(header, from, i, lengthStr);
      lengthStr := lengthStr + [header[i]];
      i := i + 1;
    }
  }

  /** `digits` holds the characters from `from` up to `i`, all digits. */
  predicate DigitsRead(h: seq<char>, from: nat, i: nat, digits: seq<char>) {
    from <= i <= |h| && digits == h[from..i] && forall k :: from <= k < i ==> IsDigit(h[k])
  }

  lemma DigitsReadAll(h: seq<char>, from: nat, i: nat, digits: seq<char>)
    requires DigitsRead(h, from, i, digits)
    ensures AllDigits(digits)
  {
    forall k | 0 <= k < |digits| ensures IsDigit(digits[k]) {
      assert digits[k] == h[from + k];
    }
  }

  lemma DigitsReadStep(h: seq<char>, from: nat, i: nat, digits: seq<char>)
    requires DigitsRead(h, from, i, digits) && i < |h| && IsDigit(h[i])
    ensures DigitsRead(h, from, i + 1, digits + [h[i]])
  {
    assert h[from..i + 1] == h[from..i] + [h[i]];
  }

  /** A round of the header loop that finds no digits records nothing. */
  lemma ParseStepMarkerOnly(h: seq<char>, first: nat, i: nat, digits: seq<char>, d: MarkerDict)
    requires first < |h| && DigitsRead(h, first + 1, i, digits) && |digits| == 0
    requires i < |h| ==> !IsDigit(h[i])
    requires ParsedUpTo(h, first, d)
    ensures ParsedUpTo(h, first + 1, d) && i == first + 1
  {
    DigitsEndIs(h, first + 1, i);
  }

  /** A round of the header loop that finds a length: the dictionary gains
      the marker with its (possibly clamped) pattern, and reading resumes
      after the pattern. */
  lemma ParseStepEntry(h: seq<char>, first: nat, i: nat, digits: seq<char>, len: nat, d: MarkerDict)
    requires first < |h| && DigitsRead(h, first + 1, i, digits) && |digits| > 0
    requires i < |h| ==> !IsDigit(h[i])
    requires AllDigits(digits) && len == ParseDecimal(digits)
    requires ParsedUpTo(h, first, d)
    ensures ParsedUpTo(h, i + len, Put(d, h[first], h[i..Min(i + len, |h|)]))
  {
    var end := Min(i + len, |h|);
    EntryRead(h, first, i, digits, len, end);
    PutAllRegroup(d, EntriesFrom(h, first), h[first], h[i..end], EntriesFrom(h, i + len), HeaderDictionary(h));
  }

  /** Assigning a list that starts with `(m, p)` is assigning `(m, p)`
      first and then the rest. */
  lemma PutAllRegroup(d: MarkerDict, whole: MarkerDict, m: char, p: seq<char>, rest: MarkerDict, target: MarkerDict)
    requires PutAll(d, whole) == target && whole == [(m, p)] + rest
    ensures PutAll(Put(d, m, p), rest) == target
  {
    PutAllCons(d, m, p, rest);
  }

  lemma EntryRead(h: seq<char>, first: nat, i: nat, digits: seq<char>, len: nat, end: nat)
    requires first < |h| && DigitsRead(h, first + 1, i, digits) && |digits| > 0
    requires i < |h| ==> !IsDigit(h[i])
    requires AllDigits(digits) && len == ParseDecimal(digits) && end == Min(i + len, |h|)
    ensures EntriesFrom(h, first) == [(h[first], h[i..end])] + EntriesFrom(h, i + len)
  {
    DigitsAt(h, first + 1, i, digits);
    EntryAt(h, first, i, len, end);
    EntriesClamped(h, i + len, end);
    SameTail(EntriesFrom(h, first), (h[first], h[i..end]), EntriesFrom(h, end), EntriesFrom(h, i + len));
  }

  /** Reading from past the end of the header reads nothing. */
  lemma EntriesClamped(h: seq<char>, a: nat, end: nat)
    requires end == Min(a, |h|)
    ensures EntriesFrom(h, end) == EntriesFrom(h, a)
  {
  }

  /** Substituting equals in a list's tail, stated on its own so that
      `EntryRead` uses it without the parser's functions in scope. */
  lemma SameTail(a: MarkerDict, x: (char, seq<char>), b: MarkerDict, c: MarkerDict)
    requires a == [x] + b && b == c
    ensures a == [x] + c
  {
  }

  lemma ParsedAll(h: seq<char>, i: nat, d: MarkerDict)
    requires i >= |h| && ParsedUpTo(h, i, d)
    ensures d == HeaderDictionary(h)
  {
  }

  lemma PutAllCons(d: MarkerDict, m: char, p: seq<char>, es: MarkerDict)
    ensures PutAll(d, [(m, p)] + es) == PutAll(Put(d, m, p), es)
  {
    assert ([(m, p)] + es)[1..] == es;
  }

  /** Every marker of the text replaced by its pattern, all at once: the
      meaning of a dictionary. */
  function Expand(s: seq<char>, d: MarkerDict): seq<char>
  {
    if |s| == 0 then [] else Get(d, s[0], [s[0]]) + Expand(s[1..], d)
  }

  /** The decoder's replacement: each entry's marker replaced by its
      pattern, one entry at a time, in dictionary order. */
  function ExpandInOrder(s: seq<char>, d: MarkerDict): seq<char>
    decreases |d|
  {
    if |d| == 0 then s else ExpandInOrder(ReplaceAll(s, [d[0].0], d[0].1), d[1..])
  }

  /** The replacement loop of `advancedDecompressText`. */
  method ExpandMarkers(content: seq<char>, dictionary: MarkerDict) returns (decompressed: seq<char>)
    ensures decompressed == ExpandInOrder(content, dictionary)
  {
    decompressed := content;
    for k := 0 to |dictionary|
      invariant ExpandInOrder(decompressed, dictionary[k..]) == ExpandInOrder(content, dictionary)
    {
      assert dictionary[k..][1..] == dictionary[k + 1..];
      decompressed := ReplaceAll(decompressed, [dictionary[k].0], dictionary[k].1);
    }
  }

  // ------------------------------------------------------------ properties

  /** The entries of the decoder's dictionary, read back from the header
      the encoder wrote: each marker with its pattern. */
  function Inverse(e: PatternDict): (d: MarkerDict)
    ensures |d| == |e|
    ensures forall k :: 0 <= k < |e| ==> d[k] == (e[k].1, e[k].0)
  {
    if |e| == 0 then [] else [(e[0].1, e[0].0)] + Inverse(e[1..])
  }

  /** One entry read at position `i`: digits from `i + 1` to `j`, a
      non-digit (or the end) at `j`. */
  lemma EntryAt(h: seq<char>, i: nat, j: nat, len: nat, end: nat)
    requires i + 1 < j <= |h|
    requires forall k :: i + 1 <= k < j ==> IsDigit(h[k])
    requires j < |h| ==> !IsDigit(h[j])
    requires len == LengthAt(h, i + 1, j) && end == Min(j + len, |h|)
    ensures EntriesFrom(h, i) == [(h[i], h[j..end])] + EntriesFrom(h, end)
  {
    DigitsEndIs(h, i + 1, j);
  }

  /** Where the pieces of the first entry of a header sit, when the header
      is written from position `i` of `h` on. */
  lemma EntryLayout(h: seq<char>, i: nat, e: PatternDict)
    requires |e| > 0 && i <= |h| && h[i..] == Header(e)
    ensures var dec := NatToDecimal(|e[0].0|);
      var j := i + 1 + |dec|;
      && j + |e[0].0| <= |h| && h[i] == e[0].1
      && h[i + 1..j] == dec && h[j..j + |e[0].0|] == e[0].0
      && h[j + |e[0].0|..] == Header(e[1..])
  {
    var m, dec, p, tail := e[0].1, NatToDecimal(|e[0].0|), e[0].0, Header(e[1..]);
    assert Header(e) == [m] + dec + p + tail;
    FourPieces(h, i, i + 1 + |dec|, i + 1 + |dec| + |p|, m, dec, p, tail);
  }

  /** Where the four pieces of a concatenation written from `i` on sit. */
  lemma FourPieces(h: seq<char>, i: nat, j: nat, k: nat, m: char, dec: seq<char>, p: seq<char>, tail: seq<char>)
    requires i <= |h| && h[i..] == [m] + dec + p + tail
    requires j == i + 1 + |dec| && k == j + |p|
    ensures k <= |h| && h[i] == m && h[i + 1..j] == dec && h[j..k] == p && h[k..] == tail
  {
    var w := h[i..];
    assert h[i] == w[0];
    assert h[i + 1..j] == w[1..1 + |dec|];
    assert h[j..k] == w[1 + |dec|..1 + |dec| + |p|];
    assert h[k..] == w[1 + |dec| + |p|..];
  }

  /** Digits at known positions are digits of the header. */
  lemma DigitsAt(h: seq<char>, i: nat, j: nat, dec: seq<char>)
    requires i <= j <= |h| && h[i..j] == dec && AllDigits(dec)
    ensures forall k :: i <= k < j ==> IsDigit(h[k])
    ensures LengthAt(h, i, j) == ParseDecimal(dec)
  {
    forall k | i <= k < j ensures IsDigit(h[k]) {
      assert h[k] == dec[k - i];
    }
  }

  /** `e` is laid out in `h` from position `i` on as the decoder reads it:
      each marker, a digit run whose value is the pattern's length, the
      pattern, and nothing after the last pattern. */
  ghost predicate LaidOut(h: seq<char>, i: nat, e: PatternDict)
    decreases |e|
  {
    if |e| == 0 then i == |h|
    else
      i + 1 < |h| && h[i] == e[0].1 &&
      var j := DigitsEnd(h, i + 1);
      i + 1 < j && j + |e[0].0| <= |h| && LengthAt(h, i + 1, j) == |e[0].0|
      && h[j..j + |e[0].0|] == e[0].0 && LaidOut(h, j + |e[0].0|, e[1..])
  }

  /** A header written from position `i` on is laid out there, provided
      every pattern is non-empty and starts with a non-digit. */
  lemma {:induction false} HeaderLaidOut(h: seq<char>, i: nat, e: PatternDict)
    requires i <= |h| && h[i..] == Header(e)
    requires forall k :: 0 <= k < |e| ==> |e[k].0| > 0 && !IsDigit(e[k].0[0])
    ensures LaidOut(h, i, e)
    decreases |e|
  {
    if |e| > 0 {
      var p := e[0].0;
      var j := FirstEntryLaidOut(h, i, e);
      TailPatterns(e);
      HeaderLaidOut(h, j + |p|, e[1..]);
      LaidOutCons(h, i, e, j);
    } else {
      assert |h[i..]| == 0;
    }
  }

  /** Where the decoder finds the first entry of a header written from
      position `i` on, and that the rest of the header follows it. */
  lemma FirstEntryLaidOut(h: seq<char>, i: nat, e: PatternDict) returns (j: nat)
    requires |e| > 0 && i <= |h| && h[i..] == Header(e)
    requires |e[0].0| > 0 && !IsDigit(e[0].0[0])
    ensures i + 1 < j < |h| && DigitsEnd(h, i + 1) == j && h[i] == e[0].1
    ensures j + |e[0].0| <= |h| && LengthAt(h, i + 1, j) == |e[0].0| && h[j..j + |e[0].0|] == e[0].0
    ensures h[j + |e[0].0|..] == Header(e[1..])
  {
    var p, dec := e[0].0, NatToDecimal(|e[0].0|);
    j := i + 1 + |dec|;
    EntryLayout(h, i, e);
    DigitsAt(h, i + 1, j, dec);
    ParseRender(|p|);
    assert h[j..j + |p|][0] == h[j];
    DigitsEndIs(h, i + 1, j);
  }

  /** One more entry in front of a laid-out dictionary. */
  lemma LaidOutCons(h: seq<char>, i: nat, e: PatternDict, j: nat)
    requires |e| > 0 && i + 1 < j < |h| && DigitsEnd(h, i + 1) == j && h[i] == e[0].1
    requires j + |e[0].0| <= |h| && LengthAt(h, i + 1, j) == |e[0].0| && h[j..j + |e[0].0|] == e[0].0
    requires LaidOut(h, j + |e[0].0|, e[1..])
    ensures LaidOut(h, i, e)
  {
  }

  /** The decoder reads every (marker, pattern) pair laid out from `i` on,
      in order. */
  lemma {:induction false} LaidOutReadBack(h: seq<char>, i: nat, e: PatternDict)
    requires LaidOut(h, i, e)
    ensures EntriesFrom(h, i) == Inverse(e)
    decreases |e|
  {
    if |e| > 0 {
      var j := DigitsEnd(h, i + 1);
      LaidOutReadBack(h, j + |e[0].0|, e[1..]);
      InverseCons(e);
    }
  }

  lemma TailPatterns(e: PatternDict)
    requires |e| > 0
    requires forall k :: 0 <= k < |e| ==> |e[k].0| > 0 && !IsDigit(e[k].0[0])
    ensures forall k :: 0 <= k < |e[1..]| ==> |e[1..][k].0| > 0 && !IsDigit(e[1..][k].0[0])
  {
    forall k | 0 <= k < |e[1..]| ensures |e[1..][k].0| > 0 && !IsDigit(e[1..][k].0[0]) {
      assert e[1..][k] == e[k + 1];
    }
  }

  lemma InverseCons(e: PatternDict)
    requires |e| > 0
    ensures Inverse(e) == [(e[0].1, e[0].0)] + Inverse(e[1..])
  {
  }

  /** Parsing a written header gives back its (marker, pattern) pairs in
      order, provided every pattern is non-empty and starts with a
      non-digit. */
  lemma HeaderRoundTrip(e: PatternDict)
    requires forall k :: 0 <= k < |e| ==> |e[k].0| > 0 && !IsDigit(e[k].0[0])
    ensures EntriesFrom(Header(e), 0) == Inverse(e)
  {
    HeaderLaidOut(Header(e), 0, e);
    LaidOutReadBack(Header(e), 0, e);
  }

  /** A header without digits records nothing: every marker lacks a
      length. */
  lemma {:induction false} HeaderWithoutLengths(h: seq<char>, i: nat)
    requires NoDigits(h)
    ensures EntriesFrom(h, i) == []
    decreases |h| - i
  {
    if i < |h| {
      HeaderWithoutLengths(h, i + 1);
    }
  }

  /** A marker not followed by a digit records nothing, wherever it is:
      reading continues with the next character. */
  lemma MarkerWithoutLength(h: seq<char>, i: nat)
    requires i < |h| && (i + 1 < |h| ==> !IsDigit(h[i + 1]))
    ensures EntriesFrom(h, i) == EntriesFrom(h, i + 1)
  {
  }

  /** A marker at `i` whose length, read from the digits `h[i + 1..j]`,
      runs past the end of the header takes what is left of it as the
      pattern, and it is the last entry read. */
  lemma TruncatedEntry(h: seq<char>, i: nat, j: nat)
    requires i + 1 < j <= |h|
    requires forall k :: i + 1 <= k < j ==> IsDigit(h[k])
    requires j < |h| ==> !IsDigit(h[j])
    requires LengthAt(h, i + 1, j) >= |h| - j
    ensures EntriesFrom(h, i) == [(h[i], h[j..])]
  {
    DigitsEndIs(h, i + 1, j);
    assert Min(j + LengthAt(h, i + 1, j), |h|) == |h|;
    assert h[j..|h|] == h[j..];
    assert EntriesFrom(h, |h|) == [];
  }

  /** A length that runs past the end of the header takes what is left of
      it as the pattern, and parsing stops there. */
  lemma HeaderTruncatedPattern(m: char, digits: seq<char>, rest: seq<char>)
    requires |digits| > 0 && AllDigits(digits)
    requires rest == [] || !IsDigit(rest[0])
    requires ParseDecimal(digits) >= |rest|
    ensures EntriesFrom([m] + digits + rest, 0) == [(m, rest)]
  {
    var h := [m] + digits + rest;
    var j := 1 + |digits|;
    forall k | 1 <= k < j ensures IsDigit(h[k]) {
      assert h[k] == digits[k - 1];
    }
    if rest != [] {
      assert h[j] == rest[0];
    }
    assert h[1..j] == digits;
    assert h[j..] == rest;
    TruncatedEntry(h, 0, j);
  }

  /** A pattern that starts with a digit is misread: the entry for "1ab"
      is written as marker, "3", "1ab", and the decoder takes "31" as the
      length, so the marker comes back bound to "ab". */
  lemma LeadingDigitMisread(m: char)
    ensures EntriesFrom(Header([("1ab", m)]), 0) == [(m, "ab")]
  {
    assert NatToDecimal(3) == "3";
    assert Header([("1ab", m)]) == [m] + "31" + "ab" by {
      var e: PatternDict := [("1ab", m)];
      assert e[1..] == [];
    }
    assert ParseDecimal("31") == 31 by {
      assert "31"[..1] == "3";
      assert "3"[..0] == [];
    }
    HeaderTruncatedPattern(m, "31", "ab");
  }

  /** A character that is not a digit, not a marker and not in any pattern
      is not in the header. */
  lemma {:induction false} HeaderAvoids(e: PatternDict, c: char)
    requires !IsDigit(c)
    requires forall k :: 0 <= k < |e| ==> e[k].1 != c && c !in e[k].0
    ensures c !in Header(e)
    decreases |e|
  {
    if |e| > 0 {
      HeaderAvoids(e[1..], c);
      var dec := NatToDecimal(|e[0].0|);
      assert c !in dec by {
        forall k | 0 <= k < |dec| ensures dec[k] != c {
          assert IsDigit(dec[k]);
        }
      }
    }
  }

  /** A character absent from the text and used as no marker is absent
      from the substituted text. */
  lemma {:induction false} SubstituteAvoids(s: seq<char>, e: PatternDict, c: char)
    requires forall k :: 0 <= k < |e| ==> |e[k].0| > 0 && e[k].1 != c
    requires c !in s
    ensures c !in Substitute(s, e)
    decreases |e|
  {
    if |e| > 0 {
      ReplaceAllAvoids(s, e[0].0, [e[0].1], c);
      SubstituteAvoids(ReplaceAll(s, e[0].0, [e[0].1]), e[1..], c);
    }
  }

  /** Substitution creates no occurrence of a text that holds none of the
      markers. */
  lemma {:induction false} SubstituteKeepsAbsent(s: seq<char>, e: PatternDict, q: seq<char>)
    requires forall k :: 0 <= k < |e| ==> |e[k].0| > 0 && e[k].1 !in q
    requires Absent(q, s)
    ensures Absent(q, Substitute(s, e))
    decreases |e|
  {
    if |e| > 0 {
      ReplaceAllKeepsAbsent(s, e[0].0, e[0].1, q);
      SubstituteKeepsAbsent(ReplaceAll(s, e[0].0, [e[0].1]), e[1..], q);
    }
  }

  /** When no marker occurs in any pattern, substitution leaves no
      occurrence of any pattern of the dictionary: each replace-all removes
      its own pattern, and the later ones bring none back. */
  lemma {:induction false} SubstituteRemovesPatterns(s: seq<char>, e: PatternDict)
    requires forall k :: 0 <= k < |e| ==> |e[k].0| > 0
    requires forall j, k :: 0 <= j < |e| && 0 <= k < |e| ==> e[j].1 !in e[k].0
    ensures forall k :: 0 <= k < |e| ==> Absent(e[k].0, Substitute(s, e))
    decreases |e|
  {
    if |e| > 0 {
      var s' := ReplaceAll(s, e[0].0, [e[0].1]);
      ReplaceAllRemoves(s, e[0].0, e[0].1);
      SubstituteKeepsAbsent(s', e[1..], e[0].0);
      SubstituteRemovesPatterns(s', e[1..]);
      forall k | 1 <= k < |e| ensures Absent(e[k].0, Substitute(s, e)) {
        assert e[k].0 == e[1..][k - 1].0;
      }
    }
  }

  /** Expansion distributes over concatenation. */
  lemma {:induction false} ExpandConcat(a: seq<char>, b: seq<char>, d: MarkerDict)
    ensures Expand(a + b, d) == Expand(a, d) + Expand(b, d)
    decreases |a|
  {
    if |a| == 0 {
      assert a + b == b;
    } else {
      assert (a + b)[1..] == a[1..] + b;
      ExpandConcat(a[1..], b, d);
    }
  }

  /** Text holding no marker of the dictionary expands to itself. */
  lemma {:induction false} ExpandIdentity(s: seq<char>, d: MarkerDict)
    requires forall k :: 0 <= k < |s| ==> !HasKey(d, s[k])
    ensures Expand(s, d) == s
    decreases |s|
  {
    if |s| > 0 {
      GetMissing(d, s[0], [s[0]]);
      ExpandIdentity(s[1..], d);
    }
  }

  lemma ExpandSingle(c: char, d: MarkerDict)
    ensures Expand([c], d) == Get(d, c, [c])
  {
  }

  /** Joining pieces with a marker means the same as joining them with the
      marker's pattern, when the pattern expands to itself. */
  lemma {:induction false} ExpandJoinGlue(parts: seq<seq<char>>, m: char, p: seq<char>, d: MarkerDict)
    requires Get(d, m, [m]) == p && Expand(p, d) == p
    ensures Expand(Join(parts, [m]), d) == Expand(Join(parts, p), d)
    decreases |parts|
  {
    if |parts| > 1 {
      var j1 := Join(parts[1..], [m]);
      var j2 := Join(parts[1..], p);
      ExpandJoinGlue(parts[1..], m, p, d);
      ExpandConcat(parts[0] + [m], j1, d);
      ExpandConcat(parts[0], [m], d);
      ExpandSingle(m, d);
      ExpandConcat(parts[0] + p, j2, d);
      ExpandConcat(parts[0], p, d);
    }
  }

  /** Replacing a pattern by a marker that stands for it does not change
      the meaning of the text. */
  lemma ReplacePreservesExpand(s: seq<char>, p: seq<char>, m: char, d: MarkerDict)
    requires |p| > 0 && Get(d, m, [m]) == p && Expand(p, d) == p
    ensures Expand(ReplaceAll(s, p, [m]), d) == Expand(s, d)
  {
    ExpandJoinGlue(Split(s, p), m, p, d);
    JoinSplit(s, p);
  }

  /** The encoder's substitution does not change the meaning of the text
      under a dictionary in which each marker stands for its pattern and
      each pattern expands to itself. */
  lemma {:induction false} SubstitutePreservesExpand(s: seq<char>, e: PatternDict, d: MarkerDict)
    requires forall k :: 0 <= k < |e| ==> |e[k].0| > 0
    requires forall k :: 0 <= k < |e| ==> Get(d, e[k].1, [e[k].1]) == e[k].0 && Expand(e[k].0, d) == e[k].0
    ensures Expand(Substitute(s, e), d) == Expand(s, d)
    decreases |e|
  {
    if |e| > 0 {
      ReplacePreservesExpand(s, e[0].0, e[0].1, d);
      SubstitutePreservesExpand(ReplaceAll(s, e[0].0, [e[0].1]), e[1..], d);
    }
  }

  /** Substituting the first entry's pattern for its marker, then expanding
      with the rest, is expanding with all of them. */
  lemma {:induction false} ExpandFirstEntry(s: seq<char>, m: char, p: seq<char>, d: MarkerDict)
    requires !HasKey(d, m) && Expand(p, d) == p
    ensures Expand(SubstChar(s, m, p), d) == Expand(s, [(m, p)] + d)
    decreases |s|
  {
    if |s| > 0 {
      var head := if s[0] == m then p else [s[0]];
      ExpandConcat(head, SubstChar(s[1..], m, p), d);
      ExpandFirstEntry(s[1..], m, p, d);
      assert ([(m, p)] + d)[1..] == d;
    }
  }

  /** No pattern of the dictionary holds a marker of the dictionary. */
  predicate PatternsFreeOfMarkers(d: MarkerDict) {
    forall i, j :: 0 <= i < |d| && 0 <= j < |d| ==> d[j].0 !in d[i].1
  }

  /** The decoder's one-entry-at-a-time replacement means the same as
      expanding every marker at once, when markers are distinct and no
      pattern holds a marker. */
  lemma {:induction false} InOrderIsSimultaneous(s: seq<char>, d: MarkerDict)
    requires DistinctKeys(d) && PatternsFreeOfMarkers(d)
    ensures ExpandInOrder(s, d) == Expand(s, d)
    decreases |d|
  {
    if |d| > 0 {
      var m := d[0].0;
      var p := d[0].1;
      var rest := d[1..];
      assert DistinctKeys(rest) && PatternsFreeOfMarkers(rest) by {
        forall i, j | 0 <= i < |rest| && 0 <= j < |rest| ensures rest[j].0 !in rest[i].1 && (i < j ==> rest[i].0 != rest[j].0) {
          assert rest[i] == d[i + 1] && rest[j] == d[j + 1];
        }
      }
      ReplaceAllChar(s, m, p);
      InOrderIsSimultaneous(SubstChar(s, m, p), rest);
      forall j | 0 <= j < |rest| ensures rest[j].0 !in p && rest[j].0 != m {
        assert rest[j] == d[j + 1];
      }
      ExpandIdentity(p, rest);
      ExpandFirstEntry(s, m, p, rest);
      assert [(m, p)] + rest == d;
      calc {
        ExpandInOrder(s, d);
        ExpandInOrder(ReplaceAll(s, [m], p), rest);
        ExpandInOrder(SubstChar(s, m, p), rest);
        Expand(SubstChar(s, m, p), rest);
        Expand(s, d);
      }
    } else {
      ExpandIdentity(s, d);
    }
  }

  /** Text holding no marker of the encoder's dictionary and patterns drawn
      from such text: the decoder's expansion of the encoder's substitution
      gives the text back. */
  lemma DictionaryRoundTrip(t: seq<char>, e: PatternDict)
    requires forall k :: 0 <= k < |e| ==> |e[k].0| > 0
    requires DistinctKeys(Inverse(e))
    requires forall k, c :: 0 <= k < |e| && c in e[k].0 ==> c in t
    requires forall k :: 0 <= k < |e| ==> e[k].1 !in t
    ensures ExpandInOrder(Substitute(t, e), Inverse(e)) == t
  {
    var d := Inverse(e);
    assert forall k :: 0 <= k < |t| ==> !HasKey(d, t[k]);
    ExpandIdentity(t, d);
    forall k | 0 <= k < |e| ensures Get(d, e[k].1, [e[k].1]) == e[k].0 && Expand(e[k].0, d) == e[k].0 {
      GetAt(d, k, [e[k].1]);
      ExpandIdentity(e[k].0, d);
    }
    SubstitutePreservesExpand(t, e, d);
    forall i, j | 0 <= i < |d| && 0 <= j < |d| ensures d[j].0 !in d[i].1 {
      assert d[j].0 == e[j].1 && d[i].1 == e[i].0;
    }
    InOrderIsSimultaneous(Substitute(t, e), d);
  }
}
