/** The two entry points of the dictionary codec, `advancedCompressText`
    and `advancedDecompressText`, and the properties that tie them together
    and to the run-length codec they fall back on. */
module Advanced {
  import opened Decimal
  import opened Text
  import opened Records
  import opened Rle
  import opened Patterns
  import opened Dictionary

  /** Texts shorter than this are run-length coded. */
  const MinAdvancedLength: nat := 10

  /** The codes of the markers the encoder can use: the first twenty of
      the alphabet, since at most twenty patterns are chosen. */
  predicate UsedMarkerCode(n: int) {
    1 <= n <= 9 || n == 11 || n == 12 || 14 <= n <= 22
  }

  /** The encoder's dictionary for `t`. */
  function EncoderDictionary(t: seq<char>): PatternDict {
    PutAll([], Pairs(SelectPatterns(CountTable(t)), Markers()))
  }

  /** The output of `advancedCompressText`. */
  function AdvancedCompress(t: seq<char>): seq<char> {
    if |t| < MinAdvancedLength then Compress(t)
    else if |SelectPatterns(CountTable(t))| == 0 then Compress(t)
    else
      var e := EncoderDictionary(t);
      EncoderDictionaryFacts(t);
      Header(e) + [Separator] + Substitute(t, e)
  }

  /** The output of `advancedDecompressText`: without a separator the text
      is run-length decoded; otherwise the text before the first separator
      is the header and the text between the first and the second is the
      body. */
  function AdvancedDecompress(s: seq<char>): seq<char> {
    if Separator !in s then Decompress(s)
    else
      SplitHasTwoPieces(s, Separator);
      var parts := Split(s, [Separator]);
      ExpandInOrder(parts[1], HeaderDictionary(parts[0]))
  }

  /** `advancedCompressText`. */
  method AdvancedCompressText(text: seq<char>) returns (result: seq<char>)
    ensures result == AdvancedCompress(text)
  {
    if |text| < MinAdvancedLength {
      result := CompressText(text);
      return;
    }
    var patterns := CountPatterns(text);
    var usefulPatterns := SelectPatterns(patterns);
    if |usefulPatterns| == 0 {
      result := CompressText(text);
      return;
    }
    var markers := GenerateMarkers();
    var dictionary := AssignMarkers(usefulPatterns, markers);
    EncoderDictionaryFacts(text);
    var compressed := SubstitutePatterns(text, dictionary);
    var header := BuildHeader(dictionary);
    result := header + [Separator] + compressed;
  }

  /** `advancedDecompressText`. */
  method AdvancedDecompressText(compressed: seq<char>) returns (result: seq<char>)
    ensures result == AdvancedDecompress(compressed)
  {
    if Separator !in compressed {
      result := DecompressText(compressed);
      return;
    }
    SplitHasTwoPieces(compressed, Separator);
    var parts := Split(compressed, [Separator]);
    var header := parts[0];
    var content := parts[1];
    var dictionary := ParseDictionary(header);
    result := ExpandMarkers(content, dictionary);
  }

  /** The markers the encoder can use are never a digit, line feed,
      carriage return or the separator. */
  lemma UsedMarkers()
    ensures forall k :: 0 <= k < MaxPatterns ==> UsedMarkerCode(Markers()[k] as int)
    ensures forall k :: 0 <= k < MaxPatterns ==>
      !IsDigit(Markers()[k]) && Markers()[k] != Separator && Markers()[k] != '\n' && Markers()[k] != '\r'
  {
  }

  /** The encoder's dictionary pairs the chosen patterns, in rank order,
      with the first markers; every pattern is three to ten characters of
      the text, and the markers are distinct. */
  lemma EncoderDictionaryFacts(t: seq<char>)
    ensures var e := EncoderDictionary(t);
      && e == Pairs(SelectPatterns(CountTable(t)), Markers())
      && |e| == |SelectPatterns(CountTable(t))| <= MaxPatterns
      && (forall k :: 0 <= k < |e| ==> MinPatternLength <= |e[k].0| <= MaxPatternLength)
      && (forall k, c :: 0 <= k < |e| && c in e[k].0 ==> c in t)
      && (forall k :: 0 <= k < |e| ==> e[k].1 == Markers()[k] && UsedMarkerCode(e[k].1 as int))
      && DistinctKeys(Inverse(e))
  {
    var counts := CountTable(t);
    var ps := SelectPatterns(counts);
    CountTableCounts(t, []);
    SelectedPatterns(counts);
    AssignedDictionary(ps, Markers());
    UsedMarkers();
    MarkersEnumerate();
    var e := Pairs(ps, Markers());
    forall k | 0 <= k < |e|
      ensures MinPatternLength <= |e[k].0| <= MaxPatternLength && forall c :: c in e[k].0 ==> c in t
    {
      var n :| 0 <= n < |counts| && counts[n].0 == ps[k];
      GetAt(counts, n, 0);
      CountTableKeys(t, counts[n]);
    }
  }

  /** For a text holding none of the characters the encoder uses as
      markers, the substituted body holds no occurrence of any chosen
      pattern. */
  lemma BodyHoldsNoPattern(t: seq<char>)
    requires forall k :: 0 <= k < |t| ==> !UsedMarkerCode(t[k] as int)
    ensures var e := EncoderDictionary(t);
      && (forall k :: 0 <= k < |e| ==> |e[k].0| > 0)
      && forall k :: 0 <= k < |e| ==> Absent(e[k].0, Substitute(t, e))
  {
    var e := EncoderDictionary(t);
    EncoderDictionaryFacts(t);
    MarkersOutsidePatterns(t, e);
    SubstituteRemovesPatterns(t, e);
  }

  /** Markers absent from a text occur in no pattern taken from it. */
  lemma MarkersOutsidePatterns(t: seq<char>, e: PatternDict)
    requires forall k :: 0 <= k < |t| ==> !UsedMarkerCode(t[k] as int)
    requires forall k :: 0 <= k < |e| ==> UsedMarkerCode(e[k].1 as int)
    requires forall k, c :: 0 <= k < |e| && c in e[k].0 ==> c in t
    ensures forall j, k :: 0 <= j < |e| && 0 <= k < |e| ==> e[j].1 !in e[k].0
  {
    forall j | 0 <= j < |e| ensures e[j].1 !in t {
      forall n | 0 <= n < |t| ensures t[n] != e[j].1 {
        assert !UsedMarkerCode(t[n] as int);
      }
    }
  }

  /** The decoder finds the header before the first separator and the body
      after it, whatever the body holds if it holds no separator. */
  lemma DecodeSections(h: seq<char>, c: seq<char>)
    requires Separator !in h && Separator !in c
    ensures AdvancedDecompress(h + [Separator] + c) == ExpandInOrder(c, HeaderDictionary(h))
  {
    SplitAtFirst(h, c, Separator);
    SplitWithoutSeparator(c, Separator);
    DecodePieces(h + [Separator] + c, h, c);
  }

  /** Anything after a second separator is ignored. */
  lemma DecodeIgnoresTail(h: seq<char>, c: seq<char>, tail: seq<char>)
    requires Separator !in h && Separator !in c
    ensures AdvancedDecompress(h + [Separator] + c + [Separator] + tail) == ExpandInOrder(c, HeaderDictionary(h))
  {
    var rest := c + [Separator] + tail;
    var s := h + [Separator] + c + [Separator] + tail;
    SeparatorsRegroup(h, c, tail);
    SplitAtFirst(h, rest, Separator);
    SplitAtFirst(c, tail, Separator);
    DecodePieces(s, h, c);
  }

  /** Regrouping a concatenation, stated on its own so that it is proved
      without the decoder's functions in scope. */
  lemma SeparatorsRegroup(h: seq<char>, c: seq<char>, tail: seq<char>)
    ensures h + [Separator] + c + [Separator] + tail == h + [Separator] + (c + [Separator] + tail)
  {
  }

  /** The decoder expands the second piece with the dictionary of the
      first. */
  lemma DecodePieces(s: seq<char>, h: seq<char>, c: seq<char>)
    requires Separator in s
    requires |Split(s, [Separator])| >= 2 && Split(s, [Separator])[0] == h && Split(s, [Separator])[1] == c
    ensures AdvancedDecompress(s) == ExpandInOrder(c, HeaderDictionary(h))
  {
  }

  /** Input without a separator is run-length decoded. */
  lemma DecodeWithoutSeparator(s: seq<char>)
    requires Separator !in s
    ensures AdvancedDecompress(s) == Decompress(s)
  {
  }

  /** Short texts, and texts in which no substring was counted three
      times, are run-length coded. */
  lemma CompressFallback(t: seq<char>)
    ensures |t| < MinAdvancedLength ==> AdvancedCompress(t) == Compress(t)
    ensures (forall e :: e in CountTable(t) ==> e.1 < 3) ==> AdvancedCompress(t) == Compress(t)
  {
    var counts := CountTable(t);
    CountTableCounts(t, []);
    NothingSelected(counts);
    forall e | e in counts && Qualifies(e) ensures e.1 >= 3 {
    }
  }

  /** For a text without the separator, the output is in the dictionary
      format (holds a separator) exactly when the text has at least ten
      characters and some substring was counted at least three times;
      otherwise it is the run-length coding. */
  lemma AdvancedFormat(t: seq<char>)
    requires Separator !in t
    ensures Separator in AdvancedCompress(t) <==>
      |t| >= MinAdvancedLength && exists e :: e in CountTable(t) && e.1 >= 3
    ensures Separator !in AdvancedCompress(t) ==> AdvancedCompress(t) == Compress(t)
  {
    var counts := CountTable(t);
    CountTableCounts(t, []);
    NothingSelected(counts);
    CompressAvoids(t, Separator);
    forall e | e in counts && e.1 >= 3 ensures Qualifies(e) {
      CountTableKeys(t, e);
      QualifiesByCount(e);
    }
    if |t| >= MinAdvancedLength && |SelectPatterns(counts)| > 0 {
      var e :| e in counts && Qualifies(e);
      assert e.1 >= 3;
      var out := AdvancedCompress(t);
      assert out[|Header(EncoderDictionary(t))|] == Separator;
    }
  }

  /** Texts the codec restores exactly: no digits, no separator, and none
      of the characters the encoder may use as markers. */
  predicate RoundTripSafe(t: seq<char>) {
    NoDigits(t) && Separator !in t && forall k :: 0 <= k < |t| ==> !UsedMarkerCode(t[k] as int)
  }

  /** Decoding the advanced encoding of a safe text gives the text back. */
  lemma AdvancedRoundTrip(t: seq<char>)
    requires RoundTripSafe(t)
    ensures AdvancedDecompress(AdvancedCompress(t)) == t
  {
    if |t| < MinAdvancedLength || |SelectPatterns(CountTable(t))| == 0 {
      CompressAvoids(t, Separator);
      RleRoundTrip(t);
    } else {
      SafeDictionary(t);
      DictionaryCodecRoundTrip(t, EncoderDictionary(t));
    }
  }

  /** The encoder's dictionary for a safe text: its patterns are non-empty,
      start with a non-digit and avoid the separator, its markers are
      distinct, occur nowhere in the text and are neither digits nor the
      separator. */
  lemma SafeDictionary(t: seq<char>)
    requires RoundTripSafe(t)
    ensures var e := EncoderDictionary(t);
      && (forall k :: 0 <= k < |e| ==>
            |e[k].0| > 0 && !IsDigit(e[k].0[0]) && Separator !in e[k].0
            && e[k].1 !in t && e[k].1 != Separator)
      && (forall k, c :: 0 <= k < |e| && c in e[k].0 ==> c in t)
      && DistinctKeys(Inverse(e))
  {
    var e := EncoderDictionary(t);
    EncoderDictionaryFacts(t);
    UsedMarkers();
    forall k | 0 <= k < |e| ensures !IsDigit(e[k].0[0]) && e[k].1 !in t && Separator !in e[k].0 {
      assert e[k].0[0] in e[k].0;
      assert e[k].0[0] in t;
      var n :| 0 <= n < |t| && t[n] == e[k].0[0];
      forall n | 0 <= n < |t| ensures t[n] != e[k].1 {
        assert !UsedMarkerCode(t[n] as int);
      }
    }
  }

  /** The dictionary format round trip for any dictionary with the
      properties of a safe text's encoder dictionary. */
  lemma DictionaryCodecRoundTrip(t: seq<char>, e: PatternDict)
    requires forall k :: 0 <= k < |e| ==>
      |e[k].0| > 0 && !IsDigit(e[k].0[0]) && Separator !in e[k].0 && e[k].1 !in t && e[k].1 != Separator
    requires forall k, c :: 0 <= k < |e| && c in e[k].0 ==> c in t
    requires DistinctKeys(Inverse(e)) && Separator !in t
    ensures AdvancedDecompress(Header(e) + [Separator] + Substitute(t, e)) == t
  {
    var d := Inverse(e);
    HeaderAvoids(e, Separator);
    SubstituteAvoids(t, e, Separator);
    DecodeSections(Header(e), Substitute(t, e));
    HeaderRoundTrip(e);
    assert [] + d == d;
    PutAllDistinct([], d);
    DictionaryRoundTrip(t, e);
  }
}
