/** What the walkers promise each other on every text, well-formed or not. */
module JsonWalkers {
  import opened Options
  import opened JsonBytes
  import opened JsonScanSpec
  import Utf8

  // ---------- one walk, three answers ----------

  predicate AllDecode(dec: Decoder, es: seq<Entry>) {
    forall k :: 0 <= k < |es| ==> DecodeToken(dec, es[k].token).Some?
  }

  lemma {:induction false} DecodedAll(dec: Decoder, es: seq<Entry>)
    ensures |DecodedPrefix(dec, es)| == |es| <==> AllDecode(dec, es)
    decreases |es|
  {
    hide DecodeToken;
    if es != [] {
      DecodedAll(dec, es[1..]);
      assert AllDecode(dec, es) <==> DecodeToken(dec, es[0].token).Some? && AllDecode(dec, es[1..]) by {
        assert forall k :: 1 <= k < |es| ==> es[k] == es[1..][k - 1];
      }
    }
  }

  lemma {:induction false} HitsCountKeys(dec: Decoder, es: seq<Entry>, key: Bytes)
    requires AllDecode(dec, es)
    ensures |DecodedPrefix(dec, es)| == |es|
    ensures |Hits(dec, es, key)| == multiset(DecodedPrefix(dec, es))[key]
    decreases |es|
  {
    hide DecodeToken;
    if es != [] {
      HitsCountKeys(dec, es[1..], key);
      var k, ks := DecodeToken(dec, es[0].token).value, DecodedPrefix(dec, es[1..]);
      assert multiset([k] + ks)[key] == multiset([k])[key] + multiset(ks)[key];
    }
  }

  /** Whenever the key walker answers, the span walker answers too and finds each
      key as often as the key list holds it. */
  lemma KeysImplySpans(dec: Decoder, b: Bytes, key: Bytes)
    requires KeysOf(dec, WalkRoot(b)).Some?
    ensures SpansOf(dec, WalkRoot(b), key).Some?
    ensures |TopLevelSpans(dec, b, key)| == multiset(KeysOf(dec, WalkRoot(b)).value)[key]
  {
    DecodedAll(dec, WalkRoot(b).entries);
    HitsCountKeys(dec, WalkRoot(b).entries, key);
  }

  /** The two differ only on a text with an undecodable key. */
  lemma SpansWithoutKeys(dec: Decoder, b: Bytes, key: Bytes)
    requires SpansOf(dec, WalkRoot(b), key).Some?
    ensures KeysOf(dec, WalkRoot(b)).Some? <==> AllDecode(dec, WalkRoot(b).entries)
  {
    DecodedAll(dec, WalkRoot(b).entries);
  }

  // ---------- where the spans lie ----------

  ghost predicate WellPlaced(s: KeySpan, b: Bytes) {
    s.keyStart + 2 <= s.keyEnd < s.valueStart <= s.valueEnd <= |b|
    && Utf8.IsAsciiEdge(b, s.keyStart) && Utf8.IsAsciiEdge(b, s.keyEnd)
    && Utf8.IsAsciiEdge(b, s.valueStart) && Utf8.IsAsciiEdge(b, s.valueEnd)
  }

  /** Each entry starts at or after `lo` and beyond the end of the one before. */
  ghost predicate InOrder(ss: seq<KeySpan>, b: Bytes, lo: nat) {
    ss == [] || (lo <= ss[0].keyStart <= ss[0].valueEnd && WellPlaced(ss[0], b) && InOrder(ss[1..], b, ss[0].valueEnd + 1))
  }

  function SpansOfEntries(es: seq<Entry>): (ss: seq<KeySpan>)
    ensures |ss| == |es|
  {
    if es == [] then [] else [es[0].span] + SpansOfEntries(es[1..])
  }

  lemma {:induction false} NestEndsOnAscii(b: Bytes, j: nat, d: int)
    requires NestEnd(b, j, d).Some? && (d != 0 || IsOpener(b[j]))
    ensures b[NestEnd(b, j, d).value - 1] < 0x80
    decreases |b| - j
  {
    if b[j] == QUOTE {
      NestEndsOnAscii(b, ScanString(b, j).value, d);
    } else if d + DepthStep(b[j]) > 0 {
      NestEndsOnAscii(b, j + 1, d + DepthStep(b[j]));
    }
  }

  lemma {:induction false} LiteralEndsAtDelimiter(b: Bytes, i: nat)
    requires i <= |b|
    ensures var r := LiteralEnd(b, i); r == |b| || IsDelimiter(b[r])
    decreases |b| - i
  {
    if i < |b| && !IsDelimiter(b[i]) {
      LiteralEndsAtDelimiter(b, i + 1);
    }
  }

  lemma ValueEndIsEdge(b: Bytes, i: nat)
    requires ScanValue(b, i).Some?
    ensures Utf8.IsAsciiEdge(b, ScanValue(b, i).value)
  {
    hide NestEnd, LiteralEnd, StringEnd;
    if IsOpener(b[i]) {
      NestEndsOnAscii(b, i, 0);
    } else if b[i] != QUOTE {
      LiteralEndsAtDelimiter(b, i);
    }
  }

  lemma {:induction false} SkipWsEdge(b: Bytes, i: nat)
    requires 0 < i <= |b| && b[i - 1] < 0x80
    ensures var r := SkipWs(b, i); 0 < r <= |b| && b[r - 1] < 0x80
    decreases |b| - i
  {
    if i < |b| && IsWs(b[i]) {
      SkipWsEdge(b, i + 1);
    }
  }

  lemma EntryIsWellPlaced(b: Bytes, i: nat)
    requires ScanEntry(b, i).Some?
    ensures var s := ScanEntry(b, i).value.span; s.keyStart == i && WellPlaced(s, b)
  {
    hide SkipWs, ScanString, ScanValue;
    var s := ScanEntry(b, i).value.span;
    SkipWsEdge(b, SkipWs(b, s.keyEnd) + 1);
    ValueEndIsEdge(b, s.valueStart);
  }

  lemma {:induction false} WalkInOrder(b: Bytes, i: nat)
    ensures InOrder(SpansOfEntries(Walk(b, i).entries), b, i)
    decreases |b| - i
  {
    hide ScanEntry, SkipWs, WellPlaced;
    var entry := ScanEntry(b, i);
    if entry.Some? {
      EntryIsWellPlaced(b, i);
      var e := entry.value;
      var k := SkipWs(b, e.span.valueEnd);
      if k < |b| && b[k] == COMMA {
        var next := SkipWs(b, k + 1);
        WalkInOrder(b, next);
        InOrderFrom(SpansOfEntries(Walk(b, next).entries), b, next, e.span.valueEnd + 1);
        SpansCons(e, Walk(b, next).entries);
      } else {
        SpansCons(e, []);
      }
    }
  }

  lemma SpansCons(e: Entry, es: seq<Entry>)
    ensures SpansOfEntries([e] + es) == [e.span] + SpansOfEntries(es)
  {
    assert ([e] + es)[1..] == es;
  }

  lemma InOrderFrom(ss: seq<KeySpan>, b: Bytes, hi: nat, lo: nat)
    requires InOrder(ss, b, hi) && lo <= hi
    ensures InOrder(ss, b, lo)
  {}

  lemma {:induction false} HitsInOrder(dec: Decoder, es: seq<Entry>, key: Bytes, b: Bytes, lo: nat)
    requires InOrder(SpansOfEntries(es), b, lo)
    ensures InOrder(Hits(dec, es, key), b, lo)
    decreases |es|
  {
    hide DecodeToken, WellPlaced;
    if es != [] {
      var next := es[0].span.valueEnd + 1;
      var rest := Hits(dec, es[1..], key);
      HitsInOrder(dec, es[1..], key, b, next);
      InOrderFrom(rest, b, next, lo);
      assert ([es[0].span] + rest)[1..] == rest && [] + rest == rest;
    }
  }

  lemma {:induction false} InOrderAt(ss: seq<KeySpan>, b: Bytes, lo: nat, k: nat)
    requires InOrder(ss, b, lo) && k < |ss|
    ensures WellPlaced(ss[k], b) && lo <= ss[k].keyStart <= ss[k].valueEnd
    ensures forall j :: 0 <= j < k ==> ss[j].valueEnd < ss[k].keyStart
    decreases |ss|
  {
    hide WellPlaced;
    if k > 0 {
      InOrderAt(ss[1..], b, ss[0].valueEnd + 1, k - 1);
      assert forall j :: 1 <= j < k ==> ss[j] == ss[1..][j - 1];
    }
  }

  /** For any text: the reported spans lie inside it, in document order and apart. */
  lemma SpansAreOrdered(dec: Decoder, b: Bytes, key: Bytes)
    ensures InOrder(TopLevelSpans(dec, b, key), b, 0)
    ensures var ss := TopLevelSpans(dec, b, key);
            forall j, k :: 0 <= j < k < |ss| ==> ss[j].valueEnd < ss[k].keyStart
  {
    hide WellPlaced, Walk;
    var i := SkipWs(b, SkipWs(b, 0) + 1);
    WalkInOrder(b, i);
    InOrderFrom(SpansOfEntries(Walk(b, i).entries), b, i, 0);
    HitsInOrder(dec, WalkRoot(b).entries, key, b, 0);
    var ss := TopLevelSpans(dec, b, key);
    forall k | 0 <= k < |ss|
      ensures forall j :: 0 <= j < k ==> ss[j].valueEnd < ss[k].keyStart
    {
      InOrderAt(ss, b, 0, k);
    }
  }

  /** Slicing by the span cannot panic. */
  ghost predicate OnBoundaries(b: Bytes, s: KeySpan) {
    s.keyStart + 2 <= s.keyEnd < s.valueStart <= s.valueEnd <= |b|
    && Utf8.IsBoundary(b, s.keyStart) && Utf8.IsBoundary(b, s.keyEnd)
    && Utf8.IsBoundary(b, s.valueStart) && Utf8.IsBoundary(b, s.valueEnd)
  }

  lemma InOrderOnBoundaries(b: Bytes, ss: seq<KeySpan>, lo: nat)
    requires Utf8.ValidUtf8(b) && InOrder(ss, b, lo)
    ensures forall s <- ss :: OnBoundaries(b, s)
  {
    forall k | 0 <= k < |ss| ensures OnBoundaries(b, ss[k]) {
      InOrderAt(ss, b, lo, k);
      Utf8.AsciiEdgeIsBoundary(b, ss[k].keyStart);
      Utf8.AsciiEdgeIsBoundary(b, ss[k].keyEnd);
      Utf8.AsciiEdgeIsBoundary(b, ss[k].valueStart);
      Utf8.AsciiEdgeIsBoundary(b, ss[k].valueEnd);
    }
  }

  lemma {:induction false} SpanOfEntry(es: seq<Entry>, k: nat)
    requires k < |es|
    ensures SpansOfEntries(es)[k] == es[k].span
    decreases k
  {
    if k > 0 {
      SpanOfEntry(es[1..], k - 1);
    }
  }

  lemma EntriesOnBoundaries(b: Bytes, es: seq<Entry>, lo: nat)
    requires Utf8.ValidUtf8(b) && InOrder(SpansOfEntries(es), b, lo)
    ensures forall e <- es :: OnBoundaries(b, e.span)
  {
    hide InOrder, OnBoundaries;
    InOrderOnBoundaries(b, SpansOfEntries(es), lo);
    forall k | 0 <= k < |es| ensures OnBoundaries(b, es[k].span) {
      SpanOfEntry(es, k);
      assert SpansOfEntries(es)[k] in SpansOfEntries(es);
    }
  }

  /** For any valid UTF-8 text every offset the walkers slice at is a character
      boundary, of hits and of the entries between them, from the root or from any
      offset on, though the string scanner steps two bytes over a backslash and may
      land inside a character. */
  lemma SlicesOnBoundaries(b: Bytes, from: nat)
    requires Utf8.ValidUtf8(b)
    ensures forall e <- WalkRoot(b).entries :: OnBoundaries(b, e.span)
    ensures forall e <- WalkOn(b, from).entries :: OnBoundaries(b, e.span)
  {
    hide OnBoundaries, Walk, SkipWs, InOrder;
    var i := SkipWs(b, SkipWs(b, 0) + 1);
    WalkInOrder(b, i);
    EntriesOnBoundaries(b, Walk(b, i).entries, i);
    var j := SkipWs(b, SkipWs(b, from) + 1);
    WalkInOrder(b, j);
    EntriesOnBoundaries(b, Walk(b, j).entries, j);
  }

  lemma SpansOnBoundaries(dec: Decoder, b: Bytes, key: Bytes)
    requires Utf8.ValidUtf8(b)
    ensures forall s <- TopLevelSpans(dec, b, key) :: OnBoundaries(b, s)
  {
    SpansAreOrdered(dec, b, key);
    InOrderOnBoundaries(b, TopLevelSpans(dec, b, key), 0);
  }

  // ---------- keys after a value ----------

  lemma {:induction false} WalkSuffix(b: Bytes, i: nat, k: nat)
    requires k < |Walk(b, i).entries|
    ensures var t := Walk(b, i);
            WalkOn(b, t.entries[k].span.valueEnd) == Trail(t.entries[k + 1..], t.end)
    decreases |b| - i
  {
    hide ScanEntry, SkipWs;
    var e := ScanEntry(b, i).value;
    var rest := WalkOn(b, e.span.valueEnd);
    assert Walk(b, i) == Cons(e, rest);
    assert ([e] + rest.entries)[1..] == rest.entries;
    if k > 0 {
      var next := SkipWs(b, SkipWs(b, e.span.valueEnd) + 1);
      WalkSuffix(b, next, k - 1);
      assert ([e] + rest.entries)[k + 1..] == rest.entries[k..];
    }
  }

  lemma {:induction false} DecodedSuffix(dec: Decoder, es: seq<Entry>, k: nat)
    requires k <= |es| && AllDecode(dec, es)
    ensures |DecodedPrefix(dec, es)| == |es|
    ensures DecodedPrefix(dec, es[k..]) == DecodedPrefix(dec, es)[k..]
    decreases k
  {
    hide DecodeToken;
    DecodedAll(dec, es);
    if k > 0 {
      DecodedSuffix(dec, es[1..], k - 1);
      assert es[1..][k - 1..] == es[k..];
    } else {
      assert es[0..] == es;
    }
  }

  /** When the key walker answers, the keys after the k-th value are exactly the
      rest of its answer. */
  lemma KeysAfterContinuesKeys(dec: Decoder, b: Bytes, k: nat)
    requires KeysOf(dec, WalkRoot(b)).Some? && k < |WalkRoot(b).entries|
    ensures KeysAfter(dec, b, WalkRoot(b).entries[k].span.valueEnd)
         == KeysOf(dec, WalkRoot(b)).value[k + 1..]
  {
    hide Walk, WalkOn, SkipWs;
    var es := WalkRoot(b).entries;
    WalkSuffix(b, SkipWs(b, SkipWs(b, 0) + 1), k);
    DecodedAll(dec, es);
    DecodedSuffix(dec, es, k + 1);
  }

  // ---------- truncation ----------

  lemma {:induction false} SkipWsCut(b: Bytes, n: nat, i: nat)
    requires n <= |b| && SkipWs(b[..n], i) < n
    ensures SkipWs(b, i) == SkipWs(b[..n], i)
    decreases n - i
  {
    if i < n && IsWs(b[i]) {
      SkipWsCut(b, n, i + 1);
    }
  }

  lemma {:induction false} StringEndCut(b: Bytes, n: nat, j: nat)
    requires n <= |b| && StringEnd(b[..n], j).Some?
    ensures StringEnd(b, j) == StringEnd(b[..n], j)
    decreases n - j
  {
    if b[j] == BACKSLASH {
      StringEndCut(b, n, j + 2);
    } else if b[j] != QUOTE {
      StringEndCut(b, n, j + 1);
    }
  }

  lemma {:induction false} NestEndCut(b: Bytes, n: nat, j: nat, d: int)
    requires n <= |b| && NestEnd(b[..n], j, d).Some?
    ensures NestEnd(b, j, d) == NestEnd(b[..n], j, d)
    decreases n - j
  {
    if b[j] == QUOTE {
      StringEndCut(b, n, j + 1);
      NestEndCut(b, n, ScanString(b, j).value, d);
    } else if d + DepthStep(b[j]) > 0 {
      NestEndCut(b, n, j + 1, d + DepthStep(b[j]));
    }
  }

  lemma {:induction false} LiteralEndCut(b: Bytes, n: nat, i: nat)
    requires i <= n <= |b| && LiteralEnd(b[..n], i) < n
    ensures LiteralEnd(b, i) == LiteralEnd(b[..n], i)
    decreases n - i
  {
    if i < n && !IsDelimiter(b[i]) {
      LiteralEndCut(b, n, i + 1);
    }
  }

  lemma ScanValueCut(b: Bytes, n: nat, i: nat)
    requires n <= |b| && ScanValue(b[..n], i).Some?
    ensures ScanValue(b, i).Some?
    ensures ScanValue(b, i) == ScanValue(b[..n], i) || ScanValue(b[..n], i) == Some(n)
  {
    hide NestEnd, StringEnd, LiteralEnd;
    if b[i] == QUOTE {
      StringEndCut(b, n, i + 1);
    } else if IsOpener(b[i]) {
      NestEndCut(b, n, i, 0);
    } else if LiteralEnd(b[..n], i) < n {
      LiteralEndCut(b, n, i);
    }
  }

  /** An entry that scans in the cut text scans in the whole with the same key;
      only a literal value may go on past the cut. */
  lemma ScanEntryCut(b: Bytes, n: nat, i: nat)
    requires n <= |b| && ScanEntry(b[..n], i).Some?
    ensures ScanEntry(b, i).Some?
    ensures var c, e := ScanEntry(b[..n], i).value, ScanEntry(b, i).value;
            c.token == e.token && (c.span == e.span || c.span.valueEnd == n)
  {
    hide SkipWs, ScanValue, ScanString, ScanEntry;
    var cut := b[..n];
    EntryParts(cut, i);
    var afterKey := ScanString(cut, i).value;
    ScanStringCut(b, n, i);
    var colon := SkipWs(cut, afterKey);
    SkipWsCut(b, n, afterKey);
    var value := SkipWs(cut, colon + 1);
    ScanValueStarts(cut, value);
    SkipWsCut(b, n, colon + 1);
    ScanValueCut(b, n, value);
    EntryFrom(b, i, afterKey, colon, value, ScanValue(b, value).value);
    SliceOfCut(b, n, i, afterKey);
  }

  lemma ScanStringCut(b: Bytes, n: nat, i: nat)
    requires n <= |b| && ScanString(b[..n], i).Some?
    ensures ScanString(b, i) == ScanString(b[..n], i)
  {
    hide StringEnd;
    StringEndCut(b, n, i + 1);
  }

  lemma SliceOfCut(b: Bytes, n: nat, i: nat, j: nat)
    requires i <= j <= n <= |b|
    ensures b[..n][i..j] == b[i..j]
  {}

  lemma ScanValueStarts(b: Bytes, i: nat)
    requires ScanValue(b, i).Some?
    ensures i < |b|
  {}

  lemma {:induction false} WalkCut(dec: Decoder, b: Bytes, n: nat, i: nat)
    requires n <= |b|
    ensures DecodedPrefix(dec, Walk(b[..n], i).entries) <= DecodedPrefix(dec, Walk(b, i).entries)
    decreases n - i, 0
  {
    hide ScanEntry, SkipWs, DecodeToken, DecodedPrefix;
    var cut := ScanEntry(b[..n], i);
    NoKeys(dec);
    if cut.Some? {
      ScanEntryCut(b, n, i);
      var c, e := cut.value, ScanEntry(b, i).value;
      DecodedCons(dec, c, WalkOn(b[..n], c.span.valueEnd).entries);
      DecodedCons(dec, e, WalkOn(b, e.span.valueEnd).entries);
      WalkOnCut(dec, b, n, c.span.valueEnd);
      if c.span.valueEnd == n {
        SkipWsPastEnd(b[..n], n);
      }
    }
  }

  lemma SkipWsPastEnd(b: Bytes, i: nat)
    requires i >= |b|
    ensures SkipWs(b, i) == i
  {}

  lemma {:induction false} WalkOnCut(dec: Decoder, b: Bytes, n: nat, from: nat)
    requires n <= |b|
    ensures DecodedPrefix(dec, WalkOn(b[..n], from).entries) <= DecodedPrefix(dec, WalkOn(b, from).entries)
    decreases n - from, 1
  {
    hide SkipWs, Walk, DecodedPrefix;
    NoKeys(dec);
    var k := SkipWs(b[..n], from);
    if k < n {
      SkipWsCut(b, n, from);
      if b[k] == COMMA {
        var next := SkipWs(b[..n], k + 1);
        if next < n {
          SkipWsCut(b, n, k + 1);
          WalkCut(dec, b, n, next);
        } else {
          WalkPastEnd(b[..n], next);
        }
      }
    }
  }

  lemma WalkPastEnd(b: Bytes, i: nat)
    requires i >= |b|
    ensures Walk(b, i) == Trail([], Broken)
  {}

  /** Truncation never invents a key: those proven on the cut text are a prefix of
      those proven on the whole. */
  lemma KeysAfterUnderTruncation(dec: Decoder, b: Bytes, n: nat, from: nat)
    requires n <= |b|
    ensures KeysAfter(dec, b[..n], from) <= KeysAfter(dec, b, from)
  {
    WalkOnCut(dec, b, n, from);
  }

  /** Of a text whose keys are known, any truncation proves after the k-th value
      only keys that do come after it, in their order. */
  lemma KeysAfterIsSound(dec: Decoder, b: Bytes, n: nat, k: nat)
    requires n <= |b| && KeysOf(dec, WalkRoot(b)).Some? && k < |WalkRoot(b).entries|
    ensures KeysAfter(dec, b[..n], WalkRoot(b).entries[k].span.valueEnd)
         <= KeysOf(dec, WalkRoot(b)).value[k + 1..]
  {
    KeysAfterUnderTruncation(dec, b, n, WalkRoot(b).entries[k].span.valueEnd);
    KeysAfterContinuesKeys(dec, b, k);
  }
}
