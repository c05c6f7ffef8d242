/** Keeping the first of several same-named entries by cutting text: the consumer
    contract of the spans, `rebuild_first_wins` in the tests of
    llama-proxy/src/fixes/json_scan.rs. */
module JsonRebuild {
  import opened Options
  import opened JsonBytes
  import opened JsonGrammar
  import opened JsonScanSpec
  import opened JsonScanGrammar
  import opened JsonDocuments
  import opened JsonObjects
  import JsonScan

  // ---------- the cut ----------

  /** Back from `s` over blanks. */
  function BackOverWs(b: Bytes, s: nat): (r: nat)
    requires s <= |b|
    ensures r <= s
  {
    if s > 0 && IsWs(b[s - 1]) then BackOverWs(b, s - 1) else s
  }

  /** Every span can be cut from the comma before its key to the end of its value,
      in order and from `prev` on. */
  ghost predicate Cuttable(b: Bytes, prev: nat, ss: seq<KeySpan>)
    decreases |ss|
  {
    prev <= |b| &&
    (ss == [] ||
     (ss[0].keyStart <= |b| && ss[0].keyStart <= ss[0].valueEnd
      && var c := BackOverWs(b, ss[0].keyStart); prev < c && b[c - 1] == COMMA && Cuttable(b, ss[0].valueEnd, ss[1..])))
  }

  /** The text from `prev` on without the cuts. */
  function Remaining(b: Bytes, prev: nat, ss: seq<KeySpan>): Bytes
    requires Cuttable(b, prev, ss)
    decreases |ss|
  {
    if ss == [] then b[prev..]
    else b[prev..BackOverWs(b, ss[0].keyStart) - 1] + Remaining(b, ss[0].valueEnd, ss[1..])
  }

  // ---------- the code ----------

  lemma {:induction false} BackStops(b: Bytes, i: nat, s: nat)
    requires 0 < i <= s <= |b| && !IsWs(b[i - 1]) && forall k :: i <= k < s ==> IsWs(b[k])
    ensures BackOverWs(b, s) == i
    decreases s
  {
    if i < s {
      BackStops(b, i, s - 1);
    }
  }

  /** Hits among entries that follow a comma can be cut. */
  lemma {:induction false} HitsAreCuttable(dec: Decoder, b: Bytes, from: nat, key: Bytes)
    requires from <= |b|
    ensures Cuttable(b, from, Hits(dec, WalkOn(b, from).entries, key))
    decreases |b| - from
  {
    hide ScanEntry, SkipWs, BackOverWs, DecodeToken;
    var k := SkipWs(b, from);
    NoHits(dec, key);
    if k < |b| && b[k] == COMMA {
      var i := SkipWs(b, k + 1);
      var entry := ScanEntry(b, i);
      if entry.Some? {
        var e := entry.value;
        var rest := WalkOn(b, e.span.valueEnd).entries;
        HitsAreCuttable(dec, b, e.span.valueEnd, key);
        SkipWsIsBlank(b, k + 1);
        ScanEntryStarts(b, i);
        BackStops(b, k + 1, i);
        HitsCons(dec, e, rest, key);
        var hits := Hits(dec, rest, key);
        assert ([e.span] + hits)[1..] == hits && [] + hits == hits;
        CuttableFrom(b, e.span.valueEnd, from, hits);
      }
    }
  }

  lemma ScanEntryStarts(b: Bytes, i: nat)
    requires ScanEntry(b, i).Some?
    ensures i < |b| && ScanEntry(b, i).value.span.keyStart == i
  {}

  lemma CuttableFrom(b: Bytes, hi: nat, lo: nat, ss: seq<KeySpan>)
    requires Cuttable(b, hi, ss) && lo <= hi
    ensures Cuttable(b, lo, ss)
  {}

  /** On any text, every span after the first has only blanks between its key and
      the comma before it: the source's assertion cannot fail. */
  lemma LaterSpansAreCuttable(dec: Decoder, b: Bytes, key: Bytes)
    requires TopLevelSpans(dec, b, key) != []
    ensures Cuttable(b, 0, TopLevelSpans(dec, b, key)[1..])
  {
    hide SkipWs, ScanEntry, Cuttable, IsHit;
    var i := SkipWs(b, SkipWs(b, 0) + 1);
    NoHits(dec, key);
    var e := ScanEntry(b, i).value;
    var rest := WalkOn(b, e.span.valueEnd).entries;
    HitsCons(dec, e, rest, key);
    HitsAreCuttable(dec, b, e.span.valueEnd, key);
    var hits := Hits(dec, rest, key);
    if IsHit(dec, e, key) {
      assert ([e.span] + hits)[1..] == hits;
      CuttableFrom(b, e.span.valueEnd, 0, hits);
    } else {
      assert [] + hits == hits;
      CuttableTail(b, e.span.valueEnd, hits);
    }
  }

  lemma CuttableTail(b: Bytes, prev: nat, ss: seq<KeySpan>)
    requires Cuttable(b, prev, ss) && ss != []
    ensures Cuttable(b, 0, ss[1..])
  {
    CuttableFrom(b, ss[0].valueEnd, 0, ss[1..]);
  }

  lemma CuttableHead(b: Bytes, prev: nat, ss: seq<KeySpan>)
    requires Cuttable(b, prev, ss) && ss != []
    ensures prev <= |b| && ss[0].keyStart <= |b|
    ensures var c := BackOverWs(b, ss[0].keyStart); prev < c && b[c - 1] == COMMA
    ensures Cuttable(b, ss[0].valueEnd, ss[1..])
    ensures Remaining(b, prev, ss)
         == b[prev..BackOverWs(b, ss[0].keyStart) - 1] + Remaining(b, ss[0].valueEnd, ss[1..])
  {}

  method CutStart(b: Bytes, keyStart: nat) returns (s: nat)
    requires keyStart <= |b|
    ensures s == BackOverWs(b, keyStart)
  {
    s := keyStart;
    while s > 0 && IsWs(b[s - 1])
      invariant s <= |b| && BackOverWs(b, s) == BackOverWs(b, keyStart)
    {
      s := s - 1;
    }
  }

  /** `cuts` are those of the spans, comma to value end. */
  ghost predicate AreCuts(b: Bytes, ss: seq<KeySpan>, cuts: seq<(nat, nat)>) {
    |cuts| == |ss| &&
    forall k :: 0 <= k < |ss| ==>
      ss[k].keyStart <= |b| && cuts[k].0 == BackOverWs(b, ss[k].keyStart) - 1 && cuts[k].1 == ss[k].valueEnd
  }

  method CutsOf(b: Bytes, ss: seq<KeySpan>) returns (cuts: seq<(nat, nat)>)
    requires Cuttable(b, 0, ss)
    ensures AreCuts(b, ss, cuts)
  {
    cuts := [];
    ghost var prev := 0;
    var k := 0;
    while k < |ss|
      invariant 0 <= k <= |ss| && Cuttable(b, prev, ss[k..]) && AreCuts(b, ss[..k], cuts)
    {
      hide Cuttable, AreCuts, BackOverWs;
      CuttableHead(b, prev, ss[k..]);
      assert ss[k..][1..] == ss[k + 1..];
      var s := CutStart(b, ss[k].keyStart);
      CutsSnoc(b, ss, k, cuts);
      cuts := cuts + [(s - 1, ss[k].valueEnd)];
      prev := ss[k].valueEnd;
      k := k + 1;
    }
    assert ss[..k] == ss;
  }

  lemma CutsSnoc(b: Bytes, ss: seq<KeySpan>, k: nat, cuts: seq<(nat, nat)>)
    requires k < |ss| && AreCuts(b, ss[..k], cuts)
    requires ss[k].keyStart <= |b| && BackOverWs(b, ss[k].keyStart) > 0
    ensures AreCuts(b, ss[..k + 1], cuts + [(BackOverWs(b, ss[k].keyStart) - 1, ss[k].valueEnd)])
  {
    hide BackOverWs;
    assert ss[..k + 1] == ss[..k] + [ss[k]];
  }

  method RebuildFirstWins(dec: Decoder, b: Bytes, key: Bytes) returns (out: Bytes)
    requires |TopLevelSpans(dec, b, key)| > 1
    ensures var later := TopLevelSpans(dec, b, key)[1..];
            Cuttable(b, 0, later) && out == Remaining(b, 0, later)
  {
    hide Cuttable, TopLevelSpans, Remaining, BackOverWs;
    var spans := JsonScan.TopLevelKeySpans(dec, b, key);
    LaterSpansAreCuttable(dec, b, key);
    var later := spans[1..];
    var cuts := CutsOf(b, later);
    out := [];
    var prev: nat := 0;
    var c := 0;
    while c < |cuts|
      invariant 0 <= c <= |later|
      invariant Cuttable(b, prev, later[c..])
      invariant Remaining(b, 0, later) == out + Remaining(b, prev, later[c..])
    {
      RebuildRound(b, prev, later, c, out);
      assert cuts[c].0 == BackOverWs(b, later[c].keyStart) - 1 && cuts[c].1 == later[c].valueEnd;
      out := out + b[prev..cuts[c].0];
      prev := cuts[c].1;
      c := c + 1;
    }
    NothingLeft(b, prev, later[c..]);
    out := out + b[prev..];
  }

  /** One round of the joining loop. */
  lemma RebuildRound(b: Bytes, prev: nat, later: seq<KeySpan>, c: nat, out: Bytes)
    requires c < |later| && Cuttable(b, prev, later[c..])
    ensures prev <= |b| && later[c].keyStart <= |b|
    ensures var s := BackOverWs(b, later[c].keyStart);
            prev < s && Cuttable(b, later[c].valueEnd, later[c + 1..])
            && out + Remaining(b, prev, later[c..])
            == (out + b[prev..s - 1]) + Remaining(b, later[c].valueEnd, later[c + 1..])
  {
    hide Cuttable, Remaining, BackOverWs;
    CuttableHead(b, prev, later[c..]);
    assert later[c..][1..] == later[c + 1..];
    var cut := b[prev..BackOverWs(b, later[c].keyStart) - 1];
    Regroup(out, cut, Remaining(b, later[c].valueEnd, later[c + 1..]), []);
  }

  lemma NothingLeft(b: Bytes, prev: nat, ss: seq<KeySpan>)
    requires Cuttable(b, prev, ss)
    ensures prev <= |b| && (ss == [] ==> Remaining(b, prev, ss) == b[prev..])
  {}

  // ---------- what it does to a document ----------

  /** The members without those that repeat `key`; what followed a removed member
      up to the next separator now follows the member kept before it. */
  function KeepFirst(dec: Decoder, ms: seq<Member>, key: Bytes): (r: seq<Member>)
    ensures r == [] <==> ms == []
  {
    if ms == [] then []
    else if KeyReads(dec, ms[0], key) then Absorb(dec, ms[0], ms[1..], key)
    else [ms[0]] + KeepFirst(dec, ms[1..], key)
  }

  function Absorb(dec: Decoder, m: Member, ms: seq<Member>, key: Bytes): (r: seq<Member>)
    ensures r != []
    decreases |ms|
  {
    if ms == [] then [m]
    else if KeyReads(dec, ms[0], key) then Absorb(dec, m.(after := m.after + ms[0].after), ms[1..], key)
    else [m] + Absorb(dec, ms[0], ms[1..], key)
  }

  /** The text of a member tail with the members that read `key` cut out. */
  function CutTail(dec: Decoder, ms: seq<Member>, key: Bytes): Bytes {
    if ms == [] then []
    else (if KeyReads(dec, ms[0], key) then ms[0].after else [COMMA] + PrintMember(ms[0])) + CutTail(dec, ms[1..], key)
  }

  lemma {:induction false} AbsorbPrints(dec: Decoder, pad: Bytes, m: Member, ms: seq<Member>, key: Bytes)
    ensures PrintMembers(pad, Absorb(dec, m, ms, key)) == PrintMember(m) + CutTail(dec, ms, key)
    decreases |ms|
  {
    hide PrintMember, KeyReads, PrintMembers, CutTail;
    TailStep(dec, ms, key);
    if ms == [] {
      PrintMembersCons(pad, m, []);
      assert [m] + [] == [m];
    } else if KeyReads(dec, ms[0], key) {
      var m' := m.(after := m.after + ms[0].after);
      AbsorbPrints(dec, pad, m', ms[1..], key);
      LongerAfter(m, ms[0].after);
      Regroup(PrintMember(m), ms[0].after, CutTail(dec, ms[1..], key), []);
    } else {
      var rest := Absorb(dec, ms[0], ms[1..], key);
      AbsorbPrints(dec, pad, ms[0], ms[1..], key);
      PrintMembersCons(pad, m, rest);
      Regroup([COMMA], PrintMember(ms[0]), CutTail(dec, ms[1..], key), []);
    }
  }

  lemma LongerAfter(m: Member, w: Bytes)
    ensures PrintMember(m.(after := m.after + w)) == PrintMember(m) + w
  {
    hide PrintString, Print;
    assert PrintPair(m.(after := m.after + w)) == PrintPair(m);
    assert m.before + PrintPair(m) + (m.after + w) == m.before + PrintPair(m) + m.after + w;
  }

  lemma SliceThen(b: Bytes, prev: nat, j: nat, x: Bytes, y: Bytes, z: Bytes)
    requires prev <= j && At(b, j, x)
    ensures b[prev..j + |x|] + y + z == b[prev..j] + (x + y) + z
  {
    assert b[prev..j + |x|] == b[prev..j] + x;
  }

  lemma Regroup(a: Bytes, x: Bytes, y: Bytes, z: Bytes)
    ensures a + (x + y + z) == a + (x + y) + z
    ensures a + (x + y) == (a + x) + y
  {}

  lemma MatchingCons(dec: Decoder, i: nat, ms: seq<Member>, key: Bytes)
    requires ms != []
    ensures var rest := Matching(dec, i + |PrintMember(ms[0])| + 1, ms[1..], key);
            Matching(dec, i, ms, key) == (if KeyReads(dec, ms[0], key) then [Places(i, ms[0])] + rest else rest)
  {
    hide PrintMember, Places, KeyReads;
  }

  lemma TailStep(dec: Decoder, ms: seq<Member>, key: Bytes)
    ensures ms == [] ==> PrintMemberTail(ms) == CutTail(dec, ms, key) == []
    ensures ms != [] ==>
      PrintMemberTail(ms) == [COMMA] + PrintMember(ms[0]) + PrintMemberTail(ms[1..])
      && CutTail(dec, ms, key)
      == (if KeyReads(dec, ms[0], key) then ms[0].after else [COMMA] + PrintMember(ms[0])) + CutTail(dec, ms[1..], key)
  {}

  /** Where the first member of a printed tail stands, and the rest of the tail. */
  lemma TailLayout(b: Bytes, j: nat, ms: seq<Member>)
    requires ms != [] && At(b, j, PrintMemberTail(ms))
    ensures var next := j + 1 + |PrintMember(ms[0])|;
            At(b, j, [COMMA] + PrintMember(ms[0])) && At(b, j, [COMMA]) && At(b, j + 1, PrintMember(ms[0]))
            && At(b, next, PrintMemberTail(ms[1..])) && next <= |b|
            && next + |PrintMemberTail(ms[1..])| == j + |PrintMemberTail(ms)| <= |b|
  {
    hide PrintMember, At;
    AtConcat(b, j, [COMMA] + PrintMember(ms[0]), PrintMemberTail(ms[1..]));
    AtConcat(b, j, [COMMA], PrintMember(ms[0]));
    AtSlice(b, j, PrintMemberTail(ms));
    AtSlice(b, j, [COMMA] + PrintMember(ms[0]));
  }

  /** The tail's first member is cut, the rest was cut from its value on to `z`. */
  lemma TailMatch(dec: Decoder, b: Bytes, prev: nat, j: nat, ms: seq<Member>, key: Bytes, z: Bytes)
    requires ms != [] && KeyReads(dec, ms[0], key) && ValidMember(ms[0]) && prev <= j
    requires At(b, j, [COMMA]) && At(b, j + 1, PrintMember(ms[0]))
    requires var next, p := j + 1 + |PrintMember(ms[0])|, Places(j + 1, ms[0]);
             var rest := Matching(dec, next + 1, ms[1..], key);
             p.valueEnd <= next <= |b| && Cuttable(b, p.valueEnd, rest)
             && Remaining(b, p.valueEnd, rest) == b[p.valueEnd..next] + CutTail(dec, ms[1..], key) + z
    ensures Cuttable(b, prev, Matching(dec, j + 1, ms, key))
    ensures Remaining(b, prev, Matching(dec, j + 1, ms, key)) == b[prev..j] + CutTail(dec, ms, key) + z
  {
    hide PrintMember, KeyReads, Cuttable, Remaining, Matching, Places, CutTail, PrintMemberTail, At, BackOverWs;
    hide ValidMember;
    var p := Places(j + 1, ms[0]);
    TailStep(dec, ms, key);
    MatchingCons(dec, j + 1, ms, key);
    MatchIsCut(b, j, ms[0]);
    AtSlice(b, p.valueEnd, ms[0].after);
    CutMember(b, prev, j, ms[0].after, p, Matching(dec, j + 1 + |PrintMember(ms[0])| + 1, ms[1..], key),
              CutTail(dec, ms[1..], key), z);
  }

  /** The tail's first member stays. */
  lemma TailMiss(dec: Decoder, b: Bytes, prev: nat, j: nat, ms: seq<Member>, key: Bytes, z: Bytes)
    requires ms != [] && !KeyReads(dec, ms[0], key) && prev <= j && At(b, j, [COMMA] + PrintMember(ms[0]))
    requires var next := j + 1 + |PrintMember(ms[0])|;
             var rest := Matching(dec, next + 1, ms[1..], key);
             next <= |b| && Cuttable(b, prev, rest)
             && Remaining(b, prev, rest) == b[prev..next] + CutTail(dec, ms[1..], key) + z
    ensures Cuttable(b, prev, Matching(dec, j + 1, ms, key)) && j <= |b|
    ensures Remaining(b, prev, Matching(dec, j + 1, ms, key)) == b[prev..j] + CutTail(dec, ms, key) + z
  {
    hide PrintMember, KeyReads, Cuttable, Remaining, Matching, Places, CutTail, PrintMemberTail, At;
    TailStep(dec, ms, key);
    MatchingCons(dec, j + 1, ms, key);
    AtSlice(b, j, [COMMA] + PrintMember(ms[0]));
    SliceThen(b, prev, j, [COMMA] + PrintMember(ms[0]), CutTail(dec, ms[1..], key), z);
  }

  /** Cutting every match out of a printed member tail leaves its cut text. */
  lemma {:induction false} RemainingOfTail(
    dec: Decoder, b: Bytes, prev: nat, j: nat, ms: seq<Member>, key: Bytes)
    requires prev <= j && At(b, j, PrintMemberTail(ms)) && ValidMembers(ms)
    ensures j + |PrintMemberTail(ms)| <= |b|
    ensures Cuttable(b, prev, Matching(dec, j + 1, ms, key))
    ensures Remaining(b, prev, Matching(dec, j + 1, ms, key))
         == b[prev..j] + CutTail(dec, ms, key) + b[j + |PrintMemberTail(ms)|..]
    decreases |ms|
  {
    hide PrintMember, KeyReads, Cuttable, Remaining, Matching, Places, CutTail, PrintMemberTail, At, ValidMember;
    hide BackOverWs;
    AtSlice(b, j, PrintMemberTail(ms));
    if ms == [] {
      TailStep(dec, ms, key);
      NothingRemoved(dec, b, prev, j, key);
    } else {
      var next, z := j + 1 + |PrintMember(ms[0])|, b[j + |PrintMemberTail(ms)|..];
      TailLayout(b, j, ms);
      if KeyReads(dec, ms[0], key) {
        MatchIsCut(b, j, ms[0]);
        RemainingOfTail(dec, b, Places(j + 1, ms[0]).valueEnd, next, ms[1..], key);
        TailMatch(dec, b, prev, j, ms, key, z);
      } else {
        RemainingOfTail(dec, b, prev, next, ms[1..], key);
        TailMiss(dec, b, prev, j, ms, key, z);
      }
    }
  }

  lemma NothingRemoved(dec: Decoder, b: Bytes, prev: nat, j: nat, key: Bytes)
    requires prev <= j <= |b|
    ensures Cuttable(b, prev, Matching(dec, j + 1, [], key))
    ensures Remaining(b, prev, Matching(dec, j + 1, [], key)) == b[prev..j] + [] + b[j..]
  {
    assert b[prev..] == b[prev..j] + [] + b[j..];
  }

  lemma OneCut(b: Bytes, prev: nat, s: KeySpan, ss: seq<KeySpan>)
    requires prev <= |b| && s.keyStart <= |b| && s.keyStart <= s.valueEnd
    requires var c := BackOverWs(b, s.keyStart); prev < c && b[c - 1] == COMMA
    requires Cuttable(b, s.valueEnd, ss)
    ensures Cuttable(b, prev, [s] + ss)
    ensures Remaining(b, prev, [s] + ss) == b[prev..BackOverWs(b, s.keyStart) - 1] + Remaining(b, s.valueEnd, ss)
  {
    assert ([s] + ss)[1..] == ss;
  }

  lemma CutMember(
    b: Bytes, prev: nat, j: nat, after: Bytes, s: KeySpan, ss: seq<KeySpan>, y: Bytes, z: Bytes)
    requires prev <= j < s.keyStart <= s.valueEnd <= |b| && b[j] == COMMA && BackOverWs(b, s.keyStart) == j + 1
    requires Cuttable(b, s.valueEnd, ss) && Remaining(b, s.valueEnd, ss) == after + y + z
    ensures Cuttable(b, prev, [s] + ss)
    ensures Remaining(b, prev, [s] + ss) == b[prev..j] + (after + y) + z
  {
    hide Cuttable, Remaining, BackOverWs;
    OneCut(b, prev, s, ss);
    Regroup(b[prev..j], after, y, z);
  }

  /** A member after a comma at `j` is cut from that comma to its value's end. */
  lemma MatchIsCut(b: Bytes, j: nat, m: Member)
    requires At(b, j, [COMMA]) && At(b, j + 1, PrintMember(m)) && ValidMember(m)
    ensures var p := Places(j + 1, m);
            j < p.keyStart <= p.valueEnd <= |b| && BackOverWs(b, p.keyStart) == j + 1 && b[j] == COMMA
            && p.valueEnd + |m.after| == j + 1 + |PrintMember(m)| && At(b, p.valueEnd, m.after)
  {
    hide PrintMember, PrintString, Print, At, IsBlank, BackOverWs;
    MemberLayout(b, j + 1, m);
    AtByte(b, j, [COMMA], 0);
    var p := Places(j + 1, m);
    BlanksStand(b, j + 1, m.before);
    AtSlice(b, p.valueEnd, m.after);
    AtSlice(b, p.keyStart, PrintString(m.key));
    BackStops(b, j + 1, p.keyStart);
  }

  lemma BlanksStand(b: Bytes, i: nat, w: Bytes)
    requires At(b, i, w) && IsBlank(w)
    ensures i + |w| <= |b| && forall k :: i <= k < i + |w| ==> IsWs(b[k])
  {
    hide IsWs;
    forall k | i <= k < i + |w| ensures IsWs(b[k]) {
      AtByte(b, i, w, k - i);
    }
  }

  /** The first member is the one kept. */
  lemma MembersMatch(dec: Decoder, b: Bytes, i: nat, pad: Bytes, ms: seq<Member>, key: Bytes)
    requires ms != [] && At(b, i, PrintMembers(pad, ms)) && ValidMembers(ms) && KeyReads(dec, ms[0], key)
    ensures var later := Matching(dec, i, ms, key)[1..];
            i + |PrintMembers(pad, ms)| <= |b| && Cuttable(b, 0, later)
            && Remaining(b, 0, later)
            == b[0..i] + PrintMembers(pad, KeepFirst(dec, ms, key)) + b[i + |PrintMembers(pad, ms)|..]
  {
    hide PrintMember, KeyReads, Cuttable, Remaining, CutTail, PrintMemberTail, Matching, Places, At, ValidMember, Absorb;
    var m, t := ms[0], PrintMember(ms[0]);
    var rest := Matching(dec, i + |t| + 1, ms[1..], key);
    AtSlice(b, i, PrintMembers(pad, ms));
    AtConcat(b, i, t, PrintMemberTail(ms[1..]));
    MatchingCons(dec, i, ms, key);
    assert ([Places(i, m)] + rest)[1..] == rest;
    RemainingOfTail(dec, b, 0, i + |t|, ms[1..], key);
    AbsorbPrints(dec, pad, m, ms[1..], key);
    SliceThen(b, 0, i, t, CutTail(dec, ms[1..], key), b[i + |PrintMembers(pad, ms)|..]);
  }

  /** The first member stays and the one kept comes later. */
  lemma MembersMiss(dec: Decoder, b: Bytes, i: nat, pad: Bytes, m: Member, kept: seq<Member>, z: Bytes)
    requires kept != [] && At(b, i, PrintMember(m)) && At(b, i + |PrintMember(m)|, [COMMA])
    ensures i + |PrintMember(m)| + 1 <= |b|
    ensures b[0..i + |PrintMember(m)| + 1] + PrintMembers(pad, kept) + z == b[0..i] + PrintMembers(pad, [m] + kept) + z
  {
    hide PrintMember, PrintMembers, At;
    var t, y := PrintMember(m), PrintMembers(pad, kept);
    PrintMembersCons(pad, m, kept);
    AtSlice(b, i + |t|, [COMMA]);
    SliceThen(b, 0, i + |t|, [COMMA], y, z);
    SliceThen(b, 0, i, t, [COMMA] + y, z);
  }

  /** Cutting every match but the first leaves the text of KeepFirst. */
  lemma {:induction false} RemainingOfMembers(
    dec: Decoder, b: Bytes, i: nat, pad: Bytes, ms: seq<Member>, key: Bytes)
    requires At(b, i, PrintMembers(pad, ms)) && ValidMembers(ms) && Matching(dec, i, ms, key) != []
    ensures var later := Matching(dec, i, ms, key)[1..];
            i + |PrintMembers(pad, ms)| <= |b| && Cuttable(b, 0, later)
            && Remaining(b, 0, later)
            == b[0..i] + PrintMembers(pad, KeepFirst(dec, ms, key)) + b[i + |PrintMembers(pad, ms)|..]
    decreases |ms|
  {
    hide PrintMember, PrintMembers, KeyReads, Cuttable, Remaining, PrintMemberTail, Matching, Places, At, ValidMember;
    MatchingNeedsMembers(dec, i, ms, key);
    if KeyReads(dec, ms[0], key) {
      MembersMatch(dec, b, i, pad, ms, key);
    } else {
      var j := i + |PrintMember(ms[0])|;
      MatchingCons(dec, i, ms, key);
      MatchingNeedsMembers(dec, j + 1, ms[1..], key);
      MembersLayout(b, i, pad, ms);
      RemainingOfMembers(dec, b, j + 1, pad, ms[1..], key);
      MembersMiss(dec, b, i, pad, ms[0], KeepFirst(dec, ms[1..], key), b[i + |PrintMembers(pad, ms)|..]);
    }
  }

  lemma MembersLayout(b: Bytes, i: nat, pad: Bytes, ms: seq<Member>)
    requires |ms| > 1 && At(b, i, PrintMembers(pad, ms))
    ensures var j := i + |PrintMember(ms[0])|;
            At(b, i, PrintMember(ms[0])) && At(b, j, [COMMA]) && At(b, j + 1, PrintMembers(pad, ms[1..]))
            && j + 1 + |PrintMembers(pad, ms[1..])| == i + |PrintMembers(pad, ms)| <= |b|
  {
    hide PrintMember, PrintMembers, At;
    assert ms == [ms[0]] + ms[1..];
    PrintMembersCons(pad, ms[0], ms[1..]);
    AtSlice(b, i, PrintMembers(pad, ms));
    AtConcat(b, i, PrintMember(ms[0]), [COMMA] + PrintMembers(pad, ms[1..]));
    AtConcat(b, i + |PrintMember(ms[0])|, [COMMA], PrintMembers(pad, ms[1..]));
  }

  lemma MatchingNeedsMembers(dec: Decoder, i: nat, ms: seq<Member>, key: Bytes)
    requires Matching(dec, i, ms, key) != []
    ensures ms != []
  {}

  /** Rebuilding any document in which `key` occurs, whatever follows it, gives the
      text of the same object with only the first such member: what stood before
      and after the object stays byte for byte. */
  lemma RebuildKeepsFirst(dec: Decoder, b: Bytes, lead: Bytes, pad: Bytes, ms: seq<Member>, key: Bytes)
    requires IsDocument(b, lead, pad, ms) && TopLevelSpans(dec, b, key) != []
    ensures var later := TopLevelSpans(dec, b, key)[1..];
            var end := |lead| + |Print(Object(pad, ms))|;
            Cuttable(b, 0, later) && end <= |b|
            && Remaining(b, 0, later) == lead + Print(Object(pad, KeepFirst(dec, ms, key))) + b[end..]
  {
    hide KeepFirst, Cuttable, Remaining, TopLevelSpans, PrintMembers, At, ValidMembers, Matching, IsDocument;
    var i, body := |lead| + 1, PrintMembers(pad, ms);
    SpansOfDocument(dec, b, lead, pad, ms, key);
    DocumentParts(b, lead, pad, ms);
    DocumentMembers(b, lead, pad, ms);
    RemainingOfMembers(dec, b, i, pad, ms, key);
    Framed(b, lead, body, PrintMembers(pad, KeepFirst(dec, ms, key)));
  }

  /** The same text around another body. */
  lemma Framed(b: Bytes, lead: Bytes, body: Bytes, kept: Bytes)
    requires At(b, 0, lead) && At(b, |lead|, [OPEN_BRACE]) && At(b, |lead| + 1 + |body|, [CLOSE_BRACE])
    ensures var end := |lead| + 1 + |body|;
            end < |b| && b[0..|lead| + 1] + kept + b[end..] == lead + ([OPEN_BRACE] + kept + [CLOSE_BRACE]) + b[end + 1..]
  {
    var end := |lead| + 1 + |body|;
    assert b[0..|lead| + 1] == lead + [OPEN_BRACE] by {
      assert b[0..|lead| + 1] == b[0..|lead|] + b[|lead|..|lead| + 1];
    }
    assert b[end..] == b[end..end + 1] + b[end + 1..];
  }

  // ---------- what is kept ----------

  /** `ms` without the members that repeat `key`. */
  function FirstOnly(dec: Decoder, ms: seq<Member>, key: Bytes, seen: bool): seq<Member> {
    if ms == [] then []
    else if KeyReads(dec, ms[0], key) then
      (if seen then [] else [ms[0]]) + FirstOnly(dec, ms[1..], key, true)
    else [ms[0]] + FirstOnly(dec, ms[1..], key, seen)
  }

  predicate SomeReads(dec: Decoder, ms: seq<Member>, key: Bytes) {
    exists k :: 0 <= k < |ms| && KeyReads(dec, ms[k], key)
  }

  lemma SomeReadsCons(dec: Decoder, ms: seq<Member>, key: Bytes)
    requires ms != []
    ensures SomeReads(dec, ms, key) <==> KeyReads(dec, ms[0], key) || SomeReads(dec, ms[1..], key)
  {
    hide KeyReads;
    assert forall k :: 1 <= k < |ms| ==> ms[k] == ms[1..][k - 1];
    assert forall k :: 0 <= k < |ms[1..]| ==> ms[1..][k] == ms[k + 1];
  }

  /** A member is left out exactly when its key reads `key` and an earlier one's does. */
  lemma {:induction false} FirstOnlySnoc(dec: Decoder, ms: seq<Member>, m: Member, key: Bytes, seen: bool)
    ensures FirstOnly(dec, ms + [m], key, seen)
         == FirstOnly(dec, ms, key, seen)
            + if KeyReads(dec, m, key) && (seen || SomeReads(dec, ms, key)) then [] else [m]
    decreases |ms|
  {
    hide KeyReads;
    if ms == [] {
      assert ([] + [m])[1..] == [] && [] + [m] == [m];
    } else {
      hide SomeReads;
      FirstOnlySnoc(dec, ms[1..], m, key, seen || KeyReads(dec, ms[0], key));
      assert (ms + [m])[1..] == ms[1..] + [m];
      SomeReadsCons(dec, ms, key);
    }
  }

  /** The same member but for more blanks after its value. */
  ghost predicate SameButAfter(m: Member, m': Member) {
    m' == m.(after := m'.after) && m.after <= m'.after && IsBlank(m'.after)
  }

  ghost predicate SameMembers(ms: seq<Member>, ms': seq<Member>) {
    |ms| == |ms'| && forall k :: 0 <= k < |ms| ==> SameButAfter(ms[k], ms'[k])
  }

  lemma SameMembersCons(m: Member, m': Member, ms: seq<Member>, ms': seq<Member>)
    requires SameButAfter(m, m') && (SameMembers(ms, ms') || ms == ms' == [])
    ensures SameMembers([m] + ms, [m'] + ms') && [m] + [] == [m] && [m'] + [] == [m']
  {}

  lemma MoreBlanksAfter(m: Member, m': Member, w: Bytes)
    requires SameButAfter(m, m') && IsBlank(w)
    ensures SameButAfter(m, m'.(after := m'.after + w))
  {}

  lemma SameAsItself(m: Member)
    requires IsBlank(m.after)
    ensures SameButAfter(m, m)
  {}

  lemma {:induction false} AbsorbKeeps(dec: Decoder, m: Member, m': Member, ms: seq<Member>, key: Bytes)
    requires SameButAfter(m, m') && ValidMembers(ms)
    ensures SameMembers([m] + FirstOnly(dec, ms, key, true), Absorb(dec, m', ms, key))
    decreases |ms|
  {
    hide KeyReads, SameButAfter, SameMembers, IsBlank;
    if ms == [] {
      SameMembersCons(m, m', [], []);
    } else if KeyReads(dec, ms[0], key) {
      MoreBlanksAfter(m, m', ms[0].after);
      AbsorbKeeps(dec, m, m'.(after := m'.after + ms[0].after), ms[1..], key);
      assert [] + FirstOnly(dec, ms[1..], key, true) == FirstOnly(dec, ms[1..], key, true);
    } else {
      SameAsItself(ms[0]);
      AbsorbKeeps(dec, ms[0], ms[0], ms[1..], key);
      SameMembersCons(m, m', [ms[0]] + FirstOnly(dec, ms[1..], key, true), Absorb(dec, ms[0], ms[1..], key));
    }
  }

  /** Keeping the first drops exactly the later members of that key, in order, and
      changes nothing else but blanks after a kept value. */
  lemma {:induction false} KeepFirstKeeps(dec: Decoder, ms: seq<Member>, key: Bytes)
    requires ValidMembers(ms)
    ensures SameMembers(FirstOnly(dec, ms, key, false), KeepFirst(dec, ms, key))
    decreases |ms|
  {
    hide KeyReads;
    if ms != [] {
      assert ValidMember(ms[0]);
      if KeyReads(dec, ms[0], key) {
        AbsorbKeeps(dec, ms[0], ms[0], ms[1..], key);
      } else {
        KeepFirstKeeps(dec, ms[1..], key);
      }
    }
  }

  lemma {:induction false} SameMembersStayValid(ms: seq<Member>, ms': seq<Member>)
    requires SameMembers(ms, ms') && ValidMembers(ms)
    ensures ValidMembers(ms')
    decreases |ms|
  {
    if ms != [] {
      assert SameButAfter(ms[0], ms'[0]);
      SameMembersStayValid(ms[1..], ms'[1..]);
    }
  }

  lemma {:induction false} FirstOnlyStaysValid(dec: Decoder, ms: seq<Member>, key: Bytes, seen: bool)
    requires ValidMembers(ms)
    ensures ValidMembers(FirstOnly(dec, ms, key, seen))
    decreases |ms|
  {
    hide KeyReads, ValidMember;
    if ms != [] {
      var hit := KeyReads(dec, ms[0], key);
      FirstOnlyStaysValid(dec, ms[1..], key, seen || hit);
      var rest := FirstOnly(dec, ms[1..], key, seen || hit);
      assert ([ms[0]] + rest)[1..] == rest && [] + rest == rest;
    }
  }

  lemma {:induction false} FirstOnlyMatches(dec: Decoder, i: nat, ms: seq<Member>, ms': seq<Member>, key: Bytes, seen: bool)
    requires SameMembers(FirstOnly(dec, ms, key, seen), ms')
    ensures |Matching(dec, i, ms', key)|
         == if seen || (forall k :: 0 <= k < |ms| ==> !KeyReads(dec, ms[k], key)) then 0 else 1
    decreases |ms|
  {
    hide PrintMember, Places, MemberKey, Matching;
    if ms == [] {
      NoMatching(dec, i, key);
    } else {
      var hit := KeyReads(dec, ms[0], key);
      var rest := FirstOnly(dec, ms[1..], key, seen || hit);
      assert forall k :: 1 <= k < |ms| ==> ms[k] == ms[1..][k - 1];
      if hit && seen {
        assert [] + rest == rest;
        FirstOnlyMatches(dec, i, ms[1..], ms', key, true);
      } else {
        assert ([ms[0]] + rest)[1..] == rest;
        assert SameButAfter(ms[0], ms'[0]);
        assert MemberKey(dec, ms[0]) == MemberKey(dec, ms'[0]) by {
          SameKey(dec, ms[0], ms'[0]);
        }
        MatchingCons(dec, i, ms', key);
        FirstOnlyMatches(dec, i + |PrintMember(ms'[0])| + 1, ms[1..], ms'[1..], key, seen || hit);
      }
    }
  }

  lemma NoMatching(dec: Decoder, i: nat, key: Bytes)
    ensures Matching(dec, i, [], key) == []
  {}

  lemma SameKey(dec: Decoder, m: Member, m': Member)
    requires m.key == m'.key
    ensures MemberKey(dec, m) == MemberKey(dec, m')
  {}

  /** After the rebuild the text is again a document and a rescan finds the key
      exactly once. */
  lemma RescanFindsOne(dec: Decoder, b: Bytes, lead: Bytes, pad: Bytes, ms: seq<Member>, key: Bytes)
    requires IsDocument(b, lead, pad, ms) && TopLevelSpans(dec, b, key) != []
    requires Cuttable(b, 0, TopLevelSpans(dec, b, key)[1..])
    ensures var b' := Remaining(b, 0, TopLevelSpans(dec, b, key)[1..]);
            IsDocument(b', lead, pad, KeepFirst(dec, ms, key)) && |TopLevelSpans(dec, b', key)| == 1
  {
    hide KeepFirst, Cuttable, Remaining, TopLevelSpans, Print, FirstOnly, SameMembers, ValidMembers;
    var later := TopLevelSpans(dec, b, key)[1..];
    var kept := KeepFirst(dec, ms, key);
    var b' := Remaining(b, 0, later);
    RebuildKeepsFirst(dec, b, lead, pad, ms, key);
    KeepFirstKeeps(dec, ms, key);
    FirstOnlyStaysValid(dec, ms, key, false);
    SameMembersStayValid(FirstOnly(dec, ms, key, false), kept);
    var t := Print(Object(pad, kept));
    assert b'[0..|lead|] == lead && b'[|lead|..|lead| + |t|] == t;
    SpansOfDocument(dec, b, lead, pad, ms, key);
    MatchingIsEmpty(dec, |lead| + 1, ms, key);
    SpansOfDocument(dec, b', lead, pad, kept, key);
    FirstOnlyMatches(dec, |lead| + 1, ms, kept, key, false);
  }

  lemma {:induction false} SameMembersStayExact(ms: seq<Member>, ms': seq<Member>)
    requires SameMembers(ms, ms') && ExactMembers(ms)
    ensures ExactMembers(ms')
    decreases |ms|
  {
    if ms != [] {
      assert SameButAfter(ms[0], ms'[0]);
      SameMembersStayExact(ms[1..], ms'[1..]);
    }
  }

  lemma {:induction false} FirstOnlyStaysExact(dec: Decoder, ms: seq<Member>, key: Bytes, seen: bool)
    requires ExactMembers(ms)
    ensures ExactMembers(FirstOnly(dec, ms, key, seen))
    decreases |ms|
  {
    hide KeyReads, Exact;
    if ms != [] {
      var hit := KeyReads(dec, ms[0], key);
      FirstOnlyStaysExact(dec, ms[1..], key, seen || hit);
      var rest := FirstOnly(dec, ms[1..], key, seen || hit);
      assert ([ms[0]] + rest)[1..] == rest && [] + rest == rest;
    }
  }

  /** An object of RFC 8259 is rebuilt into one, and into one that has the key once. */
  lemma RebuiltIsObject(dec: Decoder, b: Bytes, lead: Bytes, pad: Bytes, ms: seq<Member>, key: Bytes)
    requires IsObject(b, lead, pad, ms) && TopLevelSpans(dec, b, key) != []
    ensures Cuttable(b, 0, TopLevelSpans(dec, b, key)[1..])
    ensures var b' := Remaining(b, 0, TopLevelSpans(dec, b, key)[1..]);
            IsObject(b', lead, pad, KeepFirst(dec, ms, key)) && |TopLevelSpans(dec, b', key)| == 1
  {
    hide IsDocument, ExactMembers, KeepFirst, FirstOnly, SameMembers, TopLevelSpans, Cuttable, Remaining;
    LaterSpansAreCuttable(dec, b, key);
    RescanFindsOne(dec, b, lead, pad, ms, key);
    DocumentMembers(b, lead, pad, ms);
    KeepFirstKeeps(dec, ms, key);
    FirstOnlyStaysExact(dec, ms, key, false);
    SameMembersStayExact(FirstOnly(dec, ms, key, false), KeepFirst(dec, ms, key));
  }

  lemma DocumentMembers(b: Bytes, lead: Bytes, pad: Bytes, ms: seq<Member>)
    requires IsDocument(b, lead, pad, ms)
    ensures ValidMembers(ms)
  {}
}
