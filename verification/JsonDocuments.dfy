/** The walkers on a text that starts with a JSON object, whatever follows it. */
module JsonDocuments {
  import opened Options
  import opened JsonBytes
  import opened JsonGrammar
  import opened JsonScanSpec
  import opened JsonScanGrammar

  /** The text opens with blanks and then the object of these members. */
  ghost predicate IsDocument(b: Bytes, lead: Bytes, pad: Bytes, ms: seq<Member>) {
    IsBlank(lead) && IsBlank(pad) && ValidMembers(ms)
    && At(b, 0, lead) && At(b, |lead|, Print(Object(pad, ms)))
  }

  /** The entries of members printed from `i` on, one separator between each two. */
  function EntriesAt(i: nat, ms: seq<Member>): (es: seq<Entry>)
    ensures |es| == |ms|
    decreases |ms|
  {
    if ms == [] then []
    else [Entry(PrintString(ms[0].key), Places(i, ms[0]))] + EntriesAt(i + |PrintMember(ms[0])| + 1, ms[1..])
  }

  // ---------- the walk ----------

  lemma {:induction false} SkipWsRuns(b: Bytes, i: nat, w: Bytes)
    requires At(b, i, w) && IsBlank(w)
    ensures SkipWs(b, i) == SkipWs(b, i + |w|)
    decreases |w|
  {
    if w != [] {
      assert w == [w[0]] + w[1..];
      AtConcat(b, i, [w[0]], w[1..]);
      AtByte(b, i, w, 0);
      SkipWsRuns(b, i + 1, w[1..]);
    }
  }

  lemma {:induction false} SkipWsIsBlank(b: Bytes, i: nat)
    ensures forall k :: i <= k < SkipWs(b, i) ==> IsWs(b[k])
    decreases |b| - i
  {
    if i < |b| && IsWs(b[i]) {
      SkipWsIsBlank(b, i + 1);
    }
  }

  lemma SkipWsStops(b: Bytes, i: nat)
    requires i < |b| && !IsWs(b[i])
    ensures SkipWs(b, i) == i
  {}

  /** A printed member scans as one entry, and only blanks lie beyond its value. */
  lemma ScanEntryInvertsPrint(b: Bytes, i: nat, m: Member)
    requires At(b, i, PrintMember(m)) && ValidMember(m)
    requires var end := i + |PrintMember(m)|; end < |b| && IsDelimiter(b[end]) && !IsWs(b[end])
    ensures ScanEntry(b, SkipWs(b, i)) == Some(Entry(PrintString(m.key), Places(i, m)))
    ensures SkipWs(b, Places(i, m).valueEnd) == i + |PrintMember(m)|
  {
    hide PrintString, PrintMember, Print, SkipWs, ScanValue, ScanString, At, IsBlank;
    MemberLayout(b, i, m);
    var p := Places(i, m);
    var c := p.keyEnd + |m.afterKey|;
    SkipWsRuns(b, i, m.before);
    ScanStringInvertsPrint(b, p.keyStart, m.key);
    SkipWsStops(b, p.keyStart);
    SkipWsRuns(b, p.keyEnd, m.afterKey);
    AtByte(b, c, [COLON], 0);
    SkipWsStops(b, c);
    SkipWsRuns(b, c + 1, m.beforeValue);
    ValueStarts(b, p.valueStart, m.value);
    SkipWsStops(b, p.valueStart);
    ValueIsDelimited(b, p.valueEnd, m.after);
    ScanValueInvertsPrint(b, p.valueStart, m.value);
    SkipWsRuns(b, p.valueEnd, m.after);
    SkipWsStops(b, p.valueEnd + |m.after|);
    AtSlice(b, p.keyStart, PrintString(m.key));
  }

  lemma ValueStarts(b: Bytes, i: nat, v: Value)
    requires At(b, i, Print(v)) && Valid(v)
    ensures i < |b| && !IsWs(b[i])
  {
    AtByte(b, i, Print(v), 0);
    if v.Literal? {
      assert IsLiteralByte(v.text[0]);
    }
  }

  lemma ValueIsDelimited(b: Bytes, i: nat, w: Bytes)
    requires At(b, i, w) && IsBlank(w) && i + |w| < |b| && IsDelimiter(b[i + |w|])
    ensures EndsValue(b, i)
  {
    if w != [] {
      AtByte(b, i, w, 0);
    }
  }

  lemma {:induction false} WalkInvertsPrint(b: Bytes, i: nat, ms: seq<Member>)
    requires ms != [] && ValidMembers(ms)
    requires At(b, i, PrintMembers([], ms)) && At(b, i + |PrintMembers([], ms)|, [CLOSE_BRACE])
    ensures Walk(b, SkipWs(b, i)) == Trail(EntriesAt(i, ms), Closed(i + |PrintMembers([], ms)|))
    decreases |ms|
  {
    hide PrintMember, ScanEntry, SkipWs, PrintString, At, ValidMember, Places;
    var t := PrintMember(ms[0]);
    var j := i + |t|;
    AtConcat(b, i, t, PrintMemberTail(ms[1..]));
    if |ms| == 1 {
      AtByte(b, j, [CLOSE_BRACE], 0);
      ScanEntryInvertsPrint(b, i, ms[0]);
      assert EntriesAt(j + 1, ms[1..]) == [];
    } else {
      MemberTailIsMembers([], ms[1..]);
      AtConcat(b, j, [COMMA], PrintMembers([], ms[1..]));
      AtByte(b, j, [COMMA], 0);
      ScanEntryInvertsPrint(b, i, ms[0]);
      WalkInvertsPrint(b, j + 1, ms[1..]);
    }
  }

  lemma MemberTailIsMembers(pad: Bytes, ms: seq<Member>)
    requires ms != []
    ensures PrintMemberTail(ms) == [COMMA] + PrintMembers(pad, ms)
  {
    assert [COMMA] + (PrintMember(ms[0]) + PrintMemberTail(ms[1..]))
        == [COMMA] + PrintMember(ms[0]) + PrintMemberTail(ms[1..]);
  }

  lemma PrintMembersCons(pad: Bytes, m: Member, ms: seq<Member>)
    ensures PrintMembers(pad, [m] + ms)
         == PrintMember(m) + if ms == [] then [] else [COMMA] + PrintMembers(pad, ms)
  {
    hide PrintMember;
    assert ([m] + ms)[1..] == ms;
    if ms != [] {
      MemberTailIsMembers(pad, ms);
    }
  }

  lemma DocumentParts(b: Bytes, lead: Bytes, pad: Bytes, ms: seq<Member>)
    requires IsDocument(b, lead, pad, ms)
    ensures var i, body := |lead|, PrintMembers(pad, ms);
            At(b, 0, lead) && IsBlank(lead) && At(b, i, [OPEN_BRACE]) && At(b, i + 1, body)
            && At(b, i + 1 + |body|, [CLOSE_BRACE])
  {
    hide PrintMembers, At, IsBlank, ValidMembers;
    var i, body := |lead|, PrintMembers(pad, ms);
    AtConcat(b, i, [OPEN_BRACE] + body, [CLOSE_BRACE]);
    AtConcat(b, i, [OPEN_BRACE], body);
  }

  lemma DocumentOpens(b: Bytes, lead: Bytes, pad: Bytes, ms: seq<Member>)
    requires IsDocument(b, lead, pad, ms)
    ensures var i, body := |lead|, PrintMembers(pad, ms);
            SkipWs(b, 0) == i < |b| && b[i] == OPEN_BRACE
            && At(b, i + 1, body) && At(b, i + 1 + |body|, [CLOSE_BRACE])
            && i + 1 + |body| < |b| && b[i + 1 + |body|] == CLOSE_BRACE
  {
    hide SkipWs, PrintMembers, IsDocument, At, IsBlank;
    var i, body := |lead|, PrintMembers(pad, ms);
    DocumentParts(b, lead, pad, ms);
    AtByte(b, i, [OPEN_BRACE], 0);
    AtByte(b, i + 1 + |body|, [CLOSE_BRACE], 0);
    SkipWsRuns(b, 0, lead);
    SkipWsStops(b, i);
  }

  /** On a document the walk lists exactly the members, in order, and closes at
      the object's own brace. */
  lemma WalkRootInvertsPrint(b: Bytes, lead: Bytes, pad: Bytes, ms: seq<Member>)
    requires IsDocument(b, lead, pad, ms)
    ensures WalkRoot(b)
         == Trail(EntriesAt(|lead| + 1, ms), Closed(|lead| + 1 + |PrintMembers(pad, ms)|))
  {
    hide SkipWs, Walk, PrintMembers, EntriesAt, Print, At, IsBlank, ValidMembers;
    var i := |lead|;
    DocumentOpens(b, lead, pad, ms);
    if ms == [] {
      NoMembers(i + 1, pad);
      SkipWsRuns(b, i + 1, pad);
      SkipWsStops(b, i + 1 + |pad|);
      ClosesAtOnce(b, i, i + 1 + |pad|);
    } else {
      PadIsUnused(pad, ms);
      WalkInvertsPrint(b, i + 1, ms);
      MembersStart(b, i + 1, pad, ms);
    }
  }

  lemma ClosesAtOnce(b: Bytes, i: nat, j: nat)
    requires SkipWs(b, 0) == i < |b| && b[i] == OPEN_BRACE
    requires SkipWs(b, i + 1) == j < |b| && b[j] == CLOSE_BRACE
    ensures WalkRoot(b) == Trail([], Closed(j))
  {}

  lemma NoMembers(i: nat, pad: Bytes)
    ensures PrintMembers(pad, []) == pad && EntriesAt(i, []) == []
  {}

  lemma PadIsUnused(pad: Bytes, ms: seq<Member>)
    requires ms != []
    ensures PrintMembers(pad, ms) == PrintMembers([], ms)
  {}

  lemma MembersStart(b: Bytes, i: nat, pad: Bytes, ms: seq<Member>)
    requires ms != [] && ValidMembers(ms) && At(b, i, PrintMembers(pad, ms))
    ensures var j := SkipWs(b, i); j < |b| && b[j] == QUOTE
  {
    hide SkipWs, PrintMember, PrintString;
    AtConcat(b, i, PrintMember(ms[0]), PrintMemberTail(ms[1..]));
    MemberLayout(b, i, ms[0]);
    SkipWsRuns(b, i, ms[0].before);
    ScanStringInvertsPrint(b, i + |ms[0].before|, ms[0].key);
    SkipWsStops(b, i + |ms[0].before|);
  }

  /** Every entry's slices are its member's own key and value texts. */
  lemma {:induction false} EntriesSliceMembers(b: Bytes, i: nat, ms: seq<Member>, k: nat)
    requires k < |ms| && At(b, i, PrintMembers([], ms))
    ensures var e := EntriesAt(i, ms)[k];
            e.token == PrintString(ms[k].key)
            && At(b, e.span.keyStart, PrintString(ms[k].key)) && At(b, e.span.valueStart, Print(ms[k].value))
            && e.span.keyEnd == e.span.keyStart + |PrintString(ms[k].key)|
            && e.span.valueEnd == e.span.valueStart + |Print(ms[k].value)|
    decreases |ms|
  {
    hide PrintMember, PrintString, Print;
    var t := PrintMember(ms[0]);
    AtConcat(b, i, t, PrintMemberTail(ms[1..]));
    if k == 0 {
      MemberLayout(b, i, ms[0]);
    } else {
      MemberTailIsMembers([], ms[1..]);
      AtConcat(b, i + |t|, [COMMA], PrintMembers([], ms[1..]));
      EntriesSliceMembers(b, i + |t| + 1, ms[1..], k - 1);
    }
  }

  // ---------- the walkers ----------

  function MemberKey(dec: Decoder, m: Member): Option<Bytes> {
    DecodeToken(dec, PrintString(m.key))
  }

  predicate KeyReads(dec: Decoder, m: Member, key: Bytes) {
    MemberKey(dec, m) == Some(key)
  }

  /** The members whose key reads `key`, with their places in the text. */
  function Matching(dec: Decoder, i: nat, ms: seq<Member>, key: Bytes): seq<KeySpan>
    decreases |ms|
  {
    if ms == [] then []
    else
      (if KeyReads(dec, ms[0], key) then [Places(i, ms[0])] else [])
      + Matching(dec, i + |PrintMember(ms[0])| + 1, ms[1..], key)
  }

  function DocumentKeys(dec: Decoder, ms: seq<Member>): (r: Option<seq<Bytes>>)
    ensures r.Some? ==> |r.value| == |ms| && forall k :: 0 <= k < |ms| ==> KeyReads(dec, ms[k], r.value[k])
  {
    if ms == [] then Some([])
    else
      match (MemberKey(dec, ms[0]), DocumentKeys(dec, ms[1..]))
      case (Some(k), Some(ks)) => Some([k] + ks)
      case _ => None
  }

  lemma {:induction false} HitsAreMatching(dec: Decoder, i: nat, ms: seq<Member>, key: Bytes)
    ensures Hits(dec, EntriesAt(i, ms), key) == Matching(dec, i, ms, key)
    decreases |ms|
  {
    hide PrintMember, PrintString, DecodeToken;
    if ms != [] {
      HitsCons(dec, EntriesAt(i, ms)[0], EntriesAt(i + |PrintMember(ms[0])| + 1, ms[1..]), key);
      HitsAreMatching(dec, i + |PrintMember(ms[0])| + 1, ms[1..], key);
    }
  }

  lemma {:induction false} DecodedAreKeys(dec: Decoder, i: nat, ms: seq<Member>)
    ensures var ks := DecodedPrefix(dec, EntriesAt(i, ms));
            DocumentKeys(dec, ms) == if |ks| == |ms| then Some(ks) else None
    decreases |ms|
  {
    hide PrintMember, PrintString, DecodeToken;
    if ms != [] {
      DecodedCons(dec, EntriesAt(i, ms)[0], EntriesAt(i + |PrintMember(ms[0])| + 1, ms[1..]));
      DecodedAreKeys(dec, i + |PrintMember(ms[0])| + 1, ms[1..]);
    }
  }

  /** The span walker lists exactly the members whose decoded key is `key`. */
  lemma SpansOfDocument(dec: Decoder, b: Bytes, lead: Bytes, pad: Bytes, ms: seq<Member>, key: Bytes)
    requires IsDocument(b, lead, pad, ms)
    ensures TopLevelSpans(dec, b, key) == Matching(dec, |lead| + 1, ms, key)
  {
    WalkRootInvertsPrint(b, lead, pad, ms);
    HitsAreMatching(dec, |lead| + 1, ms, key);
  }

  /** The key walker lists every key with its duplicates, exactly when all decode. */
  lemma KeysOfDocument(dec: Decoder, b: Bytes, lead: Bytes, pad: Bytes, ms: seq<Member>)
    requires IsDocument(b, lead, pad, ms)
    ensures KeysOf(dec, WalkRoot(b)) == DocumentKeys(dec, ms)
  {
    WalkRootInvertsPrint(b, lead, pad, ms);
    DecodedAreKeys(dec, |lead| + 1, ms);
  }

  lemma {:induction false} MatchingIsEmpty(dec: Decoder, i: nat, ms: seq<Member>, key: Bytes)
    ensures Matching(dec, i, ms, key) == [] <==> forall k :: 0 <= k < |ms| ==> !KeyReads(dec, ms[k], key)
    decreases |ms|
  {
    hide PrintMember, PrintString, DecodeToken;
    if ms != [] {
      MatchingIsEmpty(dec, i + |PrintMember(ms[0])| + 1, ms[1..], key);
      assert forall k :: 1 <= k < |ms| ==> ms[k] == ms[1..][k - 1];
      assert (forall k :: 0 <= k < |ms| ==> !KeyReads(dec, ms[k], key))
          <==> !KeyReads(dec, ms[0], key) && forall k :: 0 <= k < |ms[1..]| ==> !KeyReads(dec, ms[1..][k], key);
    }
  }
}
