/** Which texts start with a JSON object, told from what the scanner finds in them,
    and what that means for the three ways to look at an object's keys
    (llama-proxy/src/fixes/json_scan.rs:1-13, 67-111). */
module JsonObjects {
  import opened Options
  import opened JsonBytes
  import opened JsonGrammar
  import opened JsonScanSpec
  import opened JsonScanGrammar
  import opened JsonDocuments
  import opened JsonWalkers

  // ---------- objects of RFC 8259 ----------

  /** The text opens with blanks and then this object, its literals included. */
  ghost predicate IsObject(b: Bytes, lead: Bytes, pad: Bytes, ms: seq<Member>) {
    IsDocument(b, lead, pad, ms) && ExactMembers(ms)
  }

  ghost predicate StartsWithObject(b: Bytes) {
    exists lead, pad, ms :: IsObject(b, lead, pad, ms)
  }

  /** The text is that object and nothing but blanks around it. */
  ghost predicate IsObjectText(b: Bytes) {
    exists lead, pad, ms :: IsObject(b, lead, pad, ms)
      && |lead| + |Print(Object(pad, ms))| <= |b| && IsBlank(b[|lead| + |Print(Object(pad, ms))|..])
  }

  // ---------- what can be checked on slices ----------

  ghost predicate IsStringText(t: Bytes) {
    exists cs :: ValidChars(cs) && PrintString(cs) == t
  }

  ghost predicate IsValueText(t: Bytes) {
    exists v :: Valid(v) && Exact(v) && Print(v) == t
  }

  /** Both slices of the entry parse on their own. */
  ghost predicate IsClean(b: Bytes, s: KeySpan) {
    s.keyStart <= s.keyEnd <= |b| && IsStringText(b[s.keyStart..s.keyEnd])
    && s.valueStart <= s.valueEnd <= |b| && IsValueText(b[s.valueStart..s.valueEnd])
  }

  ghost predicate AllClean(b: Bytes, es: seq<Entry>) {
    forall k :: 0 <= k < |es| ==> IsClean(b, es[k].span)
  }

  // ---------- from the walk to the tree ----------

  lemma EntryLayout(b: Bytes, i: nat)
    requires ScanEntry(b, i).Some?
    ensures var e := ScanEntry(b, i).value;
            var c := SkipWs(b, e.span.keyEnd);
            e.span.keyStart == i < e.span.keyEnd <= c < e.span.valueStart <= e.span.valueEnd <= |b|
            && b[c] == COLON && e.span.valueStart == SkipWs(b, c + 1)
  {
    hide ScanValue, ScanString, SkipWs, ScanEntry;
    EntryParts(b, i);
    var a := ScanString(b, i).value;
    var v := SkipWs(b, SkipWs(b, a) + 1);
    assert ScanEntry(b, i).value.span == KeySpan(i, a, v, ScanValue(b, v).value);
  }

  lemma BlankRun(b: Bytes, i: nat)
    requires i <= |b|
    ensures var w := b[i..SkipWs(b, i)]; IsBlank(w) && At(b, i, w)
    ensures i <= SkipWs(b, i) <= |b|
  {
    SkipWsIsBlank(b, i);
  }

  lemma MemberStands(b: Bytes, i: nat, m: Member)
    requires var p := Places(i, m);
             At(b, i, m.before) && At(b, p.keyStart, PrintString(m.key)) && At(b, p.keyEnd, m.afterKey)
             && At(b, p.keyEnd + |m.afterKey|, [COLON]) && At(b, p.keyEnd + |m.afterKey| + 1, m.beforeValue)
             && At(b, p.valueStart, Print(m.value)) && At(b, p.valueEnd, m.after)
    ensures At(b, i, PrintMember(m)) && i + |PrintMember(m)| == Places(i, m).valueEnd + |m.after|
  {
    hide PrintString, Print, At;
    var k, v := PrintString(m.key), Print(m.value);
    var j := i + |m.before|;
    AtConcat(b, j, k, m.afterKey);
    AtConcat(b, j, k + m.afterKey, [COLON]);
    AtConcat(b, j, k + m.afterKey + [COLON], m.beforeValue);
    AtConcat(b, j, k + m.afterKey + [COLON] + m.beforeValue, v);
    AtConcat(b, i, m.before, PrintPair(m));
    AtConcat(b, i, m.before + PrintPair(m), m.after);
  }

  lemma SliceStands(b: Bytes, i: nat, j: nat)
    requires i <= j <= |b|
    ensures At(b, i, b[i..j])
  {}

  /** The member whose text runs from `lo` over the entry to the next separator. */
  lemma MemberOfEntry(b: Bytes, lo: nat) returns (m: Member)
    requires lo <= |b| && ScanEntry(b, SkipWs(b, lo)).Some?
    requires IsClean(b, ScanEntry(b, SkipWs(b, lo)).value.span)
    ensures ValidMember(m) && Exact(m.value) && At(b, lo, PrintMember(m))
    ensures lo + |PrintMember(m)| == SkipWs(b, ScanEntry(b, SkipWs(b, lo)).value.span.valueEnd)
  {
    hide SkipWs, ScanEntry, Print, PrintString, PrintMember, At, IsBlank, Valid, ValidChars, Exact;
    var i := SkipWs(b, lo);
    var s := ScanEntry(b, i).value.span;
    EntryLayout(b, i);
    var c := SkipWs(b, s.keyEnd);
    var cs :| ValidChars(cs) && PrintString(cs) == b[s.keyStart..s.keyEnd];
    var v :| Valid(v) && Exact(v) && Print(v) == b[s.valueStart..s.valueEnd];
    BlankRun(b, lo);
    BlankRun(b, s.keyEnd);
    BlankRun(b, c + 1);
    BlankRun(b, s.valueEnd);
    SliceStands(b, i, s.keyEnd);
    SliceStands(b, c, c + 1);
    SliceStands(b, s.valueStart, s.valueEnd);
    assert b[c..c + 1] == [COLON];
    m := Member(b[lo..i], cs, b[s.keyEnd..c], b[c + 1..s.valueStart], v, b[s.valueEnd..SkipWs(b, s.valueEnd)]);
    assert Places(lo, m) == s;
    MemberStands(b, lo, m);
  }

  /** A walk that closes goes on behind each entry or closes there. */
  lemma WalkParts(b: Bytes, i: nat)
    requires Walk(b, i).end.Closed?
    ensures ScanEntry(b, i).Some?
    ensures var e := ScanEntry(b, i).value;
            var k := SkipWs(b, e.span.valueEnd);
            k < |b| && Walk(b, i) == Cons(e, WalkOn(b, e.span.valueEnd))
            && ((b[k] == COMMA && WalkOn(b, e.span.valueEnd) == Walk(b, SkipWs(b, k + 1)))
                || (b[k] == CLOSE_BRACE && WalkOn(b, e.span.valueEnd) == Trail([], Closed(k))))
  {
    hide ScanEntry, SkipWs;
  }

  lemma CleanCons(b: Bytes, e: Entry, es: seq<Entry>)
    requires AllClean(b, [e] + es)
    ensures IsClean(b, e.span) && AllClean(b, es)
  {
    hide IsClean;
    assert ([e] + es)[0] == e;
    assert forall j :: 0 <= j < |es| ==> es[j] == ([e] + es)[j + 1];
  }

  lemma GoodCons(m: Member, ms: seq<Member>)
    requires ValidMember(m) && Exact(m.value) && ValidMembers(ms) && ExactMembers(ms)
    ensures ValidMembers([m] + ms) && ExactMembers([m] + ms)
  {
    hide ValidMember, Exact;
    assert ([m] + ms)[1..] == ms;
  }

  lemma MemberThenMembers(b: Bytes, lo: nat, k: nat, m: Member, rest: seq<Member>)
    requires At(b, lo, PrintMember(m)) && lo + |PrintMember(m)| == k < |b| && b[k] == COMMA
    requires rest != [] && At(b, k + 1, PrintMembers([], rest))
    ensures At(b, lo, PrintMembers([], [m] + rest))
    ensures lo + |PrintMembers([], [m] + rest)| == k + 1 + |PrintMembers([], rest)|
  {
    hide PrintMember, PrintMembers, At;
    PrintMembersCons([], m, rest);
    SliceStands(b, k, k + 1);
    assert b[k..k + 1] == [COMMA];
    AtConcat(b, k, [COMMA], PrintMembers([], rest));
    AtConcat(b, lo, PrintMember(m), [COMMA] + PrintMembers([], rest));
  }

  lemma OneMember(m: Member)
    ensures PrintMembers([], [m]) == PrintMember(m) && [m] + [] == [m]
  {
    hide PrintMember;
    PrintMembersCons([], m, []);
    assert [m] + [] == [m] && PrintMember(m) + [] == PrintMember(m);
  }

  lemma {:induction false} MembersOfWalk(b: Bytes, lo: nat) returns (ms: seq<Member>)
    requires lo <= |b| && Walk(b, SkipWs(b, lo)).end.Closed? && AllClean(b, Walk(b, SkipWs(b, lo)).entries)
    ensures ms != [] && ValidMembers(ms) && ExactMembers(ms) && At(b, lo, PrintMembers([], ms))
    ensures var at := lo + |PrintMembers([], ms)|;
            Walk(b, SkipWs(b, lo)).end == Closed(at) && at < |b| && b[at] == CLOSE_BRACE
    decreases |b| - lo
  {
    hide SkipWs, ScanEntry, Walk, WalkOn, PrintMember, PrintMembers, At, IsClean, AllClean, Valid, Exact;
    hide ValidMember, ValidMembers, ExactMembers;
    var i := SkipWs(b, lo);
    WalkParts(b, i);
    var e := ScanEntry(b, i).value;
    var t := WalkOn(b, e.span.valueEnd);
    EntryLayout(b, i);
    CleanCons(b, e, t.entries);
    var m := MemberOfEntry(b, lo);
    var k := SkipWs(b, e.span.valueEnd);
    if b[k] == COMMA {
      var rest := MembersOfWalk(b, k + 1);
      ms := [m] + rest;
      GoodCons(m, rest);
      MemberThenMembers(b, lo, k, m, rest);
    } else {
      ms := [m];
      NothingIsValid();
      GoodCons(m, []);
      OneMember(m);
    }
  }

  lemma ObjectStands(b: Bytes, pad: Bytes, ms: seq<Member>)
    requires SkipWs(b, 0) < |b| && b[SkipWs(b, 0)] == OPEN_BRACE && At(b, SkipWs(b, 0) + 1, PrintMembers(pad, ms))
    requires var at := SkipWs(b, 0) + 1 + |PrintMembers(pad, ms)|; at < |b| && b[at] == CLOSE_BRACE
    requires IsBlank(pad) && ValidMembers(ms)
    ensures IsDocument(b, b[..SkipWs(b, 0)], pad, ms)
    ensures SkipWs(b, 0) + |Print(Object(pad, ms))| == SkipWs(b, 0) + |PrintMembers(pad, ms)| + 2
  {
    hide SkipWs, PrintMembers, At, ValidMembers, IsBlank;
    var i, body := SkipWs(b, 0), PrintMembers(pad, ms);
    var at := i + 1 + |body|;
    BlankRun(b, 0);
    assert b[0..i] == b[..i];
    SliceStands(b, i, i + 1);
    SliceStands(b, at, at + 1);
    assert b[i..i + 1] == [OPEN_BRACE] && b[at..at + 1] == [CLOSE_BRACE];
    AtConcat(b, i, [OPEN_BRACE], body);
    AtConcat(b, i, [OPEN_BRACE] + body, [CLOSE_BRACE]);
  }

  /** A walk that closes over clean entries has walked an object. */
  lemma ObjectOfWalk(b: Bytes) returns (lead: Bytes, pad: Bytes, ms: seq<Member>)
    requires WalkRoot(b).end.Closed? && AllClean(b, WalkRoot(b).entries)
    ensures IsObject(b, lead, pad, ms)
    ensures WalkRoot(b).end.at + 1 == |lead| + |Print(Object(pad, ms))|
  {
    hide SkipWs, Walk, PrintMembers, At, AllClean, ValidMembers, Print;
    var i := SkipWs(b, 0);
    var j := SkipWs(b, i + 1);
    lead := b[..i];
    BlankRun(b, i + 1);
    if b[j] == CLOSE_BRACE {
      pad, ms := b[i + 1..j], [];
      NoMembers(i + 1, pad);
      NothingIsValid();
    } else {
      pad := [];
      ms := MembersOfWalk(b, i + 1);
    }
    ObjectStands(b, pad, ms);
  }

  lemma NothingIsValid()
    ensures ValidMembers([]) && ExactMembers([])
  {}

  // ---------- from the tree to the walk ----------

  lemma {:induction false} MemberIsGood(ms: seq<Member>, k: nat)
    requires k < |ms| && ValidMembers(ms) && ExactMembers(ms)
    ensures ValidMember(ms[k]) && Exact(ms[k].value)
    decreases k
  {
    if k > 0 {
      MemberIsGood(ms[1..], k - 1);
    }
  }

  lemma ObjectIsClean(b: Bytes, lead: Bytes, pad: Bytes, ms: seq<Member>)
    requires IsObject(b, lead, pad, ms)
    ensures WalkRoot(b).end == Closed(|lead| + |Print(Object(pad, ms))| - 1)
    ensures |lead| + |Print(Object(pad, ms))| <= |b| && AllClean(b, WalkRoot(b).entries)
  {
    hide WalkRoot, SkipWs, EntriesAt, Places, PrintMembers, PrintString, At, ValidMembers, ExactMembers;
    var i := |lead| + 1;
    WalkRootInvertsPrint(b, lead, pad, ms);
    DocumentOpens(b, lead, pad, ms);
    forall k | 0 <= k < |ms| ensures IsClean(b, EntriesAt(i, ms)[k].span) {
      PadIsUnused(pad, ms);
      EntriesSliceMembers(b, i, ms, k);
      MemberIsGood(ms, k);
      var s := EntriesAt(i, ms)[k].span;
      AtSlice(b, s.keyStart, PrintString(ms[k].key));
      AtSlice(b, s.valueStart, Print(ms[k].value));
    }
  }

  /** A text starts with an object of RFC 8259, whatever follows it, exactly when the
      walk closes and every key slice and value slice it found parses on its own. */
  lemma StartsWithObjectIff(b: Bytes)
    ensures StartsWithObject(b) <==> WalkRoot(b).end.Closed? && AllClean(b, WalkRoot(b).entries)
  {
    hide IsObject, AllClean, WalkRoot;
    if StartsWithObject(b) {
      var lead, pad, ms :| IsObject(b, lead, pad, ms);
      ObjectIsClean(b, lead, pad, ms);
    }
    if WalkRoot(b).end.Closed? && AllClean(b, WalkRoot(b).entries) {
      var lead, pad, ms := ObjectOfWalk(b);
    }
  }

  /** A text is an object exactly when moreover only blanks follow where the walk
      closes. */
  lemma IsObjectTextIff(b: Bytes)
    ensures IsObjectText(b) <==>
            WalkRoot(b).end.Closed? && AllClean(b, WalkRoot(b).entries)
            && WalkRoot(b).end.at < |b| && IsBlank(b[WalkRoot(b).end.at + 1..])
  {
    hide IsObject, AllClean, WalkRoot, Print, IsBlank;
    if IsObjectText(b) {
      var lead, pad, ms :| IsObject(b, lead, pad, ms)
        && |lead| + |Print(Object(pad, ms))| <= |b| && IsBlank(b[|lead| + |Print(Object(pad, ms))|..]);
      ObjectIsClean(b, lead, pad, ms);
    }
    if WalkRoot(b).end.Closed? && AllClean(b, WalkRoot(b).entries) && WalkRoot(b).end.at < |b|
       && IsBlank(b[WalkRoot(b).end.at + 1..]) {
      var lead, pad, ms := ObjectOfWalk(b);
    }
  }

  // ---------- keys ----------

  /** Who gets a key list: the texts that start with an object whose keys all decode,
      and those others whose walk closes and whose keys decode though some slice
      does not parse. */
  lemma KeyListMeansObject(dec: Decoder, b: Bytes)
    ensures StartsWithObject(b) ==> (KeysOf(dec, WalkRoot(b)).Some? <==> AllDecode(dec, WalkRoot(b).entries))
    ensures KeysOf(dec, WalkRoot(b)).Some? ==> (StartsWithObject(b) <==> AllClean(b, WalkRoot(b).entries))
  {
    hide StartsWithObject, AllClean, WalkRoot, AllDecode;
    StartsWithObjectIff(b);
    DecodedAll(dec, WalkRoot(b).entries);
  }

  /** `top_level_key_count`: the stream decodes every key into a String, so a text that
      starts with no object, or with one of whose keys one does not decode, counts 0. */
  ghost function StreamCount(dec: Decoder, b: Bytes, key: Bytes): nat {
    if StartsWithObject(b) then KeyCount(DocumentKeys(dec, Members(b)), key) else 0
  }

  ghost function Members(b: Bytes): (ms: seq<Member>)
    requires StartsWithObject(b)
    ensures exists lead, pad :: IsObject(b, lead, pad, ms)
  {
    var lead, pad, ms :| IsObject(b, lead, pad, ms);
    ms
  }

  function KeyCount(keys: Option<seq<Bytes>>, key: Bytes): nat {
    match keys case None => 0 case Some(ks) => multiset(ks)[key]
  }

  /** Whichever way the text is read as an object, the count is that of its keys. */
  lemma StreamCountOfObject(dec: Decoder, b: Bytes, lead: Bytes, pad: Bytes, ms: seq<Member>, key: Bytes)
    requires IsObject(b, lead, pad, ms)
    ensures StreamCount(dec, b, key) == KeyCount(DocumentKeys(dec, ms), key)
  {
    hide DocumentKeys, IsDocument, ExactMembers, KeyCount, WalkRoot;
    var lead', pad' :| IsObject(b, lead', pad', Members(b));
    KeysOfDocument(dec, b, lead, pad, ms);
    KeysOfDocument(dec, b, lead', pad', Members(b));
  }

  predicate NoneReads(dec: Decoder, es: seq<Entry>, key: Bytes) {
    forall k :: 0 <= k < |es| ==> !IsHit(dec, es[k], key)
  }

  lemma {:induction false} HitsEmpty(dec: Decoder, es: seq<Entry>, key: Bytes)
    ensures Hits(dec, es, key) == [] <==> NoneReads(dec, es, key)
    decreases |es|
  {
    hide IsHit;
    if es != [] {
      HitsEmpty(dec, es[1..], key);
      assert forall k :: 1 <= k < |es| ==> es[k] == es[1..][k - 1];
      assert NoneReads(dec, es, key) <==> !IsHit(dec, es[0], key) && NoneReads(dec, es[1..], key);
    }
  }

  lemma CountOnObject(dec: Decoder, b: Bytes, key: Bytes)
    requires StartsWithObject(b)
    ensures StreamCount(dec, b, key) == KeyCount(KeysOf(dec, WalkRoot(b)), key)
  {
    hide StreamCount, KeyCount, KeysOf, WalkRoot, DocumentKeys;
    hide IsDocument;
    var lead, pad :| IsObject(b, lead, pad, Members(b));
    StreamCountOfObject(dec, b, lead, pad, Members(b), key);
    KeysOfDocument(dec, b, lead, pad, Members(b));
  }

  /** On every text: the stream count is the number of spans exactly when the walk
      does not close, or no key it found reads `key`, or every slice it found parses
      and every key decodes. */
  lemma CountAgreesWithSpans(dec: Decoder, b: Bytes, key: Bytes)
    ensures |TopLevelSpans(dec, b, key)| == StreamCount(dec, b, key)
       <==> WalkRoot(b).end.Broken?
            || NoneReads(dec, WalkRoot(b).entries, key)
            || (AllClean(b, WalkRoot(b).entries) && AllDecode(dec, WalkRoot(b).entries))
  {
    hide StartsWithObject, AllClean, WalkRoot, AllDecode, NoneReads, Hits, DecodedPrefix;
    var t := WalkRoot(b);
    StartsWithObjectIff(b);
    HitsEmpty(dec, t.entries, key);
    DecodedAll(dec, t.entries);
    if StartsWithObject(b) {
      CountOnObject(dec, b, key);
      if AllDecode(dec, t.entries) {
        HitsCountKeys(dec, t.entries, key);
      }
    }
  }

  // ---------- where the documentation is wrong ----------

  const F: Bytes := [0x66]

  /** `{"f":}`: a key with nothing for a value. */
  const EMPTY_VALUE: Bytes := [OPEN_BRACE, QUOTE, 0x66, QUOTE, COLON, CLOSE_BRACE]

  lemma EmptyValueScans()
    ensures WalkRoot(EMPTY_VALUE) == Trail([Entry(EMPTY_VALUE[1..4], KeySpan(1, 4, 5, 5))], Closed(5))
  {
    var b := EMPTY_VALUE;
    assert SkipWs(b, 0) == 0 && SkipWs(b, 1) == 1 && SkipWs(b, 4) == 4 && SkipWs(b, 5) == 5;
    assert StringEnd(b, 3) == Some(4);
    assert ScanString(b, 1) == Some(4);
    assert ScanValue(b, 5) == Some(5);
    assert ScanEntry(b, 1) == Some(Entry(b[1..4], KeySpan(1, 4, 5, 5)));
    assert WalkOn(b, 5) == Trail([], Closed(5));
    assert Walk(b, 1) == Trail([Entry(b[1..4], KeySpan(1, 4, 5, 5))] + [], Closed(5));
  }

  lemma ValueTextIsNonempty(t: Bytes)
    requires IsValueText(t)
    ensures t != []
  {
    var v :| Valid(v) && Exact(v) && Print(v) == t;
  }

  lemma OneKey(dec: Decoder, e: Entry)
    requires DecodeToken(dec, e.token) == Some(F)
    ensures Hits(dec, [e], F) == [e.span] && DecodedPrefix(dec, [e]) == [F]
  {
    hide DecodeToken;
    assert [e] + [] == [e] && [F] + [] == [F] && [e.span] + [] == [e.span];
    HitsCons(dec, e, [], F);
    DecodedCons(dec, e, []);
    NoHits(dec, F);
    NoKeys(dec);
  }

  /** A text that starts with no object, so that nothing is counted in it, and yet has
      a span and a key list: the scanner takes the empty literal for a value. */
  lemma MalformedTextHasASpan(dec: Decoder)
    ensures !StartsWithObject(EMPTY_VALUE) && StreamCount(dec, EMPTY_VALUE, F) == 0
    ensures |TopLevelSpans(dec, EMPTY_VALUE, F)| == 1
    ensures KeysOf(dec, WalkRoot(EMPTY_VALUE)) == Some([F])
  {
    hide WalkRoot, StartsWithObject, IsValueText, IsStringText;
    var b := EMPTY_VALUE;
    EmptyValueScans();
    var e := WalkRoot(b).entries[0];
    assert e.token == [QUOTE, 0x66, QUOTE] && e.token[1..2] == F;
    OneKey(dec, e);
    StartsWithObjectIff(b);
    if IsValueText(b[5..5]) {
      ValueTextIsNonempty(b[5..5]);
    }
    assert !IsClean(b, e.span);
  }

  lemma NumberHasADigit(t: Bytes)
    requires IsNumber(t)
    ensures exists k :: 0 <= k < |t| && IsDigit(t[k])
  {
    var m: nat, i: nat, f: nat :| m <= i <= f <= |t|
      && (m == 0 || (m == 1 && t[0] == 0x2D)) && IsInt(t[m..i]) && IsFrac(t[i..f]) && IsExp(t[f..]);
    assert t[m..i][0] == t[m];
  }

  lemma DashIsNoValue()
    ensures !IsValueText([0x2D])
  {
    if IsValueText([0x2D]) {
      var v :| Valid(v) && Exact(v) && Print(v) == [0x2D];
      assert Print(v)[0] == 0x2D;
      NumberHasADigit([0x2D]);
    }
  }

  /** `{"f":-}`: to the scanner a member with a literal. */
  function DashMember(): Member {
    Member([], [Raw(0x66)], [], [], Literal([0x2D]), [])
  }

  const DASH_VALUE: Bytes := [OPEN_BRACE, QUOTE, 0x66, QUOTE, COLON, 0x2D, CLOSE_BRACE]

  /** Another such text, with a value that is not empty. */
  lemma RejectedLiteralHasASpan(dec: Decoder)
    ensures !StartsWithObject(DASH_VALUE) && StreamCount(dec, DASH_VALUE, F) == 0
    ensures |TopLevelSpans(dec, DASH_VALUE, F)| == 1
    ensures KeysOf(dec, WalkRoot(DASH_VALUE)) == Some([F])
  {
    hide WalkRoot, StartsWithObject, IsValueText, IsStringText;
    var b, ms := DASH_VALUE, [DashMember()];
    DashPrints();
    WalkRootInvertsPrint(b, [], [], ms);
    var e := Entry([QUOTE, 0x66, QUOTE], KeySpan(1, 4, 5, 6));
    assert WalkRoot(b).entries == [e] by {
      DashEntries();
    }
    assert e.token[1..2] == F;
    OneKey(dec, e);
    StartsWithObjectIff(b);
    DashIsNoValue();
    assert b[5..6] == [0x2D];
    assert WalkRoot(b).entries[0] == e && !IsClean(b, e.span);
  }

  lemma DashPrints()
    ensures Print(Object([], [DashMember()])) == DASH_VALUE && IsDocument(DASH_VALUE, [], [], [DashMember()])
  {
    var m := DashMember();
    assert m.key[1..] == [];
    assert PrintChars(m.key) == [0x66];
    assert PrintString(m.key) == [QUOTE, 0x66, QUOTE];
    assert PrintMember(m) == [QUOTE, 0x66, QUOTE, COLON, 0x2D];
    assert [m][1..] == [];
    assert PrintMembers([], [m]) == PrintMember(m);
  }

  lemma DashEntries()
    ensures EntriesAt(1, [DashMember()]) == [Entry([QUOTE, 0x66, QUOTE], KeySpan(1, 4, 5, 6))]
  {
    var m := DashMember();
    assert m.key[1..] == [];
    assert PrintChars(m.key) == [0x66];
    assert PrintString(m.key) == [QUOTE, 0x66, QUOTE];
    assert [m][1..] == [];
    assert EntriesAt(1, [m]) == [Entry(PrintString(m.key), Places(1, m))] + [];
  }

  // ---------- a valid object the two still differ on ----------

  /** The key `\uD800`, a lone surrogate: a string of the grammar that stands for no
      text. */
  const LONE: Chars := [Hex(0x44, 0x38, 0x30, 0x30)]

  /** `{"\uD800":1,"f":2}`. */
  function LoneMembers(): seq<Member> {
    [Member([], LONE, [], [], Literal([0x31]), []), Member([], [Raw(0x66)], [], [], Literal([0x32]), [])]
  }

  lemma DigitIsLiteral(c: byte)
    requires IsDigit(c)
    ensures IsLiteral([c])
  {
    var t := [c];
    assert t[0..1] == t && t[1..1] == [] && t[1..] == [];
    assert IsInt(t[0..1]) && IsFrac(t[1..1]) && IsExp(t[1..]);
  }

  /** An object of the grammar with a span for `f` and the count 0, because another key
      does not decode. */
  lemma LoneSurrogateHidesTheCount(dec: Decoder)
    requires dec(PrintString(LONE)) == None
    ensures var b := Print(Object([], LoneMembers()));
            IsObject(b, [], [], LoneMembers())
            && |TopLevelSpans(dec, b, F)| == 1 && StreamCount(dec, b, F) == 0
  {
    var ms := LoneMembers();
    var b := Print(Object([], ms));
    LoneIsObject(b);
    hide IsObject, Print, PrintMember, Places, PrintString;
    SpansOfLone(dec, b);
    StreamCountOfObject(dec, b, [], [], ms, F);
    assert MemberKey(dec, ms[0]) == None by {
      LoneKeys(dec);
    }
  }

  lemma LoneIsObject(b: Bytes)
    requires b == Print(Object([], LoneMembers()))
    ensures IsObject(b, [], [], LoneMembers())
  {
    hide Print;
    DigitIsLiteral(0x31);
    DigitIsLiteral(0x32);
    var ms := LoneMembers();
    LiteralsAreValid([0x31]);
    LiteralsAreValid([0x32]);
    assert ms[1..][1..] == [];
    assert ValidMember(ms[0]) && ValidMember(ms[1]);
    assert ExactMembers(ms[1..]);
  }

  lemma LoneKeys(dec: Decoder)
    requires dec(PrintString(LONE)) == None
    ensures MemberKey(dec, LoneMembers()[0]) == None && MemberKey(dec, LoneMembers()[1]) == Some(F)
  {
    assert LONE[1..] == [];
    assert PrintChars(LONE) == [BACKSLASH, 0x75, 0x44, 0x38, 0x30, 0x30];
    var t := PrintString(LONE);
    assert t[1..|t| - 1][0] == BACKSLASH;
    var cs := LoneMembers()[1].key;
    assert cs[1..] == [];
    assert PrintChars(cs) == F;
    assert PrintString(cs) == [QUOTE, 0x66, QUOTE];
    assert PrintString(cs)[1..2] == F;
  }

  lemma SpansOfLone(dec: Decoder, b: Bytes)
    requires dec(PrintString(LONE)) == None && IsObject(b, [], [], LoneMembers())
    ensures |TopLevelSpans(dec, b, F)| == 1
  {
    hide Print, PrintMember, Places, PrintString, MemberKey, IsDocument;
    var ms := LoneMembers();
    LoneKeys(dec);
    SpansOfDocument(dec, b, [], [], ms, F);
    assert ms[1..][1..] == [];
  }
}
