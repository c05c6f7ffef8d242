/** What the token scanners of llama-proxy/src/fixes/json_scan.rs:165-226 accept, on
    every byte string: more than the tokens of JSON, and exactly this. */
module JsonLenient {
  import opened Options
  import opened JsonBytes
  import opened JsonScanSpec

  // ---------- blanks ----------

  /** Space, tab, line feed, carriage return. */
  predicate IsBlankByte(c: byte) {
    c == 0x20 || c == 0x09 || c == 0x0A || c == 0x0D
  }

  /** Blanks are skipped up to the first other byte or the end. */
  lemma {:induction false} SkipWsIff(b: Bytes, i: nat, r: nat)
    requires i <= |b|
    ensures SkipWs(b, i) == r <==>
            i <= r <= |b| && (forall k :: i <= k < r ==> IsBlankByte(b[k])) && (r < |b| ==> !IsBlankByte(b[r]))
    decreases |b| - i
  {
    if i < |b| && IsBlankByte(b[i]) && i < r {
      SkipWsIff(b, i + 1, r);
    } else if i < |b| && IsBlankByte(b[i]) {
      SkipWsIff(b, i + 1, SkipWs(b, i + 1));
    }
  }

  // ---------- strings ----------

  /** A byte that stands for itself, or a backslash and whatever byte follows it. */
  datatype LenientChar = Plain(c: byte) | Escaped(e: byte)

  predicate IsLenientChar(ch: LenientChar) {
    match ch
    case Plain(c) => 0x20 <= c && c != 0x22 && c != 0x5C
    case Escaped(_) => true
  }

  predicate AreLenient(cs: seq<LenientChar>) {
    forall k :: 0 <= k < |cs| ==> IsLenientChar(cs[k])
  }

  function CharText(ch: LenientChar): Bytes {
    match ch case Plain(c) => [c] case Escaped(e) => [0x5C, e]
  }

  function CharsText(cs: seq<LenientChar>): Bytes {
    if cs == [] then [] else CharText(cs[0]) + CharsText(cs[1..])
  }

  function WordText(cs: seq<LenientChar>): Bytes {
    [0x22] + CharsText(cs) + [0x22]
  }

  ghost predicate IsLenientString(t: Bytes) {
    exists cs :: AreLenient(cs) && WordText(cs) == t
  }

  lemma StringEndChar(b: Bytes, j: nat, ch: LenientChar)
    requires At(b, j, CharText(ch)) && IsLenientChar(ch)
    ensures StringEnd(b, j) == StringEnd(b, j + |CharText(ch)|)
  {
    AtByte(b, j, CharText(ch), 0);
  }

  lemma {:induction false} StringEndOfChars(b: Bytes, j: nat, cs: seq<LenientChar>)
    requires AreLenient(cs) && At(b, j, CharsText(cs)) && At(b, j + |CharsText(cs)|, [0x22])
    ensures StringEnd(b, j) == Some(j + |CharsText(cs)| + 1)
    decreases |cs|
  {
    hide At, CharText, IsLenientChar;
    if cs == [] {
      AtByte(b, j, [0x22], 0);
    } else {
      AtConcat(b, j, CharText(cs[0]), CharsText(cs[1..]));
      StringEndChar(b, j, cs[0]);
      StringEndOfChars(b, j + |CharText(cs[0])|, cs[1..]);
    }
  }

  lemma {:induction false} CharsOfStringEnd(b: Bytes, j: nat) returns (cs: seq<LenientChar>)
    requires StringEnd(b, j).Some?
    ensures AreLenient(cs) && At(b, j, CharsText(cs)) && At(b, j + |CharsText(cs)|, [0x22])
    ensures StringEnd(b, j) == Some(j + |CharsText(cs)| + 1)
    decreases |b| - j
  {
    hide StringEnd, At, CharText, IsLenientChar;
    StringEndStarts(b, j);
    if b[j] == 0x22 {
      cs := [];
      SliceIsAt(b, j, j + 1);
      assert b[j..j + 1] == [0x22];
      SliceIsAt(b, j, j);
    } else {
      var ch := CharAt(b, j);
      var rest := CharsOfStringEnd(b, j + |CharText(ch)|);
      cs := [ch] + rest;
      CharsCons(b, j, ch, rest);
    }
  }

  lemma StringEndStarts(b: Bytes, j: nat)
    requires StringEnd(b, j).Some?
    ensures j < |b| && (b[j] == 0x22 ==> StringEnd(b, j) == Some(j + 1))
  {}

  lemma CharAt(b: Bytes, j: nat) returns (ch: LenientChar)
    requires j < |b| && StringEnd(b, j).Some? && b[j] != 0x22
    ensures IsLenientChar(ch) && At(b, j, CharText(ch)) && |CharText(ch)| > 0
    ensures StringEnd(b, j) == StringEnd(b, j + |CharText(ch)|)
  {
    if b[j] == 0x5C {
      ch := Escaped(b[j + 1]);
      assert b[j..j + 2] == [b[j], b[j + 1]];
    } else {
      ch := Plain(b[j]);
      assert b[j..j + 1] == [b[j]];
    }
  }

  lemma CharsCons(b: Bytes, j: nat, ch: LenientChar, rest: seq<LenientChar>)
    requires IsLenientChar(ch) && AreLenient(rest) && At(b, j, CharText(ch))
    requires At(b, j + |CharText(ch)|, CharsText(rest))
    ensures AreLenient([ch] + rest) && At(b, j, CharsText([ch] + rest))
    ensures |CharsText([ch] + rest)| == |CharText(ch)| + |CharsText(rest)|
  {
    hide At, CharText, IsLenientChar;
    assert ([ch] + rest)[1..] == rest;
    AtConcat(b, j, CharText(ch), CharsText(rest));
  }

  /** From an opening quote the scanner stops behind `r` exactly when the bytes up to
      `r` are lenient chars in quotes: a control byte of its own, a missing close and a
      lone backslash at the end all fail. */
  lemma ScanStringIff(b: Bytes, i: nat, r: nat)
    requires i < |b| && b[i] == 0x22
    ensures ScanString(b, i) == Some(r) <==> i < r <= |b| && IsLenientString(b[i..r])
  {
    hide StringEnd;
    if ScanString(b, i) == Some(r) {
      var cs := CharsOfStringEnd(b, i + 1);
      WordStands(b, i, cs);
      assert b[i..r] == WordText(cs);
    }
    if i < r <= |b| && IsLenientString(b[i..r]) {
      var cs :| AreLenient(cs) && WordText(cs) == b[i..r];
      WordStands(b, i, cs);
      StringEndOfChars(b, i + 1, cs);
    }
  }

  lemma WordStands(b: Bytes, i: nat, cs: seq<LenientChar>)
    requires i < |b| && b[i] == 0x22
    ensures At(b, i, WordText(cs)) <==> At(b, i + 1, CharsText(cs)) && At(b, i + 1 + |CharsText(cs)|, [0x22])
    ensures |WordText(cs)| == |CharsText(cs)| + 2
  {
    AtConcat(b, i, [0x22] + CharsText(cs), [0x22]);
    AtConcat(b, i, [0x22], CharsText(cs));
    assert At(b, i, [0x22]);
  }

  // ---------- containers ----------

  /** What a container is read as: lenient strings and single bytes between them. */
  datatype Piece = Word(cs: seq<LenientChar>) | Byte(c: byte)

  predicate IsPiece(p: Piece) {
    match p case Word(cs) => AreLenient(cs) case Byte(c) => c != 0x22
  }

  function PieceText(p: Piece): Bytes {
    match p case Word(cs) => WordText(cs) case Byte(c) => [c]
  }

  function PiecesText(ps: seq<Piece>): Bytes {
    if ps == [] then [] else PieceText(ps[0]) + PiecesText(ps[1..])
  }

  /** Either bracket opens, either closes; a string does neither. */
  function Rise(p: Piece): int {
    if p == Byte(0x7B) || p == Byte(0x5B) then 1
    else if p == Byte(0x7D) || p == Byte(0x5D) then -1
    else 0
  }

  function Depth(ps: seq<Piece>): int {
    if ps == [] then 0 else Rise(ps[0]) + Depth(ps[1..])
  }

  /** From depth `d` the pieces come down to 0 with their last one and not before. */
  ghost predicate ClosesAtEnd(ps: seq<Piece>, d: int) {
    ps != [] && d + Depth(ps) == 0 && (forall k :: 0 <= k < |ps| ==> IsPiece(ps[k]))
    && forall k :: 0 < k < |ps| ==> d + Depth(ps[..k]) >= 1
  }

  ghost predicate IsNest(t: Bytes) {
    exists ps :: ClosesAtEnd(ps, 0) && PiecesText(ps) == t
  }

  lemma TailCloses(ps: seq<Piece>, d: int)
    requires ClosesAtEnd(ps, d) && |ps| > 1
    ensures d + Rise(ps[0]) >= 1 && ClosesAtEnd(ps[1..], d + Rise(ps[0]))
  {
    hide IsPiece, Rise;
    assert ps[..1][1..] == [] && Depth(ps[..1]) == Rise(ps[0]);
    forall k | 0 < k < |ps[1..]| ensures d + Rise(ps[0]) + Depth(ps[1..][..k]) >= 1 {
      assert ps[..k + 1][1..] == ps[1..][..k];
    }
  }

  lemma ConsCloses(p: Piece, ps: seq<Piece>, d: int)
    requires IsPiece(p) && d + Rise(p) >= 1 && ClosesAtEnd(ps, d + Rise(p))
    ensures ClosesAtEnd([p] + ps, d)
  {
    hide IsPiece, Rise;
    var all := [p] + ps;
    assert all[1..] == ps;
    forall k | 0 < k < |all| ensures d + Depth(all[..k]) >= 1 {
      assert all[..k][1..] == ps[..k - 1];
      if k == 1 {
        assert Depth(all[..1]) == Rise(p);
      }
    }
  }

  /** One piece read at depth `d`. */
  lemma NestEndPiece(b: Bytes, j: nat, d: int, p: Piece)
    requires At(b, j, PieceText(p)) && IsPiece(p) && (d >= 1 || Rise(p) == 1) && d >= 0
    ensures NestEnd(b, j, d)
         == if d + Rise(p) == 0 then Some(j + |PieceText(p)|) else NestEnd(b, j + |PieceText(p)|, d + Rise(p))
  {
    hide ScanString;
    AtByte(b, j, PieceText(p), 0);
    if p.Word? {
      AtSlice(b, j, PieceText(p));
      assert IsLenientString(b[j..j + |PieceText(p)|]);
      ScanStringIff(b, j, j + |PieceText(p)|);
    }
  }

  lemma {:induction false} NestEndOfPieces(b: Bytes, j: nat, d: int, ps: seq<Piece>)
    requires ClosesAtEnd(ps, d) && At(b, j, PiecesText(ps)) && d >= 0 && (d >= 1 || Rise(ps[0]) == 1)
    ensures NestEnd(b, j, d) == Some(j + |PiecesText(ps)|)
    decreases |ps|
  {
    hide NestEnd, PieceText, IsPiece, Rise, At;
    AtConcat(b, j, PieceText(ps[0]), PiecesText(ps[1..]));
    NestEndPiece(b, j, d, ps[0]);
    if |ps| > 1 {
      TailCloses(ps, d);
      NestEndOfPieces(b, j + |PieceText(ps[0])|, d + Rise(ps[0]), ps[1..]);
    } else {
      assert ps[1..] == [];
    }
  }

  /** The piece that stands at `j`. */
  lemma PieceAt(b: Bytes, j: nat, d: int) returns (p: Piece)
    requires NestEnd(b, j, d).Some? && d >= 0 && (d >= 1 || b[j] == 0x7B || b[j] == 0x5B)
    ensures IsPiece(p) && At(b, j, PieceText(p)) && |PieceText(p)| > 0
    ensures d >= 1 || Rise(p) == 1
  {
    hide ScanString;
    if b[j] == 0x22 {
      var r := ScanString(b, j).value;
      ScanStringIff(b, j, r);
      var cs :| AreLenient(cs) && WordText(cs) == b[j..r];
      p := Word(cs);
      SliceIsAt(b, j, r);
    } else {
      p := Byte(b[j]);
      SliceIsAt(b, j, j + 1);
      assert b[j..j + 1] == [b[j]];
    }
  }

  lemma {:induction false} PiecesOfNestEnd(b: Bytes, j: nat, d: int) returns (ps: seq<Piece>)
    requires NestEnd(b, j, d).Some? && d >= 0 && (d >= 1 || b[j] == 0x7B || b[j] == 0x5B)
    ensures ClosesAtEnd(ps, d) && At(b, j, PiecesText(ps)) && NestEnd(b, j, d) == Some(j + |PiecesText(ps)|)
    decreases |b| - j
  {
    hide NestEnd, PieceText, IsPiece, At, Rise;
    var p := PieceAt(b, j, d);
    NestEndPiece(b, j, d, p);
    if d + Rise(p) == 0 {
      ps := [p];
      OnePiece(p, d);
    } else {
      RiseIsOne(p);
      AtSlice(b, j, PieceText(p));
      var rest := PiecesOfNestEnd(b, j + |PieceText(p)|, d + Rise(p));
      ps := [p] + rest;
      ConsCloses(p, rest, d);
      assert ps[1..] == rest;
      assert PiecesText(ps) == PieceText(p) + PiecesText(rest);
      AtConcat(b, j, PieceText(p), PiecesText(rest));
    }
  }

  lemma OnePiece(p: Piece, d: int)
    requires IsPiece(p) && d + Rise(p) == 0
    ensures ClosesAtEnd([p], d) && PiecesText([p]) == PieceText(p)
  {
    hide IsPiece, PieceText, Rise;
    assert [p][1..] == [] && PieceText(p) + [] == PieceText(p);
    assert Depth([p]) == Rise(p) + Depth([]);
  }

  lemma RiseIsOne(p: Piece)
    ensures -1 <= Rise(p) <= 1
  {}

  /** From an opening bracket the flat counter stops behind `r` exactly when the bytes
      up to `r` are pieces that close with the last one. Brackets of both kinds pair up,
      and commas, colons and literals mean nothing. */
  lemma NestEndIff(b: Bytes, i: nat, r: nat)
    requires i < |b| && (b[i] == 0x7B || b[i] == 0x5B)
    ensures NestEnd(b, i, 0) == Some(r) <==> i < r <= |b| && IsNest(b[i..r])
  {
    hide NestEnd, ClosesAtEnd, PiecesText, At;
    if NestEnd(b, i, 0) == Some(r) {
      var ps := PiecesOfNestEnd(b, i, 0);
      AtSlice(b, i, PiecesText(ps));
    }
    if i < r <= |b| && IsNest(b[i..r]) {
      var ps :| ClosesAtEnd(ps, 0) && PiecesText(ps) == b[i..r];
      FirstOpens(ps, b[i]);
      SliceIsAt(b, i, r);
      NestEndOfPieces(b, i, 0, ps);
    }
  }

  lemma SliceIsAt(b: Bytes, i: nat, r: nat)
    requires i <= r <= |b|
    ensures At(b, i, b[i..r])
  {}

  lemma FirstOpens(ps: seq<Piece>, c: byte)
    requires ClosesAtEnd(ps, 0) && (c == 0x7B || c == 0x5B) && PiecesText(ps) != [] && PiecesText(ps)[0] == c
    ensures ps != [] && Rise(ps[0]) == 1
  {
    assert PieceText(ps[0])[0] == c;
  }

  // ---------- values ----------

  /** A comma, a closing bracket of either kind, or a blank. */
  predicate EndsLiteral(c: byte) {
    c == 0x2C || c == 0x7D || c == 0x5D || IsBlankByte(c)
  }

  lemma {:induction false} LiteralEndIff(b: Bytes, i: nat, r: nat)
    requires i <= |b|
    ensures LiteralEnd(b, i) == r <==>
            i <= r <= |b| && (forall k :: i <= k < r ==> !EndsLiteral(b[k])) && (r < |b| ==> EndsLiteral(b[r]))
    decreases |b| - i
  {
    if i < |b| && !EndsLiteral(b[i]) {
      LiteralEndIff(b, i + 1, if i < r then r else LiteralEnd(b, i + 1));
    }
  }

  /** Where the text at `i` ends if it is taken for a value. */
  ghost predicate IsValueEnd(b: Bytes, i: nat, r: nat)
    requires i < |b|
  {
    i <= r <= |b|
    && if b[i] == 0x22 then IsLenientString(b[i..r])
       else if b[i] == 0x7B || b[i] == 0x5B then IsNest(b[i..r])
       else (forall k :: i <= k < r ==> !EndsLiteral(b[k])) && (r < |b| ==> EndsLiteral(b[r]))
  }

  /** On every byte string: what the value scanner takes for a value, and what it does
      not. */
  lemma ScanValueIff(b: Bytes, i: nat, r: nat)
    ensures ScanValue(b, i) == Some(r) <==> i < |b| && IsValueEnd(b, i, r)
  {
    hide ScanString, NestEnd, LiteralEnd, IsLenientString, IsNest;
    if i < |b| {
      if b[i] == 0x22 {
        ScanStringIff(b, i, r);
        NothingIsNoToken();
        assert b[i..i] == [];
      } else if b[i] == 0x7B || b[i] == 0x5B {
        NestEndIff(b, i, r);
        NothingIsNoToken();
        assert b[i..i] == [];
      } else {
        LiteralEndIff(b, i, r);
      }
    }
  }

  lemma NothingIsNoToken()
    ensures !IsLenientString([]) && !IsNest([])
  {}

  // ---------- entries and their sequence ----------

  /** A quote at `s.keyStart`, a colon behind the blanks behind the string it opens, and
      behind more blanks something taken for a value. */
  ghost predicate IsEntry(b: Bytes, s: KeySpan) {
    s.keyStart < |b| && b[s.keyStart] == 0x22
    && s.keyStart < s.keyEnd <= |b| && IsLenientString(b[s.keyStart..s.keyEnd])
    && SkipWs(b, s.keyEnd) < |b| && b[SkipWs(b, s.keyEnd)] == 0x3A
    && s.valueStart == SkipWs(b, SkipWs(b, s.keyEnd) + 1) < |b| && IsValueEnd(b, s.valueStart, s.valueEnd)
  }

  lemma ScanEntryIff(b: Bytes, i: nat, e: Entry)
    ensures ScanEntry(b, i) == Some(e) <==>
            e.span.keyStart == i && IsEntry(b, e.span) && e.token == b[i..e.span.keyEnd]
  {
    hide ScanString, ScanValue, SkipWs, IsLenientString, IsValueEnd, ScanEntry;
    if ScanEntry(b, i).Some? {
      EntryParts(b, i);
      var a := ScanString(b, i).value;
      ScanStringIff(b, i, a);
      var v := SkipWs(b, SkipWs(b, a) + 1);
      ScanValueIff(b, v, ScanValue(b, v).value);
    }
    var s := e.span;
    if s.keyStart == i && IsEntry(b, s) && e.token == b[i..s.keyEnd] {
      ScanStringIff(b, i, s.keyEnd);
      ScanValueIff(b, s.valueStart, s.valueEnd);
      EntryFrom(b, i, s.keyEnd, SkipWs(b, s.keyEnd), s.valueStart, s.valueEnd);
    }
  }

  ghost predicate HasEntry(b: Bytes, i: nat) {
    exists s :: IsEntry(b, s) && s.keyStart == i
  }

  /** Behind a value: after blanks a comma leads, over blanks, to the next entry, and a
      closing brace ends the object. `es` are all that follow, and `end` says whether
      the brace was reached. */
  ghost predicate Follows(b: Bytes, from: nat, es: seq<Entry>, end: Ending)
    decreases |es|
  {
    var k := SkipWs(b, from);
    var next := SkipWs(b, k + 1);
    if es == [] then
      if k < |b| && b[k] == 0x7D then end == Closed(k)
      else end == Broken && !(k < |b| && b[k] == 0x2C && HasEntry(b, next))
    else
      k < |b| && b[k] == 0x2C && es[0].span.keyStart == next && IsEntry(b, es[0].span)
      && es[0].token == b[next..es[0].span.keyEnd] && Follows(b, es[0].span.valueEnd, es[1..], end)
  }

  lemma HasEntryIff(b: Bytes, i: nat)
    ensures HasEntry(b, i) <==> ScanEntry(b, i).Some?
  {
    hide ScanEntry, IsEntry, IsLenientString, IsValueEnd, SkipWs;
    if HasEntry(b, i) {
      var s :| IsEntry(b, s) && s.keyStart == i;
      EntryIsLong(b, s);
      ScanEntryIff(b, i, Entry(b[i..s.keyEnd], s));
    }
    if ScanEntry(b, i).Some? {
      ScanEntryIff(b, i, ScanEntry(b, i).value);
    }
  }

  lemma EntryIsLong(b: Bytes, s: KeySpan)
    requires IsEntry(b, s)
    ensures s.keyStart + 2 <= s.keyEnd <= |b|
  {
    hide IsValueEnd, SkipWs;
    ScanStringIff(b, s.keyStart, s.keyEnd);
  }

  /** On every byte string: the entries behind a value, and how they end. */
  lemma {:induction false} WalkOnIs(b: Bytes, from: nat)
    ensures var t := WalkOn(b, from); Follows(b, from, t.entries, t.end)
    decreases |b| - from
  {
    hide ScanEntry, SkipWs, IsEntry, HasEntry;
    var k := SkipWs(b, from);
    if k < |b| && b[k] == 0x2C {
      var next := SkipWs(b, k + 1);
      HasEntryIff(b, next);
      if ScanEntry(b, next).Some? {
        var e := ScanEntry(b, next).value;
        ScanEntryIff(b, next, e);
        WalkOnIs(b, e.span.valueEnd);
        var rest := WalkOn(b, e.span.valueEnd);
        assert WalkOn(b, from) == Cons(e, rest);
        assert ([e] + rest.entries)[1..] == rest.entries;
      }
    }
  }

  /** From the first byte: an opening brace behind blanks, then its close or an entry and
      what follows it; anything else is no walk at all. */
  lemma WalkRootIs(b: Bytes)
    ensures var i := SkipWs(b, 0);
            var j := SkipWs(b, i + 1);
            var t := WalkRoot(b);
            if i < |b| && b[i] == 0x7B && j < |b| && b[j] == 0x7D then t == Trail([], Closed(j))
            else if i < |b| && b[i] == 0x7B && HasEntry(b, j) then
              t.entries != [] && t.entries[0].span.keyStart == j && IsEntry(b, t.entries[0].span)
              && t.entries[0].token == b[j..t.entries[0].span.keyEnd]
              && Follows(b, t.entries[0].span.valueEnd, t.entries[1..], t.end)
            else t == Trail([], Broken)
  {
    hide ScanEntry, SkipWs, IsEntry, HasEntry, Follows;
    var i := SkipWs(b, 0);
    var j := SkipWs(b, i + 1);
    HasEntryIff(b, j);
    if i < |b| && b[i] == 0x7B && ScanEntry(b, j).Some? {
      EntryHasKey(b, j);
      var e := ScanEntry(b, j).value;
      ScanEntryIff(b, j, e);
      WalkOnIs(b, e.span.valueEnd);
      assert ([e] + WalkOn(b, e.span.valueEnd).entries)[1..] == WalkOn(b, e.span.valueEnd).entries;
    }
  }

  // ---------- keys ----------

  /** The walkers that stop at a key stop at the first that does not decode. */
  lemma {:induction false} DecodedPrefixIff(dec: Decoder, es: seq<Entry>, ks: seq<Bytes>)
    ensures DecodedPrefix(dec, es) == ks <==>
            |ks| <= |es| && (forall k :: 0 <= k < |ks| ==> DecodeToken(dec, es[k].token) == Some(ks[k]))
            && (|ks| < |es| ==> DecodeToken(dec, es[|ks|].token) == None)
    decreases |es|
  {
    hide DecodeToken;
    if es != [] && ks != [] && DecodeToken(dec, es[0].token).Some? {
      DecodedPrefixIff(dec, es[1..], ks[1..]);
      assert ks == [ks[0]] + ks[1..];
      assert forall k :: 1 <= k < |ks| ==> ks[k] == ks[1..][k - 1];
      assert forall k :: 0 <= k < |ks[1..]| ==> ks[1..][k] == ks[k + 1];
      assert forall k :: 1 <= k < |es| ==> es[k] == es[1..][k - 1];
      assert forall k :: 0 <= k < |es[1..]| ==> es[1..][k] == es[k + 1];
    }
  }

  /** A key token without a backslash is its own text, whatever the decoder; one with a
      backslash is what the decoder says, quotes included in what it is given. */
  lemma DecodeTokenIs(dec: Decoder, raw: Bytes)
    ensures DecodeToken(dec, [0x22] + raw + [0x22]) == if 0x5C in raw then dec([0x22] + raw + [0x22]) else Some(raw)
  {
    var t := [0x22] + raw + [0x22];
    assert t[1..|t| - 1] == raw;
  }

  /** On every byte string: after an offset the keys listed are those of the complete
      entries that follow, up to the first that does not decode. */
  lemma KeysAfterIff(dec: Decoder, b: Bytes, from: nat, ks: seq<Bytes>)
    ensures var es := WalkOn(b, from).entries;
            KeysAfter(dec, b, from) == ks <==>
            |ks| <= |es| && (forall k :: 0 <= k < |ks| ==> DecodeToken(dec, es[k].token) == Some(ks[k]))
            && (|ks| < |es| ==> DecodeToken(dec, es[|ks|].token) == None)
  {
    DecodedPrefixIff(dec, WalkOn(b, from).entries, ks);
  }
}
