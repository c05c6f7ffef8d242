/** The flat scanner agrees with the recursive grammar: on the text of a value it
    stops at the end of that value, and on the text of an object it finds exactly
    the object's members. */
module JsonScanGrammar {
  import opened Options
  import opened JsonBytes
  import opened JsonGrammar
  import opened JsonScanSpec

  // ---------- strings ----------

  lemma StringSkipsChar(b: Bytes, i: nat, ch: StrChar)
    requires At(b, i, PrintChar(ch)) && ValidChar(ch)
    ensures StringEnd(b, i) == StringEnd(b, i + |PrintChar(ch)|)
  {
    AtByte(b, i, PrintChar(ch), 0);
    if ch.Hex? {
      hide StringEnd, At, IsHexDigit;
      var t := PrintChar(ch);
      StringSkipsEscape(b, i);
      HexIsRaw(ch);
      AtByte(b, i, t, 2);
      StringSkipsRaw(b, i + 2, ch.h0);
      AtByte(b, i, t, 3);
      StringSkipsRaw(b, i + 3, ch.h1);
      AtByte(b, i, t, 4);
      StringSkipsRaw(b, i + 4, ch.h2);
      AtByte(b, i, t, 5);
      StringSkipsRaw(b, i + 5, ch.h3);
    }
  }

  lemma StringSkipsEscape(b: Bytes, i: nat)
    ensures i < |b| && b[i] == BACKSLASH ==> StringEnd(b, i) == StringEnd(b, i + 2)
  {}

  lemma HexIsRaw(ch: StrChar)
    requires ch.Hex? && ValidChar(ch)
    ensures ValidChar(Raw(ch.h0)) && ValidChar(Raw(ch.h1)) && ValidChar(Raw(ch.h2)) && ValidChar(Raw(ch.h3))
  {}

  lemma StringSkipsRaw(b: Bytes, i: nat, c: byte)
    requires ValidChar(Raw(c))
    ensures i < |b| && b[i] == c ==> StringEnd(b, i) == StringEnd(b, i + 1)
  {}

  lemma {:induction false} StringSkipsChars(b: Bytes, i: nat, cs: Chars)
    requires At(b, i, PrintChars(cs)) && ValidChars(cs)
    ensures StringEnd(b, i) == StringEnd(b, i + |PrintChars(cs)|)
    decreases |cs|
  {
    hide StringEnd, PrintChar;
    if cs != [] {
      AtConcat(b, i, PrintChar(cs[0]), PrintChars(cs[1..]));
      assert ValidChar(cs[0]);
      StringSkipsChar(b, i, cs[0]);
      StringSkipsChars(b, i + |PrintChar(cs[0])|, cs[1..]);
    }
  }

  lemma ScanStringInvertsPrint(b: Bytes, i: nat, cs: Chars)
    requires At(b, i, PrintString(cs)) && ValidChars(cs)
    ensures ScanString(b, i) == Some(i + |PrintString(cs)|)
    ensures b[i] == QUOTE
  {
    hide PrintChars;
    var t := PrintChars(cs);
    AtConcat(b, i, [QUOTE] + t, [QUOTE]);
    AtConcat(b, i, [QUOTE], t);
    AtByte(b, i, [QUOTE], 0);
    AtByte(b, i + 1 + |t|, [QUOTE], 0);
    StringSkipsChars(b, i + 1, cs);
  }

  // ---------- containers ----------

  /** A run of bytes that are neither quotes nor brackets. */
  predicate IsQuiet(t: Bytes) {
    forall k :: 0 <= k < |t| ==> t[k] != QUOTE && DepthStep(t[k]) == 0
  }

  lemma BlankIsQuiet(w: Bytes)
    requires IsBlank(w)
    ensures IsQuiet(w)
  {}

  lemma {:induction false} NestSkipsQuiet(b: Bytes, i: nat, t: Bytes, d: int)
    requires At(b, i, t) && IsQuiet(t) && d >= 1
    ensures NestEnd(b, i, d) == NestEnd(b, i + |t|, d)
    decreases |t|
  {
    if t != [] {
      assert t == [t[0]] + t[1..];
      AtConcat(b, i, [t[0]], t[1..]);
      AtByte(b, i, t, 0);
      NestSkipsQuiet(b, i + 1, t[1..], d);
    }
  }

  lemma {:induction false} NestSkipsValue(b: Bytes, i: nat, v: Value, d: int)
    requires At(b, i, Print(v)) && Valid(v) && d >= 1
    ensures NestEnd(b, i, d) == NestEnd(b, i + |Print(v)|, d)
    decreases v, 0
  {
    hide NestEnd, At, IsQuiet, PrintString, PrintItems, PrintMembers, ValidItems, ValidMembers, ScanString;
    match v
    case Literal(t) =>
      LiteralIsQuiet(t);
      NestSkipsQuiet(b, i, t, d);
    case Str(cs) =>
      ScanStringInvertsPrint(b, i, cs);
      NestSkipsString(b, i, d);
    case Array(pad, items) =>
      var body := PrintItems(pad, items);
      NestSkipsBrackets(b, i, OPEN_BRACKET, body, CLOSE_BRACKET, d);
      NestSkipsItems(b, i + 1, pad, items, d + 1);
    case Object(pad, members) =>
      var body := PrintMembers(pad, members);
      NestSkipsBrackets(b, i, OPEN_BRACE, body, CLOSE_BRACE, d);
      NestSkipsMembers(b, i + 1, pad, members, d + 1);
  }

  lemma LiteralIsQuiet(t: Bytes)
    requires ValidLiteral(t)
    ensures IsQuiet(t)
  {}

  lemma NestSkipsString(b: Bytes, i: nat, d: int)
    requires i < |b| && b[i] == QUOTE && ScanString(b, i).Some?
    ensures NestEnd(b, i, d) == NestEnd(b, ScanString(b, i).value, d)
  {}

  /** A bracketed text is skipped at depth `d` if its body is at `d + 1`. */
  lemma NestSkipsBrackets(b: Bytes, i: nat, open: byte, body: Bytes, close: byte, d: int)
    requires At(b, i, [open] + body + [close]) && IsOpener(open) && IsCloser(close) && d >= 0
    ensures At(b, i + 1, body)
    ensures NestEnd(b, i, d) == NestEnd(b, i + 1, d + 1)
    ensures NestEnd(b, i + 1 + |body|, d + 1)
         == if d == 0 then Some(i + 2 + |body|) else NestEnd(b, i + 2 + |body|, d)
  {
    hide At;
    AtConcat(b, i, [open] + body, [close]);
    AtConcat(b, i, [open], body);
    AtByte(b, i, [open], 0);
    AtByte(b, i + 1 + |body|, [close], 0);
  }

  lemma {:induction false} NestSkipsItems(b: Bytes, i: nat, pad: Bytes, xs: seq<Item>, d: int)
    requires At(b, i, PrintItems(pad, xs)) && IsBlank(pad) && ValidItems(xs) && d >= 1
    ensures NestEnd(b, i, d) == NestEnd(b, i + |PrintItems(pad, xs)|, d)
    decreases xs, 1
  {
    hide NestEnd;
    if xs == [] {
      NestSkipsQuiet(b, i, pad, d);
    } else {
      AtConcat(b, i, PrintItem(xs[0]), PrintItemTail(xs[1..]));
      NestSkipsItem(b, i, xs[0], d);
      NestSkipsItemTail(b, i + |PrintItem(xs[0])|, xs[1..], d);
    }
  }

  lemma {:induction false} NestSkipsItem(b: Bytes, i: nat, x: Item, d: int)
    requires At(b, i, PrintItem(x)) && IsBlank(x.before) && Valid(x.value) && IsBlank(x.after) && d >= 1
    ensures NestEnd(b, i, d) == NestEnd(b, i + |PrintItem(x)|, d)
    decreases x, 0
  {
    hide NestEnd;
    var v := Print(x.value);
    AtConcat(b, i, x.before + v, x.after);
    AtConcat(b, i, x.before, v);
    NestSkipsQuiet(b, i, x.before, d);
    NestSkipsValue(b, i + |x.before|, x.value, d);
    NestSkipsQuiet(b, i + |x.before| + |v|, x.after, d);
  }

  lemma {:induction false} NestSkipsItemTail(b: Bytes, i: nat, xs: seq<Item>, d: int)
    requires At(b, i, PrintItemTail(xs)) && ValidItems(xs) && d >= 1
    ensures NestEnd(b, i, d) == NestEnd(b, i + |PrintItemTail(xs)|, d)
    decreases xs, 1
  {
    hide NestEnd;
    if xs != [] {
      var t := PrintItem(xs[0]);
      AtConcat(b, i, [COMMA] + t, PrintItemTail(xs[1..]));
      AtConcat(b, i, [COMMA], t);
      NestSkipsQuiet(b, i, [COMMA], d);
      NestSkipsItem(b, i + 1, xs[0], d);
      NestSkipsItemTail(b, i + 1 + |t|, xs[1..], d);
    }
  }

  lemma {:induction false} NestSkipsMembers(b: Bytes, i: nat, pad: Bytes, ms: seq<Member>, d: int)
    requires At(b, i, PrintMembers(pad, ms)) && IsBlank(pad) && ValidMembers(ms) && d >= 1
    ensures NestEnd(b, i, d) == NestEnd(b, i + |PrintMembers(pad, ms)|, d)
    decreases ms, 1
  {
    hide NestEnd;
    if ms == [] {
      NestSkipsQuiet(b, i, pad, d);
    } else {
      AtConcat(b, i, PrintMember(ms[0]), PrintMemberTail(ms[1..]));
      NestSkipsMember(b, i, ms[0], d);
      NestSkipsMemberTail(b, i + |PrintMember(ms[0])|, ms[1..], d);
    }
  }

  lemma ColonIsQuiet()
    ensures IsQuiet([COLON])
  {}

  lemma {:induction false} NestSkipsMember(b: Bytes, i: nat, m: Member, d: int)
    requires At(b, i, PrintMember(m)) && ValidMember(m) && d >= 1
    ensures NestEnd(b, i, d) == NestEnd(b, i + |PrintMember(m)|, d)
    decreases m, 0
  {
    hide NestEnd, Print, PrintString, PrintMember, At, IsQuiet, IsBlank, ScanString;
    MemberLayout(b, i, m);
    var p := Places(i, m);
    BlankIsQuiet(m.before);
    BlankIsQuiet(m.afterKey);
    BlankIsQuiet(m.beforeValue);
    BlankIsQuiet(m.after);
    ColonIsQuiet();
    NestSkipsQuiet(b, i, m.before, d);
    ScanStringInvertsPrint(b, p.keyStart, m.key);
    NestSkipsString(b, p.keyStart, d);
    NestSkipsQuiet(b, p.keyEnd, m.afterKey, d);
    NestSkipsQuiet(b, p.keyEnd + |m.afterKey|, [COLON], d);
    NestSkipsQuiet(b, p.keyEnd + |m.afterKey| + 1, m.beforeValue, d);
    NestSkipsValue(b, p.valueStart, m.value, d);
    NestSkipsQuiet(b, p.valueEnd, m.after, d);
  }

  lemma {:induction false} NestSkipsMemberTail(b: Bytes, i: nat, ms: seq<Member>, d: int)
    requires At(b, i, PrintMemberTail(ms)) && ValidMembers(ms) && d >= 1
    ensures NestEnd(b, i, d) == NestEnd(b, i + |PrintMemberTail(ms)|, d)
    decreases ms, 1
  {
    hide NestEnd;
    if ms != [] {
      var t := PrintMember(ms[0]);
      AtConcat(b, i, [COMMA] + t, PrintMemberTail(ms[1..]));
      AtConcat(b, i, [COMMA], t);
      NestSkipsQuiet(b, i, [COMMA], d);
      NestSkipsMember(b, i + 1, ms[0], d);
      NestSkipsMemberTail(b, i + 1 + |t|, ms[1..], d);
    }
  }

  /** Where a member printed at `i` has its key and its value. */
  function Places(i: nat, m: Member): KeySpan {
    var k := i + |m.before|;
    var e := k + |PrintString(m.key)|;
    var v := e + |m.afterKey| + 1 + |m.beforeValue|;
    KeySpan(k, e, v, v + |Print(m.value)|)
  }

  lemma MemberLayout(b: Bytes, i: nat, m: Member)
    requires At(b, i, PrintMember(m))
    ensures var p := Places(i, m);
            At(b, i, m.before) && At(b, p.keyStart, PrintString(m.key)) && At(b, p.keyEnd, m.afterKey)
            && At(b, p.keyEnd + |m.afterKey|, [COLON]) && At(b, p.keyEnd + |m.afterKey| + 1, m.beforeValue)
            && At(b, p.valueStart, Print(m.value)) && At(b, p.valueEnd, m.after)
            && i + |PrintMember(m)| == p.valueEnd + |m.after|
  {
    hide PrintString, Print;
    var k, v := PrintString(m.key), Print(m.value);
    AtConcat(b, i, m.before + PrintPair(m), m.after);
    AtConcat(b, i, m.before, PrintPair(m));
    var j := i + |m.before|;
    AtConcat(b, j, k + m.afterKey + [COLON] + m.beforeValue, v);
    AtConcat(b, j, k + m.afterKey + [COLON], m.beforeValue);
    AtConcat(b, j, k + m.afterKey, [COLON]);
    AtConcat(b, j, k, m.afterKey);
  }

  // ---------- values ----------

  /** What may come after a value: a delimiter or the end of the text. Only a
      literal needs it. */
  predicate EndsValue(b: Bytes, i: nat) {
    i >= |b| || IsDelimiter(b[i])
  }

  lemma {:induction false} LiteralRuns(b: Bytes, i: nat, t: Bytes)
    requires At(b, i, t) && (forall k :: 0 <= k < |t| ==> IsLiteralByte(t[k])) && EndsValue(b, i + |t|)
    ensures LiteralEnd(b, i) == i + |t|
    decreases |t|
  {
    if t != [] {
      assert t == [t[0]] + t[1..];
      AtConcat(b, i, [t[0]], t[1..]);
      AtByte(b, i, t, 0);
      LiteralRuns(b, i + 1, t[1..]);
    }
  }

  /** On the text of any value the scanner returns exactly its end. */
  lemma {:induction false} ScanValueInvertsPrint(b: Bytes, i: nat, v: Value)
    requires At(b, i, Print(v)) && Valid(v)
    requires v.Literal? ==> EndsValue(b, i + |Print(v)|)
    ensures ScanValue(b, i) == Some(i + |Print(v)|)
  {
    hide NestEnd;
    match v
    case Literal(t) =>
      AtByte(b, i, t, 0);
      assert IsLiteralByte(t[0]);
      LiteralRuns(b, i, t);
    case Str(cs) =>
      ScanStringInvertsPrint(b, i, cs);
    case Array(pad, items) =>
      var body := PrintItems(pad, items);
      NestSkipsBrackets(b, i, OPEN_BRACKET, body, CLOSE_BRACKET, 0);
      NestSkipsItems(b, i + 1, pad, items, 1);
      AtByte(b, i, Print(v), 0);
    case Object(pad, members) =>
      var body := PrintMembers(pad, members);
      NestSkipsBrackets(b, i, OPEN_BRACE, body, CLOSE_BRACE, 0);
      NestSkipsMembers(b, i + 1, pad, members, 1);
      AtByte(b, i, Print(v), 0);
  }
}
