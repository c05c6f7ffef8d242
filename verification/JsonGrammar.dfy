/** JSON texts by the grammar of RFC 8259, sections 2 to 7: a tree that carries its
    own whitespace and its own escapes, and the text it stands for. */
module JsonGrammar {
  import opened JsonBytes

  /** One char of a string token: raw, `\` and one byte, or `\u` and four hex digits. */
  datatype StrChar = Raw(c: byte) | Short(e: byte) | Hex(h0: byte, h1: byte, h2: byte, h3: byte)

  type Chars = seq<StrChar>

  datatype Value =
    | Literal(text: Bytes)
    | Str(chars: Chars)
    | Array(pad: Bytes, items: seq<Item>)
    | Object(pad: Bytes, members: seq<Member>)

  datatype Item = Item(before: Bytes, value: Value, after: Bytes)

  datatype Member = Member(
    before: Bytes, key: Chars, afterKey: Bytes, beforeValue: Bytes, value: Value, after: Bytes)

  // ---------- what the grammar admits ----------

  predicate IsHexDigit(c: byte) {
    0x30 <= c <= 0x39 || 0x41 <= c <= 0x46 || 0x61 <= c <= 0x66
  }

  /** The bytes that may follow a backslash: " \ / b f n r t. */
  predicate IsShortEscape(c: byte) {
    c == QUOTE || c == BACKSLASH || c == 0x2F || c == 0x62 || c == 0x66 || c == 0x6E || c == 0x72 || c == 0x74
  }

  predicate ValidChar(ch: StrChar) {
    match ch
    case Raw(c) => c >= 0x20 && c != QUOTE && c != BACKSLASH
    case Short(e) => IsShortEscape(e)
    case Hex(a, b, c, d) => IsHexDigit(a) && IsHexDigit(b) && IsHexDigit(c) && IsHexDigit(d)
  }

  predicate ValidChars(cs: Chars) {
    forall k :: 0 <= k < |cs| ==> ValidChar(cs[k])
  }

  /** Not structural and not blank: what a literal token is made of. */
  predicate IsLiteralByte(c: byte) {
    !IsWs(c) && !IsOpener(c) && !IsCloser(c) && c != QUOTE && c != COMMA && c != COLON
  }

  /** All the scanner needs of a literal. The literals of the grammar are fewer: see
      IsLiteral and LiteralsAreValid. */
  predicate ValidLiteral(t: Bytes) {
    t != [] && forall k :: 0 <= k < |t| ==> IsLiteralByte(t[k])
  }

  predicate Valid(v: Value) {
    match v
    case Literal(t) => ValidLiteral(t)
    case Str(cs) => ValidChars(cs)
    case Array(pad, items) => IsBlank(pad) && ValidItems(items)
    case Object(pad, members) => IsBlank(pad) && ValidMembers(members)
  }

  predicate ValidItems(xs: seq<Item>) {
    xs == [] || (IsBlank(xs[0].before) && Valid(xs[0].value) && IsBlank(xs[0].after) && ValidItems(xs[1..]))
  }

  predicate ValidMembers(ms: seq<Member>) {
    ms == [] || (ValidMember(ms[0]) && ValidMembers(ms[1..]))
  }

  predicate ValidMember(m: Member) {
    IsBlank(m.before) && ValidChars(m.key) && IsBlank(m.afterKey) && IsBlank(m.beforeValue)
    && Valid(m.value) && IsBlank(m.after)
  }

  // ---------- the literals of the grammar ----------

  const TRUE: Bytes := [0x74, 0x72, 0x75, 0x65]
  const FALSE: Bytes := [0x66, 0x61, 0x6C, 0x73, 0x65]
  const NULL: Bytes := [0x6E, 0x75, 0x6C, 0x6C]

  predicate IsDigit(c: byte) {
    0x30 <= c <= 0x39
  }

  predicate IsDigits(t: Bytes) {
    t != [] && forall k :: 0 <= k < |t| ==> IsDigit(t[k])
  }

  /** No leading zero. */
  predicate IsInt(t: Bytes) {
    IsDigits(t) && (t[0] == 0x30 ==> |t| == 1)
  }

  /** Nothing, or a point and digits. */
  predicate IsFrac(t: Bytes) {
    t == [] || (t[0] == 0x2E && IsDigits(t[1..]))
  }

  /** Nothing, or e or E, a sign or none, and digits. */
  predicate IsExp(t: Bytes) {
    t == []
    || ((t[0] == 0x65 || t[0] == 0x45)
        && (IsDigits(t[1..]) || (|t| > 1 && (t[1] == 0x2B || t[1] == 0x2D) && IsDigits(t[2..]))))
  }

  /** Section 6: an optional minus, an integer, a fraction, an exponent. */
  ghost predicate IsNumber(t: Bytes) {
    exists m: nat, i: nat, f: nat :: m <= i <= f <= |t|
      && (m == 0 || (m == 1 && t[0] == 0x2D)) && IsInt(t[m..i]) && IsFrac(t[i..f]) && IsExp(t[f..])
  }

  /** Section 3: the three names and the numbers. */
  ghost predicate IsLiteral(t: Bytes) {
    t == TRUE || t == FALSE || t == NULL || IsNumber(t)
  }

  /** The bytes of an ASCII text. */
  function Ascii(s: string): (t: Bytes)
    requires forall k :: 0 <= k < |s| ==> s[k] < 128 as char
    ensures |t| == |s| && forall k :: 0 <= k < |s| ==> t[k] as int == s[k] as int
  {
    seq(|s|, k requires 0 <= k < |s| => s[k] as int as byte)
  }

  /** The three names, and the chars that may follow a backslash. */
  lemma NamesAndEscapes(c: byte)
    ensures TRUE == Ascii("true") && FALSE == Ascii("false") && NULL == Ascii("null")
    ensures IsLiteral(TRUE) && IsLiteral(FALSE) && IsLiteral(NULL)
    ensures IsShortEscape(c) <==> c as int as char in {'"', '\\', '/', 'b', 'f', 'n', 'r', 't'}
    ensures IsHexDigit(c) <==> '0' <= c as int as char <= '9' || 'A' <= c as int as char <= 'F' || 'a' <= c as int as char <= 'f'
    ensures ValidChar(Raw(c)) <==> 0x20 <= c <= 0x21 || 0x23 <= c <= 0x5B || 0x5D <= c
  {}

  predicate IsNumberByte(c: byte) {
    IsDigit(c) || c == 0x2B || c == 0x2D || c == 0x2E || c == 0x45 || c == 0x65
  }

  lemma NumberBytes(t: Bytes)
    requires IsNumber(t)
    ensures t != [] && forall k :: 0 <= k < |t| ==> IsNumberByte(t[k])
  {
    hide IsInt, IsFrac, IsExp;
    var m: nat, i: nat, f: nat :| m <= i <= f <= |t|
      && (m == 0 || (m == 1 && t[0] == 0x2D)) && IsInt(t[m..i]) && IsFrac(t[i..f]) && IsExp(t[f..]);
    IntBytes(t[m..i]);
    FracBytes(t[i..f]);
    ExpBytes(t[f..]);
    forall k | 0 <= k < |t| ensures IsNumberByte(t[k]) {
      if k >= f {
        assert t[k] == t[f..][k - f];
      } else if k >= i {
        assert t[k] == t[i..f][k - i];
      } else if k >= m {
        assert t[k] == t[m..i][k - m];
      }
    }
  }

  lemma IntBytes(t: Bytes)
    requires IsInt(t)
    ensures t != [] && forall k :: 0 <= k < |t| ==> IsNumberByte(t[k])
  {}

  lemma FracBytes(t: Bytes)
    requires IsFrac(t)
    ensures forall k :: 0 <= k < |t| ==> IsNumberByte(t[k])
  {
    assert forall k :: 1 <= k < |t| ==> t[k] == t[1..][k - 1];
  }

  lemma ExpBytes(t: Bytes)
    requires IsExp(t)
    ensures forall k :: 0 <= k < |t| ==> IsNumberByte(t[k])
  {
    assert forall k :: 1 <= k < |t| ==> t[k] == t[1..][k - 1];
    assert |t| > 1 ==> forall k :: 2 <= k < |t| ==> t[k] == t[2..][k - 2];
  }

  /** The scanner's literals leave out none of the grammar's. */
  lemma LiteralsAreValid(t: Bytes)
    requires IsLiteral(t)
    ensures ValidLiteral(t)
  {
    if IsNumber(t) {
      NumberBytes(t);
    }
  }

  /** Every literal in the value is one of the grammar's: with Valid, the value is
      one of RFC 8259. */
  ghost predicate Exact(v: Value) {
    match v
    case Literal(t) => IsLiteral(t)
    case Str(_) => true
    case Array(_, items) => ExactItems(items)
    case Object(_, members) => ExactMembers(members)
  }

  ghost predicate ExactItems(xs: seq<Item>) {
    xs == [] || (Exact(xs[0].value) && ExactItems(xs[1..]))
  }

  ghost predicate ExactMembers(ms: seq<Member>) {
    ms == [] || (Exact(ms[0].value) && ExactMembers(ms[1..]))
  }

  // ---------- the text ----------

  function PrintChar(ch: StrChar): Bytes {
    match ch
    case Raw(c) => [c]
    case Short(e) => [BACKSLASH, e]
    case Hex(a, b, c, d) => [BACKSLASH, 0x75, a, b, c, d]
  }

  function PrintChars(cs: Chars): Bytes {
    if cs == [] then [] else PrintChar(cs[0]) + PrintChars(cs[1..])
  }

  function PrintString(cs: Chars): (t: Bytes)
    ensures |t| >= 2
  {
    [QUOTE] + PrintChars(cs) + [QUOTE]
  }

  function Print(v: Value): Bytes
    decreases v, 0
  {
    match v
    case Literal(t) => t
    case Str(cs) => PrintString(cs)
    case Array(pad, items) => [OPEN_BRACKET] + PrintItems(pad, items) + [CLOSE_BRACKET]
    case Object(pad, members) => [OPEN_BRACE] + PrintMembers(pad, members) + [CLOSE_BRACE]
  }

  function PrintItem(x: Item): Bytes
    decreases x, 1
  {
    x.before + Print(x.value) + x.after
  }

  /** Everything between the brackets; `pad` is what an empty pair encloses. */
  function PrintItems(pad: Bytes, xs: seq<Item>): Bytes
    decreases xs, 2
  {
    if xs == [] then pad else PrintItem(xs[0]) + PrintItemTail(xs[1..])
  }

  function PrintItemTail(xs: seq<Item>): Bytes
    decreases xs, 2
  {
    if xs == [] then [] else [COMMA] + PrintItem(xs[0]) + PrintItemTail(xs[1..])
  }

  /** A member from its key to its value, without the blanks around it. */
  function PrintPair(m: Member): Bytes
    decreases m, 1
  {
    PrintString(m.key) + m.afterKey + [COLON] + m.beforeValue + Print(m.value)
  }

  function PrintMember(m: Member): Bytes
    decreases m, 2
  {
    m.before + PrintPair(m) + m.after
  }

  function PrintMembers(pad: Bytes, ms: seq<Member>): Bytes
    decreases ms, 3
  {
    if ms == [] then pad else PrintMember(ms[0]) + PrintMemberTail(ms[1..])
  }

  function PrintMemberTail(ms: seq<Member>): Bytes
    decreases ms, 3
  {
    if ms == [] then [] else [COMMA] + PrintMember(ms[0]) + PrintMemberTail(ms[1..])
  }
}
