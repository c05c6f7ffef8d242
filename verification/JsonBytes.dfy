/** Bytes of a UTF-8 string and the character classes of the scanner in
    llama-proxy/src/fixes/json_scan.rs. */
module JsonBytes {
  newtype byte = x: int | 0 <= x < 256

  type Bytes = seq<byte>

  const QUOTE: byte := 0x22
  const BACKSLASH: byte := 0x5C
  const COMMA: byte := 0x2C
  const COLON: byte := 0x3A
  const OPEN_BRACE: byte := 0x7B
  const CLOSE_BRACE: byte := 0x7D
  const OPEN_BRACKET: byte := 0x5B
  const CLOSE_BRACKET: byte := 0x5D

  predicate IsWs(c: byte) {
    c == 0x20 || c == 0x09 || c == 0x0A || c == 0x0D
  }

  /** Where a literal token (number, true, false, null) stops. */
  predicate IsDelimiter(c: byte) {
    c == COMMA || c == CLOSE_BRACE || c == CLOSE_BRACKET || IsWs(c)
  }

  predicate IsOpener(c: byte) {
    c == OPEN_BRACE || c == OPEN_BRACKET
  }

  predicate IsCloser(c: byte) {
    c == CLOSE_BRACE || c == CLOSE_BRACKET
  }

  predicate IsBlank(w: Bytes) {
    forall k :: 0 <= k < |w| ==> IsWs(w[k])
  }

  /** The text `t` stands in `b` at offset `i`. */
  ghost predicate At(b: Bytes, i: nat, t: Bytes) {
    i + |t| <= |b| && b[i..i + |t|] == t
  }

  lemma AtConcat(b: Bytes, i: nat, s: Bytes, t: Bytes)
    ensures At(b, i, s + t) <==> At(b, i, s) && At(b, i + |s|, t)
  {
    if i + |s| + |t| <= |b| {
      var whole := b[i..i + |s| + |t|];
      assert whole[..|s|] == b[i..i + |s|];
      assert whole[|s|..] == b[i + |s|..i + |s| + |t|];
      assert (s + t)[..|s|] == s && (s + t)[|s|..] == t;
      assert whole == whole[..|s|] + whole[|s|..];
    }
  }

  lemma AtSlice(b: Bytes, i: nat, t: Bytes)
    requires At(b, i, t)
    ensures i + |t| <= |b| && b[i..i + |t|] == t
  {}

  lemma AtByte(b: Bytes, i: nat, t: Bytes, k: nat)
    requires At(b, i, t) && k < |t|
    ensures i + k < |b| && b[i + k] == t[k]
  {
    assert b[i..i + |t|][k] == t[k];
  }
}
