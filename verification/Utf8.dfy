/** UTF-8 by the syntax of RFC 3629, section 4, and where a string may be cut. */
module Utf8 {
  import opened JsonBytes

  predicate IsTail(c: byte) {
    0x80 <= c < 0xC0
  }

  predicate TailsAt(b: Bytes, i: nat, n: nat) {
    i + n <= |b| && forall k :: i <= k < i + n ==> IsTail(b[k])
  }

  /** The length of the encoded character at `i`; 0 when there is none. */
  function CharLength(b: Bytes, i: nat): (n: nat)
    ensures n > 0 ==> i + n <= |b| && !IsTail(b[i]) && (n == 1 <==> b[i] < 0x80)
    ensures forall k :: i < k < i + n ==> k < |b| && IsTail(b[k])
  {
    if i >= |b| then 0
    else
      var c := b[i];
      if c < 0x80 then 1
      else if 0xC2 <= c <= 0xDF then if TailsAt(b, i + 1, 1) then 2 else 0
      else if 0xE0 <= c <= 0xEF then
        if TailsAt(b, i + 1, 2) && (c == 0xE0 ==> b[i + 1] >= 0xA0) && (c == 0xED ==> b[i + 1] < 0xA0) then 3 else 0
      else if 0xF0 <= c <= 0xF4 then
        if TailsAt(b, i + 1, 3) && (c == 0xF0 ==> b[i + 1] >= 0x90) && (c == 0xF4 ==> b[i + 1] < 0x90) then 4 else 0
      else 0
  }

  predicate ValidFrom(b: Bytes, i: nat)
    requires i <= |b|
    decreases |b| - i
  {
    i == |b| || (CharLength(b, i) > 0 && ValidFrom(b, i + CharLength(b, i)))
  }

  predicate ValidUtf8(b: Bytes) {
    ValidFrom(b, 0)
  }

  /** `str::is_char_boundary`: slicing anywhere else panics. */
  predicate IsBoundary(b: Bytes, i: nat) {
    i == 0 || i == |b| || (i < |b| && !IsTail(b[i]))
  }

  /** A position with an ASCII byte on one of its sides, or the end of the text. */
  predicate IsAsciiEdge(b: Bytes, i: nat) {
    i == |b| || (i < |b| && b[i] < 0x80) || (0 < i < |b| && b[i - 1] < 0x80)
  }

  lemma {:induction false} AfterAscii(b: Bytes, i: nat, k: nat)
    requires i <= k < |b| && ValidFrom(b, i) && b[k] < 0x80
    ensures IsBoundary(b, k + 1)
    decreases k - i
  {
    var n := CharLength(b, i);
    if k == i {
      assert k + 1 == |b| || CharLength(b, k + 1) > 0;
    } else {
      AfterAscii(b, i + n, k);
    }
  }

  lemma AsciiEdgeIsBoundary(b: Bytes, i: nat)
    requires ValidUtf8(b) && IsAsciiEdge(b, i)
    ensures IsBoundary(b, i)
  {
    if 0 < i < |b| && b[i - 1] < 0x80 {
      AfterAscii(b, 0, i - 1);
    }
  }
}
