/** The scanner as llama-proxy/src/fixes/json_scan.rs runs it: byte-index loops
    and vectors pushed to in place, each proved against JsonScanSpec. */
module JsonScan {
  import opened Options
  import opened JsonBytes
  import Spec = JsonScanSpec

  type KeySpan = Spec.KeySpan
  type Decoder = Spec.Decoder

  method SkipWs(b: Bytes, start: nat) returns (i: nat)
    ensures i == Spec.SkipWs(b, start)
  {
    i := start;
    while i < |b| && IsWs(b[i])
      invariant Spec.SkipWs(b, i) == Spec.SkipWs(b, start)
      decreases |b| - i
    {
      i := i + 1;
    }
  }

  method ScanString(b: Bytes, i: nat) returns (r: Option<nat>)
    ensures r == Spec.ScanString(b, i)
  {
    var j := i + 1;
    while j < |b|
      invariant Spec.StringEnd(b, j) == Spec.ScanString(b, i)
      decreases |b| - j
    {
      if b[j] == BACKSLASH {
        j := j + 2;
      } else if b[j] == QUOTE {
        return Some(j + 1);
      } else if b[j] < 0x20 {
        return None;
      } else {
        j := j + 1;
      }
    }
    return None;
  }

  /** The bracket counter never outruns the bytes read, so the source's `i32`
      cannot overflow on a text shorter than 2^31 bytes. */
  method ScanValue(b: Bytes, i: nat) returns (r: Option<nat>)
    ensures r == Spec.ScanValue(b, i)
  {
    if i >= |b| {
      return None;
    }
    if b[i] == QUOTE {
      r := ScanString(b, i);
    } else if IsOpener(b[i]) {
      var depth := 0;
      var j := i;
      while j < |b|
        invariant i <= j <= |b|
        invariant 0 <= depth <= j - i
        invariant Spec.NestEnd(b, j, depth) == Spec.NestEnd(b, i, 0)
        decreases |b| - j
      {
        if b[j] == QUOTE {
          var k := ScanString(b, j);
          if k.None? {
            return None;
          }
          j := k.value;
          continue;
        } else if IsOpener(b[j]) {
          depth := depth + 1;
        } else if IsCloser(b[j]) {
          depth := depth - 1;
        }
        if depth == 0 {
          return Some(j + 1);
        } else if depth < 0 {
          return None;
        }
        j := j + 1;
      }
      return None;
    } else {
      var j := i;
      while j < |b| && !IsDelimiter(b[j])
        invariant Spec.LiteralEnd(b, j) == Spec.LiteralEnd(b, i)
        decreases |b| - j
      {
        j := j + 1;
      }
      return Some(j);
    }
  }

  /** One entry: its decoded key and the offset past its value. */
  method ScanEntry(dec: Decoder, b: Bytes, i: nat) returns (r: Option<(Bytes, nat)>)
    ensures r == match Spec.ScanEntry(b, i)
                 case None => None
                 case Some(e) =>
                   match Spec.DecodeToken(dec, e.token)
                   case None => None
                   case Some(k) => Some((k, e.span.valueEnd))
  {
    hide Spec.SkipWs, Spec.ScanString, Spec.ScanValue;
    if i >= |b| || b[i] != QUOTE {
      return None;
    }
    var afterKey := ScanString(b, i);
    if afterKey.None? {
      return None;
    }
    var j := SkipWs(b, afterKey.value);
    if j >= |b| || b[j] != COLON {
      return None;
    }
    j := SkipWs(b, j + 1);
    var valueEnd := ScanValue(b, j);
    if valueEnd.None? {
      return None;
    }
    var token := b[i..afterKey.value];
    var inner := token[1..|token| - 1];
    if BACKSLASH in inner {
      var key := dec(token);
      if key.None? {
        return None;
      }
      return Some((key.value, valueEnd.value));
    }
    return Some((inner, valueEnd.value));
  }

  // ---------- what one loop round of a walker does to its answer ----------

  ghost function Prepend<T>(xs: seq<T>, r: Option<seq<T>>): Option<seq<T>> {
    if r.None? then None else Some(xs + r.value)
  }

  lemma PrependNothing<T>(r: Option<seq<T>>)
    ensures Prepend([], r) == r
  {
    if r.Some? {
      assert [] + r.value == r.value;
    }
  }

  lemma PrependToNothing<T>(xs: seq<T>)
    ensures Prepend(xs, Some([])) == Some(xs) && Prepend(xs, None) == None
  {
    assert xs + [] == xs;
  }

  lemma PrependAssociates<T>(xs: seq<T>, ys: seq<T>, r: Option<seq<T>>)
    ensures Prepend(xs, Prepend(ys, r)) == Prepend(xs + ys, r)
  {
    if r.Some? {
      assert xs + (ys + r.value) == (xs + ys) + r.value;
    }
  }

  lemma SpansCons(dec: Decoder, e: Spec.Entry, t: Spec.Trail, key: Bytes)
    ensures Spec.SpansOf(dec, Spec.Cons(e, t), key)
         == Prepend(if Spec.IsHit(dec, e, key) then [e.span] else [], Spec.SpansOf(dec, t, key))
  {
    Spec.HitsCons(dec, e, t.entries, key);
  }

  lemma KeysCons(dec: Decoder, e: Spec.Entry, t: Spec.Trail)
    ensures Spec.KeysOf(dec, Spec.Cons(e, t))
         == match Spec.DecodeToken(dec, e.token)
            case None => None
            case Some(k) => Prepend([k], Spec.KeysOf(dec, t))
  {
    Spec.DecodedCons(dec, e, t.entries);
  }

  /** The span walker's answer, at key position `i` with `out` collected. */
  ghost function SpansFrom(dec: Decoder, b: Bytes, i: nat, key: Bytes, out: seq<KeySpan>): Option<seq<KeySpan>> {
    Prepend(out, Spec.SpansOf(dec, Spec.Walk(b, i), key))
  }

  /** The key walker's answer, at key position `i` with `out` collected. */
  ghost function KeysFrom(dec: Decoder, b: Bytes, i: nat, out: seq<Bytes>): Option<seq<Bytes>> {
    Prepend(out, Spec.KeysOf(dec, Spec.Walk(b, i)))
  }

  lemma SpansStart(dec: Decoder, b: Bytes, key: Bytes)
    ensures var i := Spec.SkipWs(b, 0);
            var j := Spec.SkipWs(b, i + 1);
            Spec.SpansOf(dec, Spec.WalkRoot(b), key) ==
              if i >= |b| || b[i] != OPEN_BRACE || j >= |b| then None
              else if b[j] == CLOSE_BRACE then Some([])
              else SpansFrom(dec, b, j, key, [])
  {
    var j := Spec.SkipWs(b, Spec.SkipWs(b, 0) + 1);
    PrependNothing(Spec.SpansOf(dec, Spec.Walk(b, j), key));
  }

  lemma KeysStart(dec: Decoder, b: Bytes)
    ensures var i := Spec.SkipWs(b, 0);
            var j := Spec.SkipWs(b, i + 1);
            Spec.KeysOf(dec, Spec.WalkRoot(b)) ==
              if i >= |b| || b[i] != OPEN_BRACE || j >= |b| then None
              else if b[j] == CLOSE_BRACE then Some([])
              else KeysFrom(dec, b, j, [])
  {
    var j := Spec.SkipWs(b, Spec.SkipWs(b, 0) + 1);
    PrependNothing(Spec.KeysOf(dec, Spec.Walk(b, j)));
  }

  // ---------- walkers ----------

  method ScanSpans(dec: Decoder, b: Bytes, key: Bytes) returns (r: Option<seq<KeySpan>>)
    ensures r == Spec.SpansOf(dec, Spec.WalkRoot(b), key)
  {
    hide Spec.SkipWs, Spec.ScanString, Spec.ScanValue, Spec.WalkRoot, Spec.SpansOf, SpansFrom;
    hide Spec.Walk, Spec.WalkOn, Prepend, IsWs, IsDelimiter, Spec.IsHit, Spec.ScanEntry;
    SpansStart(dec, b, key);
    var i := SkipWs(b, 0);
    if i >= |b| || b[i] != OPEN_BRACE {
      return None;
    }
    var out: seq<KeySpan> := [];
    i := SkipWs(b, i + 1);
    if i >= |b| {
      return None;
    }
    if b[i] == CLOSE_BRACE {
      return Some(out);
    }
    while true
      invariant Spec.SpansOf(dec, Spec.WalkRoot(b), key) == SpansFrom(dec, b, i, key, out)
      decreases |b| - i
    {
      if i >= |b| || b[i] != QUOTE {
        SpansStop(dec, b, i, key, out);
        return None;
      }
      var keyStart := i;
      var afterKey := ScanString(b, i);
      if afterKey.None? {
        SpansStop(dec, b, i, key, out);
        return None;
      }
      var j := SkipWs(b, afterKey.value);
      if j >= |b| || b[j] != COLON {
        SpansStop(dec, b, i, key, out);
        return None;
      }
      j := SkipWs(b, j + 1);
      var valueEnd := ScanValue(b, j);
      if valueEnd.None? {
        SpansStop(dec, b, i, key, out);
        return None;
      }
      var token := b[keyStart..afterKey.value];
      var inner := token[1..|token| - 1];
      var hit := if BACKSLASH in inner then dec(token) == Some(key) else inner == key;
      var span := Spec.KeySpan(keyStart, afterKey.value, j, valueEnd.value);
      Spec.EntryFrom(b, keyStart, afterKey.value, Spec.SkipWs(b, afterKey.value), j, valueEnd.value);
      HitMeans(dec, Spec.Entry(token, span), key);
      SpansRound(dec, b, i, key, out, Spec.Entry(token, span));
      i := SkipWs(b, valueEnd.value);
      if hit {
        out := out + [span];
      }
      if i >= |b| {
        return None;
      } else if b[i] == COMMA {
        i := SkipWs(b, i + 1);
      } else if b[i] == CLOSE_BRACE {
        return Some(out);
      } else {
        return None;
      }
    }
  }

  lemma SpansStop(dec: Decoder, b: Bytes, i: nat, key: Bytes, out: seq<KeySpan>)
    requires Spec.LacksEntry(b, i)
    ensures SpansFrom(dec, b, i, key, out) == None
  {
    Spec.NoEntry(b, i);
  }

  lemma HitMeans(dec: Decoder, e: Spec.Entry, key: Bytes)
    ensures var inner := e.token[1..|e.token| - 1];
            Spec.IsHit(dec, e, key) == if BACKSLASH in inner then dec(e.token) == Some(key) else inner == key
  {}

  lemma SpansRound(dec: Decoder, b: Bytes, i: nat, key: Bytes, out: seq<KeySpan>, e: Spec.Entry)
    requires Spec.ScanEntry(b, i) == Some(e)
    ensures SpansFrom(dec, b, i, key, out) ==
            var k := Spec.SkipWs(b, e.span.valueEnd);
            var now := if Spec.IsHit(dec, e, key) then out + [e.span] else out;
            if k >= |b| then None
            else if b[k] == COMMA then SpansFrom(dec, b, Spec.SkipWs(b, k + 1), key, now)
            else if b[k] == CLOSE_BRACE then Some(now)
            else None
  {
    hide Spec.ScanEntry, Spec.SkipWs, Spec.Hits, Spec.IsHit, Prepend;
    var t := Spec.WalkOn(b, e.span.valueEnd);
    var hit := if Spec.IsHit(dec, e, key) then [e.span] else [];
    SpansCons(dec, e, t, key);
    PrependAssociates(out, hit, Spec.SpansOf(dec, t, key));
    Spec.NoHits(dec, key);
    PrependToNothing(out + hit);
    assert out + [] == out;
  }

  method TopLevelKeySpans(dec: Decoder, b: Bytes, key: Bytes) returns (spans: seq<KeySpan>)
    ensures spans == Spec.TopLevelSpans(dec, b, key)
  {
    var r := ScanSpans(dec, b, key);
    return match r case None => [] case Some(s) => s;
  }

  method Depth1Keys(dec: Decoder, b: Bytes) returns (r: Option<seq<Bytes>>)
    ensures r == Spec.KeysOf(dec, Spec.WalkRoot(b))
  {
    hide Spec.ScanEntry, Spec.Walk, Spec.WalkOn, Spec.WalkRoot, Spec.KeysOf, KeysFrom;
    KeysStart(dec, b);
    var i := SkipWs(b, 0);
    if i >= |b| || b[i] != OPEN_BRACE {
      return None;
    }
    var out: seq<Bytes> := [];
    i := SkipWs(b, i + 1);
    if i >= |b| {
      return None;
    }
    if b[i] == CLOSE_BRACE {
      return Some(out);
    }
    while true
      invariant Spec.KeysOf(dec, Spec.WalkRoot(b)) == KeysFrom(dec, b, i, out)
      decreases |b| - i
    {
      KeysRound(dec, b, i, out);
      var entry := ScanEntry(dec, b, i);
      if entry.None? {
        return None;
      }
      var (key, afterEntry) := entry.value;
      out := out + [key];
      i := SkipWs(b, afterEntry);
      if i >= |b| {
        return None;
      } else if b[i] == COMMA {
        i := SkipWs(b, i + 1);
      } else if b[i] == CLOSE_BRACE {
        return Some(out);
      } else {
        return None;
      }
    }
  }

  lemma KeysRound(dec: Decoder, b: Bytes, i: nat, out: seq<Bytes>)
    ensures KeysFrom(dec, b, i, out) ==
            match Spec.ScanEntry(b, i)
            case None => None
            case Some(e) =>
              match Spec.DecodeToken(dec, e.token)
              case None => None
              case Some(key) =>
                var k := Spec.SkipWs(b, e.span.valueEnd);
                if k >= |b| then None
                else if b[k] == COMMA then KeysFrom(dec, b, Spec.SkipWs(b, k + 1), out + [key])
                else if b[k] == CLOSE_BRACE then Some(out + [key])
                else None
  {
    hide Spec.ScanEntry, Spec.SkipWs, Spec.DecodeToken, Spec.DecodedPrefix, Prepend;
    var entry := Spec.ScanEntry(b, i);
    PrependToNothing(out);
    if entry.Some? {
      var e := entry.value;
      var t := Spec.WalkOn(b, e.span.valueEnd);
      KeysCons(dec, e, t);
      Spec.NoKeys(dec);
      var key := Spec.DecodeToken(dec, e.token);
      if key.Some? {
        PrependAssociates(out, [key.value], Spec.KeysOf(dec, t));
        PrependToNothing(out + [key.value]);
      }
    }
  }

  method KeysAfter(dec: Decoder, b: Bytes, from: nat) returns (out: seq<Bytes>)
    ensures out == Spec.KeysAfter(dec, b, from)
  {
    hide Spec.ScanEntry, Spec.KeysAfter;
    out := [];
    var i := from;
    while true
      invariant Spec.KeysAfter(dec, b, from) == out + Spec.KeysAfter(dec, b, i)
      decreases |b| - i
    {
      KeysAfterRound(dec, b, i, out);
      i := SkipWs(b, i);
      if i >= |b| || b[i] != COMMA {
        return;
      }
      i := SkipWs(b, i + 1);
      var entry := ScanEntry(dec, b, i);
      if entry.None? {
        return;
      }
      var (key, afterEntry) := entry.value;
      out := out + [key];
      i := afterEntry;
    }
  }

  lemma KeysAfterRound(dec: Decoder, b: Bytes, from: nat, out: seq<Bytes>)
    ensures var c := Spec.SkipWs(b, from);
            out + Spec.KeysAfter(dec, b, from) ==
              if c >= |b| || b[c] != COMMA then out
              else
                match Spec.ScanEntry(b, Spec.SkipWs(b, c + 1))
                case None => out
                case Some(e) =>
                  match Spec.DecodeToken(dec, e.token)
                  case None => out
                  case Some(key) => (out + [key]) + Spec.KeysAfter(dec, b, e.span.valueEnd)
  {
    hide Spec.ScanEntry, Spec.SkipWs, Spec.DecodeToken, Spec.DecodedPrefix;
    var c := Spec.SkipWs(b, from);
    assert out + [] == out;
    Spec.NoKeys(dec);
    if c < |b| && b[c] == COMMA {
      var entry := Spec.ScanEntry(b, Spec.SkipWs(b, c + 1));
      if entry.Some? {
        var e := entry.value;
        var es := Spec.WalkOn(b, e.span.valueEnd).entries;
        assert Spec.WalkOn(b, from).entries == [e] + es;
        Spec.DecodedCons(dec, e, es);
        var key := Spec.DecodeToken(dec, e.token);
        if key.Some? {
          assert out + ([key.value] + Spec.DecodedPrefix(dec, es)) == (out + [key.value]) + Spec.DecodedPrefix(dec, es);
        }
      } else {
        assert Spec.WalkOn(b, from).entries == [];
      }
    } else {
      assert Spec.WalkOn(b, from).entries == [];
    }
  }
}
