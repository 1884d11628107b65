/** The bounded string escaper of the runtime server
    (ai/runtime-server-native/ai_runtime_native.c, json_escape_copy): it
    copies bytes into a fixed-size buffer, escaping the backslash, the double
    quote and the control bytes as a JSON string body, and fails when the
    escaped text and its terminating NUL do not fit. */
module Json {
  import opened AiirTypes

  const BACKSLASH: u8 := 0x5C
  const QUOTE: u8 := 0x22

  /** A lower-case hex digit of a value below 16. */
  function HexDigit(d: nat): u8
    requires d < 16
  {
    if d < 10 then 0x30 + d else 0x61 + (d - 10)
  }

  /** The value of a hex digit the escaper writes. */
  function HexValue(c: u8): nat
  {
    if 0x30 <= c <= 0x39 then c - 0x30 else if 0x61 <= c <= 0x66 then c - 0x61 + 10 else 0
  }

  /** The text one source byte becomes: a two-byte escape for backslash,
      quote, newline, carriage return and tab, `\u00hh` for the other bytes
      below 0x20, the byte itself otherwise. */
  function EscapeByte(c: u8): (r: seq<u8>)
    ensures 1 <= |r| <= 6
  {
    if c == BACKSLASH then [BACKSLASH, BACKSLASH]
    else if c == QUOTE then [BACKSLASH, QUOTE]
    else if c == 0x0A then [BACKSLASH, 0x6E]
    else if c == 0x0D then [BACKSLASH, 0x72]
    else if c == 0x09 then [BACKSLASH, 0x74]
    else if c < 0x20 then [BACKSLASH, 0x75, 0x30, 0x30, HexDigit(c / 16), HexDigit(c % 16)]
    else [c]
  }

  /** Whether json_escape_copy substitutes a replacement text for the byte. */
  predicate HasReplacement(c: u8)
  {
    c == BACKSLASH || c == QUOTE || c < 0x20
  }

  /** The escaped text of the whole source. */
  function Escaped(s: seq<u8>): seq<u8>
  {
    if s == [] then [] else EscapeByte(s[0]) + Escaped(s[1..])
  }

  /** Escaping a concatenation escapes each part. */
  lemma {:induction false} EscapedAppend(a: seq<u8>, b: seq<u8>)
    ensures Escaped(a + b) == Escaped(a) + Escaped(b)
  {
    if a != [] {
      assert (a + b)[1..] == a[1..] + b;
      EscapedAppend(a[1..], b);
    } else {
      assert a + b == b;
    }
  }

  /** Escaping never shortens the text. */
  lemma {:induction false} EscapedLength(s: seq<u8>)
    ensures |s| <= |Escaped(s)| <= 6 * |s|
  {
    if s != [] {
      EscapedLength(s[1..]);
    }
  }

  /** The escaped text holds no control byte: it is a valid JSON string body
      for any source. */
  lemma {:induction false} EscapedHasNoControl(s: seq<u8>)
    ensures forall j :: 0 <= j < |Escaped(s)| ==> Escaped(s)[j] >= 0x20
  {
    if s != [] {
      EscapedHasNoControl(s[1..]);
      var e := EscapeByte(s[0]);
      assert forall j :: 0 <= j < |e| ==> e[j] >= 0x20;
    }
  }

  /** A JSON string body decoder for the escapes the escaper writes. */
  function Unescape(t: seq<u8>): seq<u8>
    decreases |t|
  {
    if t == [] then []
    else if t[0] == BACKSLASH && |t| >= 6 && t[1] == 0x75 then
      var v := ((HexValue(t[2]) * 16 + HexValue(t[3])) * 16 + HexValue(t[4])) * 16 + HexValue(t[5]);
      [(v % 256) as u8] + Unescape(t[6..])
    else if t[0] == BACKSLASH && |t| >= 2 then
      var c := t[1];
      [if c == 0x6E then 0x0A else if c == 0x72 then 0x0D else if c == 0x74 then 0x09 else c] + Unescape(t[2..])
    else [t[0]] + Unescape(t[1..])
  }

  /** Decoding undoes one escaped byte. */
  lemma UnescapeStep(c: u8, rest: seq<u8>)
    ensures Unescape(EscapeByte(c) + rest) == [c] + Unescape(rest)
  {
    var e := EscapeByte(c);
    var t := e + rest;
    if c < 0x20 && c != 0x0A && c != 0x0D && c != 0x09 {
      UnescapeHex(c, rest);
    } else if HasReplacement(c) || c == 0x0A || c == 0x0D || c == 0x09 {
      assert |e| == 2 && t[0] == BACKSLASH && t[1] != 0x75;
      assert t[2..] == rest;
    } else {
      assert e == [c] && t[0] != BACKSLASH;
      assert t[1..] == rest;
    }
  }

  /** Decoding undoes a `\u00hh` escape. */
  lemma UnescapeHex(c: u8, rest: seq<u8>)
    requires c < 0x20 && c != 0x0A && c != 0x0D && c != 0x09
    ensures Unescape(EscapeByte(c) + rest) == [c] + Unescape(rest)
  {
    var hi, lo := c / 16, c % 16;
    var dh, dl := HexDigit(hi), HexDigit(lo);
    var e := [BACKSLASH, 0x75, 0x30, 0x30, dh, dl];
    assert EscapeByte(c) == e;
    var t := e + rest;
    HexDigitValue(hi);
    HexDigitValue(lo);
    assert t[2] == 0x30 && t[3] == 0x30 && t[4] == dh && t[5] == dl && t[6..] == rest;
    var v := ((HexValue(t[2]) * 16 + HexValue(t[3])) * 16 + HexValue(t[4])) * 16 + HexValue(t[5]);
    assert v == hi * 16 + lo == c;
  }

  /** Reading back a hex digit. */
  lemma HexDigitValue(d: nat)
    requires d < 16
    ensures HexValue(HexDigit(d)) == d
  {
  }

  /** One more source byte appends its escape; the prefix's escape is never
      longer than the whole's. */
  lemma EscapedPrefix(s: seq<u8>, i: nat)
    requires i < |s|
    ensures Escaped(s[..i + 1]) == Escaped(s[..i]) + EscapeByte(s[i])
    ensures |Escaped(s[..i + 1])| <= |Escaped(s)|
  {
    assert s[..i + 1] == s[..i] + [s[i]];
    EscapedAppend(s[..i], [s[i]]);
    assert Escaped([s[i]]) == EscapeByte(s[i]) + Escaped([]);
    assert s == s[..i + 1] + s[i + 1..];
    EscapedAppend(s[..i + 1], s[i + 1..]);
  }

  /** Decoding the escaped text gives back the source. */
  lemma {:induction false} UnescapeEscaped(s: seq<u8>)
    ensures Unescape(Escaped(s)) == s
  {
    if s != [] {
      UnescapeStep(s[0], Escaped(s[1..]));
      UnescapeEscaped(s[1..]);
    }
  }

  /** memcpy(dst + at, rep, |rep|). */
  method PutBytes(dst: array<u8>, at: nat, rep: seq<u8>)
    requires at + |rep| <= dst.Length
    modifies dst
    ensures dst[..at] == old(dst[..at])
    ensures dst[at..at + |rep|] == rep
  {
    var k := 0;
    while k < |rep|
      invariant 0 <= k <= |rep|
      invariant forall m :: 0 <= m < at ==> dst[m] == old(dst[m])
      invariant forall m :: 0 <= m < k ==> dst[at + m] == rep[m]
    {
      dst[at + k] := rep[k];
      k := k + 1;
    }
  }

  /** The write of one source byte at cursor w: its replacement text when
      it has one, the byte itself otherwise. */
  method WriteEscaped(dst: array<u8>, w: nat, c: u8)
    requires w + |EscapeByte(c)| <= dst.Length
    modifies dst
    ensures dst[..w + |EscapeByte(c)|] == old(dst[..w]) + EscapeByte(c)
  {
    var rep := EscapeByte(c);
    if HasReplacement(c) {
      PutBytes(dst, w, rep);
    } else {
      dst[w] := c;
    }
    assert dst[..w + |rep|] == dst[..w] + dst[w..w + |rep|];
  }

  /** json_escape_copy into a buffer of dst.Length bytes: it succeeds exactly
      when the escaped text is shorter than the buffer, and then the buffer
      starts with the escaped text and its NUL and dstLen is its length. */
  method JsonEscapeCopy(src: seq<u8>, dst: array<u8>) returns (ok: bool, dstLen: nat)
    modifies dst
    ensures ok <==> |Escaped(src)| < dst.Length
    ensures ok ==> dstLen == |Escaped(src)| && dst[..dstLen] == Escaped(src) && dst[dstLen] == 0
  {
    var w := 0;
    var i := 0;
    while i < |src|
      invariant 0 <= i <= |src|
      invariant w <= dst.Length && w == |Escaped(src[..i])|
      invariant dst[..w] == Escaped(src[..i])
    {
      var c := src[i];
      EscapedPrefix(src, i);
      var rl := |EscapeByte(c)|;
      if w + rl >= dst.Length {
        return false, 0;
      }
      WriteEscaped(dst, w, c);
      w := w + rl;
      i := i + 1;
    }
    assert src[..i] == src;
    if w >= dst.Length {
      return false, 0;
    }
    dst[w] := 0;
    assert dst[..w] == Escaped(src);
    ok, dstLen := true, w;
  }
}
