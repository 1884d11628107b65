/** Byte packing of the toolchain (ai/toolchain-native/aiir_toolchain.c): raw
    file bytes are stored four to a word, little-endian, the last word padded
    with zero bytes, and are recovered by giving the exact byte count. */
module Packing {
  import opened AiirTypes
  import opened Core

  /** The bytes zero-extended to a whole number of words. */
  function Pad4(buf: seq<u8>): (r: seq<u8>)
    ensures |r| % 4 == 0 && |r| == 4 * ((|buf| + 3) / 4)
    ensures r[..|buf|] == buf
    ensures forall k :: |buf| <= k < |r| ==> r[k] == 0
  {
    PadLength(|buf|);
    buf + seq((4 - |buf| % 4) % 4, _ => 0)
  }

  /** n bytes are padded to the next multiple of four. */
  lemma PadLength(n: nat)
    ensures (n + (4 - n % 4) % 4) % 4 == 0
    ensures n + (4 - n % 4) % 4 == 4 * ((n + 3) / 4)
  {
    var q, r := n / 4, n % 4;
    assert n == 4 * q + r && r < 4;
    if r == 0 {
      assert (n + 3) / 4 == q;
    } else if r == 1 {
      assert (4 - r) % 4 == 3 && (n + 3) / 4 == q + 1;
    } else if r == 2 {
      assert (4 - r) % 4 == 2 && (n + 3) / 4 == q + 1;
    } else {
      assert (4 - r) % 4 == 1 && (n + 3) / 4 == q + 1;
    }
  }

  /** The words bytes_to_u32_packed produces. */
  function Packed(buf: seq<u8>): seq<u32>
  {
    DecodeLE(Pad4(buf))
  }

  /** Byte j of the buffer if it has already been ORed in (j < lim), else 0. */
  function ByteSoFar(buf: seq<u8>, j: nat, lim: nat): u8
  {
    if j < lim && j < |buf| then buf[j] else 0
  }

  /** Word k of the packed output after the first `lim` bytes were ORed in. */
  function WordSoFar(buf: seq<u8>, k: nat, lim: nat): u32
  {
    WordOf(ByteSoFar(buf, 4 * k, lim), ByteSoFar(buf, 4 * k + 1, lim),
           ByteSoFar(buf, 4 * k + 2, lim), ByteSoFar(buf, 4 * k + 3, lim))
  }

  /** `(uint32_t)b << (s * 8)` for s < 4. */
  function Shifted(b: u8, s: nat): nat
    requires s < 4
  {
    if s == 0 then b else if s == 1 then b * 0x100 else if s == 2 then b * 0x1_0000 else b * 0x100_0000
  }

  /** The whole output array after the first `lim` bytes were ORed in. */
  function SoFar(buf: seq<u8>, lim: nat): (r: seq<u32>)
    ensures |r| == (|buf| + 3) / 4
  {
    seq((|buf| + 3) / 4, k requires 0 <= k => WordSoFar(buf, k, lim))
  }

  /** ORing byte i in changes word i/4 only, by the shifted byte. */
  lemma SoFarStep(buf: seq<u8>, i: nat, q: nat, r: nat)
    requires i < |buf| && q == i / 4 && r == i % 4
    ensures q < (|buf| + 3) / 4 && r < 4
    ensures SoFar(buf, i)[q] + Shifted(buf[i], r) < U32_MOD
    ensures SoFar(buf, i + 1) == SoFar(buf, i)[q := SoFar(buf, i)[q] + Shifted(buf[i], r)]
  {
    assert i == 4 * q + r;
    OwnWordStep(buf, i, q, r);
    forall k | 0 <= k < (|buf| + 3) / 4 && k != q
      ensures SoFar(buf, i + 1)[k] == SoFar(buf, i)[k]
    {
      OtherWordSame(buf, i, q, r, k);
    }
  }

  /** Byte i = 4q + r enters word q at byte position r. */
  lemma OwnWordStep(buf: seq<u8>, i: nat, q: nat, r: nat)
    requires i < |buf| && i == 4 * q + r && r < 4
    ensures WordSoFar(buf, q, i + 1) == WordSoFar(buf, q, i) + Shifted(buf[i], r)
  {
    var x0, x1, x2, x3 := ByteSoFar(buf, 4 * q, i), ByteSoFar(buf, 4 * q + 1, i), ByteSoFar(buf, 4 * q + 2, i), ByteSoFar(buf, 4 * q + 3, i);
    var y0, y1, y2, y3 := ByteSoFar(buf, 4 * q, i + 1), ByteSoFar(buf, 4 * q + 1, i + 1), ByteSoFar(buf, 4 * q + 2, i + 1), ByteSoFar(buf, 4 * q + 3, i + 1);
    assert WordSoFar(buf, q, i) == WordOf(x0, x1, x2, x3);
    assert WordSoFar(buf, q, i + 1) == WordOf(y0, y1, y2, y3);
    if r == 0 {
      assert x0 == 0 && y0 == buf[i] && y1 == x1 && y2 == x2 && y3 == x3;
      WordOfAdd(x0, x1, x2, x3, y0, y1, y2, y3, 0, buf[i]);
    } else if r == 1 {
      assert x1 == 0 && y1 == buf[i] && y0 == x0 && y2 == x2 && y3 == x3;
      WordOfAdd(x0, x1, x2, x3, y0, y1, y2, y3, 1, buf[i]);
    } else if r == 2 {
      assert x2 == 0 && y2 == buf[i] && y0 == x0 && y1 == x1 && y3 == x3;
      WordOfAdd(x0, x1, x2, x3, y0, y1, y2, y3, 2, buf[i]);
    } else {
      assert x3 == 0 && y3 == buf[i] && y0 == x0 && y1 == x1 && y2 == x2;
      WordOfAdd(x0, x1, x2, x3, y0, y1, y2, y3, 3, buf[i]);
    }
  }

  /** Setting the zero byte r of a word to v adds v shifted by r bytes. */
  lemma WordOfAdd(x0: u8, x1: u8, x2: u8, x3: u8, y0: u8, y1: u8, y2: u8, y3: u8, r: nat, v: u8)
    requires r < 4
    requires if r == 0 then x0 == 0 && y0 == v else y0 == x0
    requires if r == 1 then x1 == 0 && y1 == v else y1 == x1
    requires if r == 2 then x2 == 0 && y2 == v else y2 == x2
    requires if r == 3 then x3 == 0 && y3 == v else y3 == x3
    ensures WordOf(y0, y1, y2, y3) == WordOf(x0, x1, x2, x3) + Shifted(v, r)
  {
  }

  /** Byte i = 4q + r is not among the bytes of any other word k. */
  lemma OtherWordSame(buf: seq<u8>, i: nat, q: nat, r: nat, k: nat)
    requires i == 4 * q + r && r < 4 && k != q
    ensures WordSoFar(buf, k, i + 1) == WordSoFar(buf, k, i)
  {
    if k < q {
      assert 4 * k + 3 < i;
    } else {
      assert 4 * k > i;
    }
  }

  /** Before any byte is ORed in, the array is all zero. */
  lemma SoFarZero(buf: seq<u8>)
    ensures SoFar(buf, 0) == seq((|buf| + 3) / 4, _ => 0)
  {
  }

  /** Once every byte is in, the words are the padded bytes decoded. */
  lemma SoFarDone(buf: seq<u8>)
    ensures SoFar(buf, |buf|) == Packed(buf)
  {
    forall k | 0 <= k < (|buf| + 3) / 4
      ensures SoFar(buf, |buf|)[k] == Packed(buf)[k]
    {
      WordSoFarDone(buf, k);
    }
  }

  /** Word k after all bytes: the padded bytes 4k .. 4k+3 decoded. */
  lemma WordSoFarDone(buf: seq<u8>, k: nat)
    requires k < (|buf| + 3) / 4
    ensures WordSoFar(buf, k, |buf|) == Packed(buf)[k]
  {
    var pad := Pad4(buf);
    assert ByteSoFar(buf, 4 * k, |buf|) == pad[4 * k];
    assert ByteSoFar(buf, 4 * k + 1, |buf|) == pad[4 * k + 1];
    assert ByteSoFar(buf, 4 * k + 2, |buf|) == pad[4 * k + 2];
    assert ByteSoFar(buf, 4 * k + 3, |buf|) == pad[4 * k + 3];
  }

  /** The loop body `w[i/4] |= (uint32_t)buf[i] << ((i%4)*8)`: it ORs
      byte i into its word. */
  method OrByte(w: array<u32>, buf: seq<u8>, i: nat)
    requires i < |buf| && w[..] == SoFar(buf, i)
    modifies w
    ensures w[..] == SoFar(buf, i + 1)
  {
    var q, r := i / 4, i % 4;
    SoFarStep(buf, i, q, r);
    w[q] := w[q] + Shifted(buf[i], r);
    assert w[..] == SoFar(buf, i)[q := SoFar(buf, i)[q] + Shifted(buf[i], r)];
  }

  /** bytes_to_u32_packed: (n+3)/4 words, byte i at bits 8*(i%4) of word i/4.
      The OR into a zeroed word is an addition, since the shifted bytes of one
      word occupy disjoint bits. */
  method BytesToU32Packed(buf: seq<u8>) returns (w: array<u32>)
    ensures w.Length == (|buf| + 3) / 4
    ensures w[..] == Packed(buf)
  {
    var wn := (|buf| + 3) / 4;
    w := new u32[wn](_ => 0);
    SoFarZero(buf);
    var i := 0;
    while i < |buf|
      invariant 0 <= i <= |buf|
      invariant w[..] == SoFar(buf, i)
    {
      OrByte(w, buf, i);
      i := i + 1;
    }
    assert i == |buf|;
    SoFarDone(buf);
  }

  /** u32_packed_to_bytes: byte i is `(w[i/4] >> 8*(i%4)) & 0xff`; it fails as
      soon as an index i < exact_n needs a word past the end. */
  method U32PackedToBytes(w: seq<u32>, exactN: nat) returns (ok: bool, out: array<u8>)
    ensures ok <==> forall i :: 0 <= i < exactN ==> i / 4 < |w|
    ensures ok ==> exactN <= |EncodeLE(w)| && out.Length == exactN && out[..] == EncodeLE(w)[..exactN]
  {
    out := new u8[exactN](_ => 0);
    var i := 0;
    while i < exactN
      invariant 0 <= i <= exactN
      invariant i <= 4 * |w|
      invariant forall k :: 0 <= k < i ==> out[k] == EncodeLE(w)[k]
    {
      var idx := i / 4;
      if idx >= |w| {
        ok := false;
        return;
      }
      out[i] := ByteOf(w[idx], i % 4);
      i := i + 1;
    }
    ok := true;
  }

  /** Unpacking fails exactly when the byte count needs more words than given. */
  lemma UnpackFailsIff(w: seq<u32>, exactN: nat)
    ensures (forall i :: 0 <= i < exactN ==> i / 4 < |w|) <==> exactN <= 4 * |w|
  {
    if exactN > 4 * |w| {
      var i := 4 * |w|;
      assert i < exactN && i / 4 == |w|;
    }
  }

  /** Round trip: the packed words, unpacked with the original byte count,
      give back the original bytes. */
  lemma PackedRoundTrip(buf: seq<u8>)
    ensures |Packed(buf)| == (|buf| + 3) / 4
    ensures |buf| <= |EncodeLE(Packed(buf))| && EncodeLE(Packed(buf))[..|buf|] == buf
  {
    EncodeDecode(Pad4(buf));
  }
}
