/** The word codec and the hash of the native core (ai/native-core/aiir_core.c):
    FNV-1a over bytes, and the little-endian byte <-> word transformation used
    when containers are read from and written to disk. */
module Core {
  import opened AiirTypes

  const FNV_OFFSET: bv32 := 0x811c9dc5
  const FNV_PRIME: bv32 := 0x01000193

  /** One FNV-1a round: xor a value into the accumulator, then multiply by the
      FNV prime modulo 2^32 (bv32 arithmetic wraps exactly like uint32_t). */
  function Round(h: bv32, x: u32): bv32
  {
    (h ^ (x as bv32)) * FNV_PRIME
  }

  /** The FNV-1a fold over a byte sequence, starting from accumulator `h`. */
  function FnvFrom(h: bv32, s: seq<u8>): bv32
    decreases |s|
  {
    if s == [] then h else FnvFrom(Round(h, s[0]), s[1..])
  }

  /** The 32-bit FNV-1a hash of a byte sequence. */
  function Fnv(s: seq<u8>): u32
  {
    FnvFrom(FNV_OFFSET, s) as int
  }

  /** Hashing a concatenation continues the fold from the hash state of the
      first part: the hash can be computed incrementally. */
  lemma {:induction false} FnvAppend(h: bv32, a: seq<u8>, b: seq<u8>)
    ensures FnvFrom(h, a + b) == FnvFrom(FnvFrom(h, a), b)
    decreases |a|
  {
    if a == [] {
      assert a + b == b;
    } else {
      assert (a + b)[0] == a[0];
      assert (a + b)[1..] == a[1..] + b;
      FnvAppend(Round(h, a[0]), a[1..], b);
    }
  }

  /** Appending one byte is one more round. */
  lemma FnvSnoc(h: bv32, s: seq<u8>, b: u8)
    ensures FnvFrom(h, s + [b]) == Round(FnvFrom(h, s), b)
  {
    FnvAppend(h, s, [b]);
    assert [b][1..] == [];
  }

  /** The hash of the empty buffer is the FNV offset basis. */
  lemma FnvEmpty()
    ensures Fnv([]) == 0x811c9dc5
  {
  }

  /** aiir_fnv1a32 (the toolchain's fnv1a32 is the same loop). */
  method Fnv1a32(buf: seq<u8>) returns (h: u32)
    ensures h == Fnv(buf)
  {
    var acc: bv32 := FNV_OFFSET;
    var i := 0;
    while i < |buf|
      invariant 0 <= i <= |buf|
      invariant acc == FnvFrom(FNV_OFFSET, buf[..i])
    {
      FnvSnoc(FNV_OFFSET, buf[..i], buf[i]);
      assert buf[..i + 1] == buf[..i] + [buf[i]];
      acc := Round(acc, buf[i]);
      i := i + 1;
    }
    assert buf[..i] == buf;
    h := acc as int;
  }

  // ---------------------------------------------------------------------
  // Little-endian words

  /** The word whose little-endian bytes are b0, b1, b2, b3.  The source ORs
      the bytes shifted by 0, 8, 16 and 24 bits; as the shifted bytes occupy
      disjoint bits, the OR is this sum. */
  function WordOf(b0: u8, b1: u8, b2: u8, b3: u8): u32
  {
    b0 + 0x100 * b1 + 0x1_0000 * b2 + 0x100_0000 * b3
  }

  /** Byte j (0 = least significant) of a word: `(x >> 8j) & 0xff`. */
  function ByteOf(x: u32, j: nat): u8
    requires j < 4
  {
    (if j == 0 then x
     else if j == 1 then x / 0x100
     else if j == 2 then x / 0x1_0000
     else x / 0x100_0000) % 0x100
  }

  /** Decoding: word i is made of raw bytes 4i .. 4i+3. */
  function DecodeLE(raw: seq<u8>): (r: seq<u32>)
    requires |raw| % 4 == 0
    ensures 4 * |r| == |raw|
  {
    seq(|raw| / 4, i requires 0 <= i < |raw| / 4 =>
      WordOf(raw[4 * i], raw[4 * i + 1], raw[4 * i + 2], raw[4 * i + 3]))
  }

  /** Encoding: every word becomes its four little-endian bytes. */
  function EncodeLE(w: seq<u32>): seq<u8>
  {
    seq(4 * |w|, k requires 0 <= k < 4 * |w| => ByteOf(w[k / 4], k % 4))
  }

  lemma WordOfBytes(x: u32)
    ensures WordOf(ByteOf(x, 0), ByteOf(x, 1), ByteOf(x, 2), ByteOf(x, 3)) == x
  {
    var q1 := x / 0x100;
    var q2 := q1 / 0x100;
    var q3 := q2 / 0x100;
    assert x == 0x100 * q1 + x % 0x100;
    assert q1 == 0x100 * q2 + q1 % 0x100;
    assert q2 == 0x100 * q3 + q2 % 0x100;
    assert q3 < 0x100;
    assert x / 0x1_0000 == q2;
    assert x / 0x100_0000 == q3;
  }

  lemma BytesOfWord(b0: u8, b1: u8, b2: u8, b3: u8)
    ensures var x := WordOf(b0, b1, b2, b3);
      ByteOf(x, 0) == b0 && ByteOf(x, 1) == b1 && ByteOf(x, 2) == b2 && ByteOf(x, 3) == b3
  {
    var x := WordOf(b0, b1, b2, b3);
    assert x / 0x100 == b1 + 0x100 * b2 + 0x1_0000 * b3;
    assert x / 0x1_0000 == b2 + 0x100 * b3;
    assert x / 0x100_0000 == b3;
  }

  /** The encoded length is four bytes per word. */
  lemma EncodeLength(w: seq<u32>)
    ensures |EncodeLE(w)| == 4 * |w| && |EncodeLE(w)| % 4 == 0
  {
  }

  /** Decoding the bytes the writer produced returns the original words. */
  lemma DecodeEncode(w: seq<u32>)
    ensures |EncodeLE(w)| % 4 == 0 && DecodeLE(EncodeLE(w)) == w
  {
    forall i | 0 <= i < |w|
      ensures DecodeLE(EncodeLE(w))[i] == w[i]
    {
      DecodeEncodeAt(w, i);
    }
  }

  /** Byte j of word i sits at 4i + j of the encoding. */
  lemma EncodeAt(w: seq<u32>, i: nat, j: nat)
    requires i < |w| && j < 4
    ensures |EncodeLE(w)| == 4 * |w| && EncodeLE(w)[4 * i + j] == ByteOf(w[i], j)
  {
    var k := 4 * i + j;
    assert k / 4 == i && k % 4 == j;
  }

  /** The four bytes of word i in the encoding. */
  lemma EncodeWordAt(w: seq<u32>, i: nat)
    requires i < |w|
    ensures var b := EncodeLE(w);
      |b| == 4 * |w| && b[4 * i] == ByteOf(w[i], 0) && b[4 * i + 1] == ByteOf(w[i], 1) &&
      b[4 * i + 2] == ByteOf(w[i], 2) && b[4 * i + 3] == ByteOf(w[i], 3)
  {
    EncodeAt(w, i, 0);
    assert 4 * i + 0 == 4 * i;
    EncodeAt(w, i, 1);
    EncodeAt(w, i, 2);
    EncodeAt(w, i, 3);
  }

  /** Word i of a decoding is made of bytes 4i .. 4i+3. */
  lemma DecodeAt(raw: seq<u8>, i: nat)
    requires |raw| % 4 == 0 && 4 * i + 3 < |raw|
    ensures i < |DecodeLE(raw)| && DecodeLE(raw)[i] == WordOf(raw[4 * i], raw[4 * i + 1], raw[4 * i + 2], raw[4 * i + 3])
  {
  }

  /** A word is rebuilt from its four bytes. */
  lemma WordOfItsBytes(x: u32, b0: u8, b1: u8, b2: u8, b3: u8)
    requires b0 == ByteOf(x, 0) && b1 == ByteOf(x, 1) && b2 == ByteOf(x, 2) && b3 == ByteOf(x, 3)
    ensures WordOf(b0, b1, b2, b3) == x
  {
    WordOfBytes(x);
  }

  /** Word i of the decoded bytes is word i of the input. */
  lemma DecodeEncodeAt(w: seq<u32>, i: nat)
    requires i < |w|
    ensures |EncodeLE(w)| == 4 * |w| && DecodeLE(EncodeLE(w))[i] == w[i]
  {
    var b := EncodeLE(w);
    EncodeWordAt(w, i);
    DecodeAt(b, i);
    WordOfItsBytes(w[i], b[4 * i], b[4 * i + 1], b[4 * i + 2], b[4 * i + 3]);
  }

  /** Encoding decoded bytes gives the bytes back: the two directions together
      make the codec a bijection between word sequences and byte sequences
      whose length is a multiple of four. */
  lemma EncodeDecode(raw: seq<u8>)
    requires |raw| % 4 == 0
    ensures EncodeLE(DecodeLE(raw)) == raw
  {
    var w := DecodeLE(raw);
    forall k | 0 <= k < |raw|
      ensures EncodeLE(w)[k] == raw[k]
    {
      EncodeDecodeAt(raw, k);
    }
  }

  /** Byte k of the re-encoded words is byte k of the raw input. */
  lemma EncodeDecodeAt(raw: seq<u8>, k: nat)
    requires |raw| % 4 == 0 && k < |raw|
    ensures |EncodeLE(DecodeLE(raw))| == |raw| && EncodeLE(DecodeLE(raw))[k] == raw[k]
  {
    var i, j := k / 4, k % 4;
    assert k == 4 * i + j && j < 4;
    var w := DecodeLE(raw);
    var b0, b1, b2, b3 := raw[4 * i], raw[4 * i + 1], raw[4 * i + 2], raw[4 * i + 3];
    assert w[i] == WordOf(b0, b1, b2, b3);
    BytesOfWord(b0, b1, b2, b3);
    assert EncodeLE(w)[k] == ByteOf(w[i], j);
    if j == 0 {
      assert raw[k] == b0;
    } else if j == 1 {
      assert raw[k] == b1;
    } else if j == 2 {
      assert raw[k] == b2;
    } else {
      assert raw[k] == b3;
    }
  }

  lemma EncodeSnoc(w: seq<u32>, x: u32)
    ensures EncodeLE(w + [x]) == EncodeLE(w) + [ByteOf(x, 0), ByteOf(x, 1), ByteOf(x, 2), ByteOf(x, 3)]
  {
    var lhs := EncodeLE(w + [x]);
    var rhs := EncodeLE(w) + [ByteOf(x, 0), ByteOf(x, 1), ByteOf(x, 2), ByteOf(x, 3)];
    forall k | 0 <= k < 4 * |w| + 4
      ensures lhs[k] == rhs[k]
    {
      if k < 4 * |w| {
        assert (w + [x])[k / 4] == w[k / 4];
      } else {
        assert k / 4 == |w|;
      }
    }
  }

  /** The decoding loop of aiir_load_u32, applied to the bytes that were read
      from the file: it fails iff the byte count is not a multiple of four. */
  method LoadU32(raw: seq<u8>) returns (ok: bool, w: array<u32>)
    ensures ok <==> |raw| % 4 == 0
    ensures ok ==> w.Length == |raw| / 4 && w[..] == DecodeLE(raw)
  {
    if |raw| % 4 != 0 {
      ok := false;
      w := new u32[0];
      return;
    }
    var n := |raw| / 4;
    w := new u32[n];
    var i := 0;
    while i < n
      invariant 0 <= i <= n
      invariant forall k :: 0 <= k < i ==> w[k] == DecodeLE(raw)[k]
    {
      w[i] := raw[i * 4] as nat + raw[i * 4 + 1] as nat * 0x100 + raw[i * 4 + 2] as nat * 0x1_0000 + raw[i * 4 + 3] as nat * 0x100_0000;
      i := i + 1;
    }
    ok := true;
  }

  /** The byte stream aiir_write_u32 sends to the file: four little-endian
      bytes per word, word by word. */
  method WriteU32(words: seq<u32>) returns (out: seq<u8>)
    ensures out == EncodeLE(words)
    ensures |out| == 4 * |words|
  {
    out := [];
    var i := 0;
    while i < |words|
      invariant 0 <= i <= |words|
      invariant out == EncodeLE(words[..i])
    {
      var x := words[i];
      var b := [x % 0x100, (x / 0x100) % 0x100, (x / 0x1_0000) % 0x100, (x / 0x100_0000) % 0x100];
      EncodeSnoc(words[..i], x);
      assert words[..i + 1] == words[..i] + [x];
      out := out + b;
      i := i + 1;
    }
    assert words[..i] == words;
  }
}
