/** The artifact validator and the mutation conformance test of the toolchain
    (ai/toolchain-native/aiir_toolchain.c): validate_a2a_packet, xorshift32
    and the bit-flip loop of cmd_conformance. */
module Validator {
  import opened AiirTypes
  import opened Container
  import opened RuntimeServer

  /** validate_a2a_packet over a buffer of n = |w| words: at least a header,
      the artifact magic, totalWords equal to n, and every TOC entry inside
      the buffer with a nonzero row width dividing the length and offset +
      length within n.  The entry index is computed without wrap-around and
      the end of a section in unbounded arithmetic, which for 32-bit
      operands is what the 64-bit sum of the source computes. */
  method ValidateA2aPacket(w: seq<u32>) returns (ok: bool)
    ensures ok == WellFormed(w, A2A_MAGIC)
  {
    if |w| < HEADER_WORDS {
      return false;
    }
    if w[0] != A2A_MAGIC {
      return false;
    }
    var secCount, tocBase, total := w[2], w[4], w[6];
    if total != |w| {
      return false;
    }
    var i := 0;
    while i < secCount
      invariant 0 <= i <= secCount
      invariant forall j :: 0 <= j < i ==> HasEntry(w, j) && EntryFits(EntryAt(w, j), |w|)
    {
      var t := tocBase + ENTRY_WORDS * i;
      if t + 3 >= |w| {
        assert !HasEntry(w, i);
        return false;
      }
      var off, len, rw := w[t + 1], w[t + 2], w[t + 3];
      assert HasEntry(w, i) && EntryAt(w, i) == TocEntry(w[t], off, len, rw);
      if rw == 0 {
        return false;
      }
      if len % rw != 0 {
        return false;
      }
      if off + len > |w| {
        return false;
      }
      i := i + 1;
    }
    return true;
  }

  // ---------------------------------------------------------------------
  // What the validator does not look at

  /** The validator never reads the id word of an entry nor the payload
      area: a packet changed only past its TOC stays valid.  Flipping a
      payload bit is therefore never detected by the conformance test. */
  lemma PayloadChangeUndetected(w: seq<u32>, k: nat, v: u32)
    requires WellFormed(w, A2A_MAGIC)
    requires HEADER_WORDS <= k < |w| && k >= w[4] + ENTRY_WORDS * w[2]
    ensures WellFormed(w[k := v], A2A_MAGIC)
  {
    var m := w[k := v];
    forall i | 0 <= i < m[2]
      ensures HasEntry(m, i) && EntryFits(EntryAt(m, i), |m|)
    {
      assert HasEntry(w, i);
      assert EntryAt(m, i) == EntryAt(w, i);
    }
  }

  /** A changed magic word is always rejected. */
  lemma MagicChangeDetected(w: seq<u32>, v: u32)
    requires |w| >= HEADER_WORDS && v != A2A_MAGIC
    ensures !WellFormed(w[0 := v], A2A_MAGIC)
  {
  }

  /** A changed totalWords word is always rejected. */
  lemma TotalChangeDetected(w: seq<u32>, v: u32)
    requires WellFormed(w, A2A_MAGIC) && v != w[6]
    ensures !WellFormed(w[6 := v], A2A_MAGIC)
  {
  }

  // ---------------------------------------------------------------------
  // xorshift32

  // ---------------------------------------------------------------------
  // One-bit flips

  /** 2^b. */
  function Pow2(b: nat): (r: nat)
    ensures r > 0
  {
    if b == 0 then 1 else 2 * Pow2(b - 1)
  }

  /** x with bit b inverted, `x ^ (1 << b)`: bit 0 is the parity of x, and
      bit b of x is bit b - 1 of x / 2. */
  function Flip(x: nat, b: nat): nat
  {
    if b == 0 then (if x % 2 == 0 then x + 1 else x - 1)
    else 2 * Flip(x / 2, b - 1) + x % 2
  }

  /** A flip below bit k keeps a k-bit number below 2^k. */
  lemma {:induction false} FlipBound(x: nat, b: nat, k: nat)
    requires b < k && x < Pow2(k)
    ensures Flip(x, b) < Pow2(k)
  {
    if b > 0 {
      FlipBound(x / 2, b - 1, k - 1);
    }
  }

  /** A flip changes the number. */
  lemma {:induction false} FlipChanges(x: nat, b: nat)
    ensures Flip(x, b) != x
  {
    if b > 0 {
      FlipChanges(x / 2, b - 1);
    }
  }

  /** Flipping the same bit twice restores the number. */
  lemma {:induction false} FlipTwice(x: nat, b: nat)
    ensures Flip(Flip(x, b), b) == x
  {
    if b > 0 {
      var y := Flip(x / 2, b - 1);
      FlipTwice(x / 2, b - 1);
      assert (2 * y + x % 2) / 2 == y && (2 * y + x % 2) % 2 == x % 2;
    }
  }

  lemma Pow2Of32()
    ensures Pow2(32) == U32_MOD
  {
    assert Pow2(1) == 2;
    assert Pow2(2) == 4;
    assert Pow2(3) == 8;
    assert Pow2(4) == 16;
    assert Pow2(5) == 32;
    assert Pow2(6) == 64;
    assert Pow2(7) == 128;
    assert Pow2(8) == 256;
    assert Pow2(9) == 512;
    assert Pow2(10) == 1024;
    assert Pow2(11) == 2048;
    assert Pow2(12) == 4096;
    assert Pow2(13) == 8192;
    assert Pow2(14) == 16384;
    assert Pow2(15) == 32768;
    assert Pow2(16) == 65536;
    assert Pow2(17) == 131072;
    assert Pow2(18) == 262144;
    assert Pow2(19) == 524288;
    assert Pow2(20) == 1048576;
    assert Pow2(21) == 2097152;
    assert Pow2(22) == 4194304;
    assert Pow2(23) == 8388608;
    assert Pow2(24) == 16777216;
    assert Pow2(25) == 33554432;
    assert Pow2(26) == 67108864;
    assert Pow2(27) == 134217728;
    assert Pow2(28) == 268435456;
    assert Pow2(29) == 536870912;
    assert Pow2(30) == 1073741824;
    assert Pow2(31) == 2147483648;
    assert Pow2(32) == 4294967296;
  }

  /** Bitwise exclusive or of two numbers, bit 0 first. */
  function Xor(a: nat, b: nat): nat
    decreases a + b
  {
    if a == 0 && b == 0 then 0 else 2 * Xor(a / 2, b / 2) + (a % 2 + b % 2) % 2
  }

  /** The exclusive or of two k-bit numbers has k bits. */
  lemma {:induction false} XorBound(a: nat, b: nat, k: nat)
    requires a < Pow2(k) && b < Pow2(k)
    ensures Xor(a, b) < Pow2(k)
    decreases k
  {
    if a != 0 || b != 0 {
      XorBound(a / 2, b / 2, k - 1);
    }
  }

  /** Zero is the identity of exclusive or. */
  lemma {:induction false} XorZero(a: nat)
    ensures Xor(a, 0) == a
  {
    if a != 0 {
      XorZero(a / 2);
    }
  }

  /** A number exclusive-ored with itself is zero. */
  lemma {:induction false} XorSelf(a: nat)
    ensures Xor(a, a) == 0
  {
    if a != 0 {
      XorSelf(a / 2);
    }
  }

  /** Flip is `x ^ (1 << b)`. */
  lemma {:induction false} FlipIsXor(x: nat, b: nat)
    ensures Flip(x, b) == Xor(x, Pow2(b))
  {
    if b == 0 {
      assert Xor(x, 1) == 2 * Xor(x / 2, 0) + (x % 2 + 1) % 2;
      XorZero(x / 2);
    } else {
      var p := Pow2(b - 1);
      assert Pow2(b) == 2 * p;
      assert (2 * p) / 2 == p && (2 * p) % 2 == 0;
      assert Xor(x, 2 * p) == 2 * Xor(x / 2, p) + (x % 2) % 2;
      FlipIsXor(x / 2, b - 1);
    }
  }

  /** A flip and the original differ in bit b alone. */
  lemma {:induction false} FlipXorIsBit(x: nat, b: nat)
    ensures Xor(Flip(x, b), x) == Pow2(b)
  {
    var y := Flip(x, b);
    FlipChanges(x, b);
    assert Xor(y, x) == 2 * Xor(y / 2, x / 2) + (y % 2 + x % 2) % 2;
    if b == 0 {
      assert y / 2 == x / 2 && (y % 2 + x % 2) % 2 == 1;
      XorSelf(x / 2);
    } else {
      var f := Flip(x / 2, b - 1);
      assert y == 2 * f + x % 2;
      assert y / 2 == f && y % 2 == x % 2;
      FlipXorIsBit(x / 2, b - 1);
    }
  }

  /** `^` on uint32_t. */
  function Xor32(a: u32, b: u32): u32
  {
    Pow2Of32();
    XorBound(a, b, 32);
    Xor(a, b)
  }

  /** xorshift32: `x ^= x << 13; x ^= x >> 17; x ^= x << 5` on the 32-bit
      state; a left shift drops the bits pushed past bit 31. */
  function XorShift(x: u32): u32
  {
    var a := Xor32(x, (x * 0x2000) % U32_MOD);
    var b := Xor32(a, a / 0x2_0000);
    Xor32(b, (b * 0x20) % U32_MOD)
  }

  /** `m[idx] ^= 1u << b` for a bit position b < 31. */
  function FlipBit(x: u32, b: nat): (r: u32)
    requires b < 31
  {
    Pow2Of32();
    FlipBound(x, b, 32);
    Flip(x, b)
  }

  /** A flip changes the word, and flipping the same bit again restores it. */
  lemma FlipBitChanges(x: u32, b: nat)
    requires b < 31
    ensures FlipBit(x, b) != x
    ensures FlipBit(FlipBit(x, b), b) == x
  {
    FlipChanges(x, b);
    FlipTwice(x, b);
  }

  // ---------------------------------------------------------------------
  // cmd_conformance

  const CONFORMANCE_SEED: u32 := 0x12345678

  /** The generator state before mutation i.  Each mutation draws twice,
      so this is the fixed seed after 2i steps. */
  function StateBefore(i: nat): u32
  {
    if i == 0 then CONFORMANCE_SEED else XorShift(XorShift(StateBefore(i - 1)))
  }

  /** Mutation i draws the word index first, then the bit position. */
  function MutIndex(i: nat, len: nat): nat
    requires len > 0
  {
    XorShift(StateBefore(i)) % len
  }

  function MutBit(i: nat): nat
  {
    StateBefore(i + 1) % 31
  }

  /** The i-th mutant: the packet with one bit of one word flipped. */
  function Mutant(pkt: seq<u32>, i: nat): (r: seq<u32>)
    requires |pkt| > 0
    ensures |r| == |pkt|
  {
    var idx := MutIndex(i, |pkt|);
    pkt[idx := FlipBit(pkt[idx], MutBit(i))]
  }

  /** The validator rejects the i-th mutant. */
  predicate Rejected(pkt: seq<u32>, i: nat)
    requires |pkt| > 0
  {
    !WellFormed(Mutant(pkt, i), A2A_MAGIC)
  }

  /** The number of the first k mutants the validator rejects. */
  function RejectedCount(pkt: seq<u32>, k: nat): (r: nat)
    requires |pkt| > 0
    ensures r <= k
  {
    if k == 0 then 0
    else RejectedCount(pkt, k - 1) + (if Rejected(pkt, k - 1) then 1 else 0)
  }

  /** Each mutant differs from the packet in exactly one word, and there in
      exactly one of bits 0..30: the word is `pkt[idx] ^ (1u << bit)`. */
  lemma MutantDiffersInOneWord(pkt: seq<u32>, i: nat)
    requires |pkt| > 0
    ensures var idx := MutIndex(i, |pkt|);
      Mutant(pkt, i)[idx] != pkt[idx] &&
      forall k :: 0 <= k < |pkt| && k != idx ==> Mutant(pkt, i)[k] == pkt[k]
    ensures var idx := MutIndex(i, |pkt|);
      MutBit(i) < 31 &&
      Mutant(pkt, i)[idx] == Xor(pkt[idx], Pow2(MutBit(i))) &&
      Xor(Mutant(pkt, i)[idx], pkt[idx]) == Pow2(MutBit(i))
  {
    var idx := MutIndex(i, |pkt|);
    FlipBitChanges(pkt[idx], MutBit(i));
    FlipIsXor(pkt[idx], MutBit(i));
    FlipXorIsBit(pkt[idx], MutBit(i));
  }

  /** The conformance report line `1 iters rejected ok_base`. */
  datatype Report = Report(iters: u32, rejected: u32, baseOk: bool)

  /** The lite table is usable: at least one row, whole rows of three. */
  predicate TableOk(tab: seq<u32>)
  {
    |tab| >= 3 && |tab| % 3 == 0
  }

  /** One iteration's buffer: `memcpy(m, pkt, len * 4)` into a fresh array,
      then `m[idx] ^= 1u << b`. */
  method MutantCopy(pkt: seq<u32>, idx: nat, b: nat) returns (m: array<u32>)
    requires idx < |pkt| && b < 31
    ensures fresh(m)
    ensures m[..] == pkt[idx := FlipBit(pkt[idx], b)]
  {
    m := new u32[|pkt|];
    Put(m, 0, pkt);
    assert m[..] == pkt;
    m[idx] := FlipBit(m[idx], b);
  }

  /** The baseline packet of cmd_conformance: the first row of the lite
      table gives its offset and length in the blob; there is none if the
      table is not whole rows of three or the packet runs past the blob. */
  function BasePacket(tab: seq<u32>, blob: seq<u32>): (r: Option<seq<u32>>)
    ensures r.Some? ==> TableOk(tab) && tab[1] as nat + tab[2] <= |blob| && r.value == blob[tab[1]..tab[1] as nat + tab[2]]
    ensures r.None? <==> !TableOk(tab) || tab[1] as nat + tab[2] > |blob|
  {
    if !TableOk(tab) || tab[1] as nat + tab[2] > |blob| then None
    else Some(blob[tab[1]..tab[1] as nat + tab[2]])
  }

  /** The baseline is the packet the runtime's get_packet_by_id(0) serves
      from the same table and blob, whenever the table is whole rows. */
  lemma BasePacketIsFirstRow(tab: seq<u32>, blob: seq<u32>)
    requires |tab| < U32_MOD
    ensures BasePacket(tab, blob) == if TableOk(tab) then PacketById(tab, blob, 0) else None
  {
    if TableOk(tab) {
      PacketByIdRows(tab, blob, 0);
    }
  }

  /** The mutation loop of cmd_conformance: `iters` mutants of the packet,
      each validated, counting the rejected ones. */
  method CountRejected(pkt: seq<u32>, iters: u32) returns (rejected: u32)
    requires |pkt| > 0
    ensures rejected == RejectedCount(pkt, iters)
  {
    var seed := CONFORMANCE_SEED;
    rejected := 0;
    var i := 0;
    while i < iters
      invariant 0 <= i <= iters
      invariant seed == StateBefore(i)
      invariant rejected == RejectedCount(pkt, i)
    {
      seed, rejected := Tally(pkt, i, seed, rejected);
      i := i + 1;
    }
  }

  /** One pass of the loop body: mutate, validate, count. */
  method Tally(pkt: seq<u32>, i: nat, seed: u32, rejected: u32) returns (seed': u32, rejected': u32)
    requires |pkt| > 0 && i + 1 < U32_MOD
    requires seed == StateBefore(i) && rejected == RejectedCount(pkt, i)
    ensures seed' == StateBefore(i + 1) && rejected' == RejectedCount(pkt, i + 1)
  {
    var bad;
    seed', bad := MutateOnce(pkt, i, seed);
    RejectedStep(pkt, i, bad, rejected);
    rejected' := if bad then rejected + 1 else rejected;
  }

  /** One more mutant adds one to the count exactly when it is rejected. */
  lemma RejectedStep(pkt: seq<u32>, i: nat, bad: bool, r: nat)
    requires |pkt| > 0 && (bad <==> Rejected(pkt, i))
    requires r == RejectedCount(pkt, i)
    ensures RejectedCount(pkt, i + 1) == if bad then r + 1 else r
  {
  }

  /** The two draws of mutation i leave the state of mutation i + 1. */
  lemma StateNext(i: nat, s: u32)
    requires s == StateBefore(i)
    ensures XorShift(XorShift(s)) == StateBefore(i + 1)
  {
  }

  /** The mutant built from the two draws of iteration i is Mutant(pkt, i). */
  lemma MutantFromDraws(pkt: seq<u32>, i: nat, s1: u32, s2: u32)
    requires |pkt| > 0 && s1 == XorShift(StateBefore(i)) && s2 == StateBefore(i + 1)
    ensures s1 % |pkt| < |pkt| && s2 % 31 < 31
    ensures var idx := s1 % |pkt|;
      pkt[idx := FlipBit(pkt[idx], s2 % 31)] == Mutant(pkt, i)
  {
  }

  /** One iteration of the mutation loop: two draws, the mutant, and whether
      the validator rejects it. */
  method MutateOnce(pkt: seq<u32>, i: nat, seed: u32) returns (next: u32, bad: bool)
    requires |pkt| > 0 && seed == StateBefore(i)
    ensures next == StateBefore(i + 1)
    ensures bad <==> Rejected(pkt, i)
  {
    var s1 := XorShift(seed);
    var idx := s1 % |pkt|;
    next := XorShift(s1);
    StateNext(i, seed);
    var b := next % 31;
    var m := MutantCopy(pkt, idx, b);
    MutantFromDraws(pkt, i, s1, next);
    var okMut := ValidateA2aPacket(m[..]);
    bad := !okMut;
  }

  /** cmd_conformance on the table and blob already read: it fails (exit 1,
      here None) unless there is a baseline packet and it validates;
      otherwise it validates `iters` one-bit mutants drawn from the fixed
      seed and reports how many were rejected. */
  method Conformance(tab: seq<u32>, blob: seq<u32>, iters: u32) returns (r: Option<Report>)
    ensures r.None? <==> BasePacket(tab, blob).None? || !WellFormed(BasePacket(tab, blob).value, A2A_MAGIC)
    ensures r.Some? ==> (|BasePacket(tab, blob).value| > 0 &&
      r.value == Report(iters, RejectedCount(BasePacket(tab, blob).value, iters), true))
  {
    if |tab| < 3 || |tab| % 3 != 0 {
      return None;
    }
    var off: nat, len: nat := tab[1], tab[2];
    if off + len > |blob| {
      return None;
    }
    var pkt := blob[off..off + len];
    var okBase := ValidateA2aPacket(pkt);
    if !okBase {
      return None;
    }
    var rejected := CountRejected(pkt, iters);
    return Some(Report(iters, rejected, okBase));
  }
}
