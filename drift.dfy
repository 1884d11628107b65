/** The drift watcher of the native core (ai/native-core/aiir_drift.c): it
    keeps a hash of the five core files and, every checkEvery ticks, hashes
    them again and counts a drift when the hash moved.  The file system is an
    input: a map from path to contents, a path that is not in the map being a
    file that cannot be read. */
module Drift {
  import opened AiirTypes
  import opened Core

  /** The files hash_core_set reads, in the order it folds them. */
  const CORE_FILES: seq<string> := [
    "m2m.ai2ai.lite.table.aiir",
    "m2m.ai2ai.lite.blob.aiir",
    "m2m.ai2ai.source.adapt.table.aiir",
    "m2m.ai2ai.source.adapt.blob.aiir",
    "m2m.db.packet.aiir"
  ]

  type FileSystem = map<string, seq<u8>>

  /** hash_file: the FNV-1a hash of the contents, 0 when the file cannot be
      read. */
  function FileHash(fs: FileSystem, path: string): u32
  {
    if path in fs then Fnv(fs[path]) else 0
  }

  /** `"%s/%s"` of the directory and one core file name. */
  function CorePath(dir: string, i: nat): string
    requires i < |CORE_FILES|
  {
    dir + "/" + CORE_FILES[i]
  }

  /** The five per-file hashes, in folding order. */
  function CoreHashes(fs: FileSystem, dir: string): (r: seq<u32>)
    ensures |r| == |CORE_FILES|
  {
    seq(|CORE_FILES|, i requires 0 <= i < |CORE_FILES| => FileHash(fs, CorePath(dir, i)))
  }

  /** The fold of hash_core_set: `h ^= fh; h *= 0x01000193` over the file
      hashes, one FNV round per word. */
  function SetHashFrom(h: bv32, hs: seq<u32>): bv32
  {
    if hs == [] then h else Round(SetHashFrom(h, hs[..|hs| - 1]), hs[|hs| - 1])
  }

  function SetHash(hs: seq<u32>): u32
  {
    SetHashFrom(FNV_OFFSET, hs) as int
  }

  /** The fold starts from the FNV offset basis and takes one round per
      file in order. */
  lemma SetHashSteps(hs: seq<u32>, x: u32)
    ensures SetHash([]) == 0x811c9dc5
    ensures SetHash(hs + [x]) == Round(SetHashFrom(FNV_OFFSET, hs), x) as int
  {
    assert (hs + [x])[..|hs + [x]| - 1] == hs;
  }

  /** hash_core_set over the directory. */
  function CoreSetHash(fs: FileSystem, dir: string): u32
  {
    SetHash(CoreHashes(fs, dir))
  }

  /** An unreadable file enters the fold as 0. */
  lemma MissingFileIsZero(fs: FileSystem, dir: string, i: nat)
    requires i < |CORE_FILES| && CorePath(dir, i) !in fs
    ensures CoreHashes(fs, dir)[i] == 0
  {
  }

  /** hash_file. */
  method HashFile(fs: FileSystem, path: string) returns (h: u32)
    ensures h == FileHash(fs, path)
  {
    if path !in fs {
      return 0;
    }
    h := Fnv1a32(fs[path]);
  }

  /** hash_core_set: the loop over the five names. */
  method HashCoreSet(fs: FileSystem, dir: string) returns (h: u32)
    ensures h == CoreSetHash(fs, dir)
  {
    var acc: bv32 := FNV_OFFSET;
    var i := 0;
    ghost var hs := CoreHashes(fs, dir);
    while i < |CORE_FILES|
      invariant 0 <= i <= |CORE_FILES|
      invariant acc == SetHashFrom(FNV_OFFSET, hs[..i])
    {
      var fh := HashFile(fs, CorePath(dir, i));
      assert hs[..i + 1][..i] == hs[..i];
      acc := Round(acc, fh);
      i := i + 1;
    }
    assert hs[..i] == hs;
    h := acc as int;
  }

  // ---------------------------------------------------------------------
  // The counters

  /** The counter fields of AiirDrift. */
  datatype Counters = Counters(checkEvery: u32, baseHash: u32, checks: u32, driftCount: u32)

  /** aiir_drift_tick on the counters, `now` being the hash a rehash would
      compute: checks goes up by one (mod 2^32); on every checkEvery-th
      tick a nonzero hash that differs from the base becomes the new base and
      counts one drift. */
  function TickSpec(c: Counters, now: u32): (r: Counters)
    requires c.checkEvery != 0
    ensures r.checkEvery == c.checkEvery
  {
    var checks := Wrap32(c.checks + 1);
    if checks % c.checkEvery != 0 then c.(checks := checks)
    else if now != 0 && now != c.baseHash then
      Counters(c.checkEvery, now, checks, Wrap32(c.driftCount + 1))
    else c.(checks := checks)
  }

  /** A sequence of ticks, `nows[i]` being the hash at tick i. */
  function Ticks(c: Counters, nows: seq<u32>): (r: Counters)
    requires c.checkEvery != 0
    ensures r.checkEvery == c.checkEvery
  {
    if nows == [] then c else TickSpec(Ticks(c, nows[..|nows| - 1]), nows[|nows| - 1])
  }

  /** One tick: the check counter moves by one; base hash and drift count
      change only on a rehash tick that sees a new nonzero hash, and then the
      count goes up by exactly one. */
  lemma TickChanges(c: Counters, now: u32)
    requires c.checkEvery != 0
    ensures var r := TickSpec(c, now);
      r.checks == (c.checks + 1) % U32_MOD &&
      (r.baseHash != c.baseHash || r.driftCount != c.driftCount <==>
        r.checks % c.checkEvery == 0 && now != 0 && now != c.baseHash) &&
      (r.baseHash != c.baseHash ==> r.baseHash == now && r.driftCount == (c.driftCount + 1) % U32_MOD)
  {
  }

  /** From a fresh watcher, n ticks leave n checks and at most n / checkEvery
      drifts: a drift is only counted on a rehash tick. */
  lemma {:induction false} DriftBound(c: Counters, nows: seq<u32>)
    requires c.checkEvery != 0 && c.checks == 0 && c.driftCount == 0
    requires |nows| < U32_MOD
    ensures Ticks(c, nows).checks == |nows|
    ensures Ticks(c, nows).driftCount <= |nows| / c.checkEvery
  {
    if nows != [] {
      var n := |nows| - 1;
      var prev := nows[..n];
      DriftBound(c, prev);
      DivStep(n, c.checkEvery);
    }
  }

  /** Multiples of e are at least e apart. */
  lemma MulStep(x: nat, y: nat, e: nat)
    ensures x < y ==> x * e + e <= y * e
  {
    if x < y {
      var d := y - x;
      assert y * e == x * e + d * e;
    }
  }

  /** Euclidean division has one quotient. */
  lemma DivUnique(a: nat, e: nat, q: nat, r: nat)
    requires e > 0 && a == q * e + r && r < e
    ensures a / e == q
  {
    var q', r' := a / e, a % e;
    assert a == q' * e + r' && r' < e;
    MulStep(q, q', e);
    MulStep(q', q, e);
  }

  /** (n + 1) / e gains one exactly when e divides n + 1. */
  lemma DivStep(n: nat, e: nat)
    requires e > 0
    ensures (n + 1) / e == n / e + (if (n + 1) % e == 0 then 1 else 0)
  {
    var q, r := n / e, n % e;
    assert n == q * e + r;
    if r + 1 == e {
      assert n + 1 == (q + 1) * e + 0;
      DivUnique(n + 1, e, q + 1, 0);
      assert (n + 1) % e == 0;
    } else {
      DivUnique(n + 1, e, q, r + 1);
      assert (n + 1) % e == r + 1;
    }
  }

  /** AiirDrift. */
  class DriftWatch {
    var coreDir: string
    var checkEvery: u32
    var baseHash: u32
    var checks: u32
    var driftCount: u32

    /** The zeroed struct. */
    constructor ()
      ensures coreDir == [] && checkEvery == 0 && baseHash == 0 && checks == 0 && driftCount == 0
    {
      coreDir, checkEvery, baseHash, checks, driftCount := [], 0, 0, 0, 0;
    }

    function View(): Counters
      reads this
    {
      Counters(checkEvery, baseHash, checks, driftCount)
    }

    /** aiir_drift_init: a checkEvery of 0 means 200; the counters start at
        zero; init succeeds iff the base hash is nonzero. */
    method Init(fs: FileSystem, dir: string, every: u32) returns (ok: bool)
      modifies this
      ensures coreDir == dir
      ensures View() == Counters(if every == 0 then 200 else every, CoreSetHash(fs, dir), 0, 0)
      ensures ok <==> baseHash != 0
    {
      coreDir, checkEvery, baseHash, checks, driftCount := [], 0, 0, 0, 0;
      coreDir := dir;
      checkEvery := if every != 0 then every else 200;
      baseHash := HashCoreSet(fs, dir);
      ok := baseHash != 0;
    }

    /** aiir_drift_tick, the files being read from `fs` on a rehash tick. */
    method Tick(fs: FileSystem)
      requires checkEvery != 0
      modifies this
      ensures coreDir == old(coreDir)
      ensures View() == TickSpec(old(View()), CoreSetHash(fs, coreDir))
    {
      checks := Wrap32(checks + 1);
      if checks % checkEvery != 0 {
        return;
      }
      var now := HashCoreSet(fs, coreDir);
      if now != 0 && now != baseHash {
        driftCount := Wrap32(driftCount + 1);
        baseHash := now;
      }
    }
  }
}
