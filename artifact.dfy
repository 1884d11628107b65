/** The artifact packet builder of the toolchain (make_packet in
    ai/toolchain-native/aiir_toolchain.c): one source file becomes a
    five-section A2A container holding a fixed CODE row, an empty SLOT
    section, a byte preview of the content, the FNV-1a hashes of its
    identifiers, and an 8-word META row. */
module Artifact {
  import opened AiirTypes
  import opened Core
  import opened Container

  // ---------------------------------------------------------------------
  // Identifier scan

  /** `_`, `A`-`Z` or `a`-`z`: a byte that may start an identifier. */
  predicate IsStart(b: u8)
  {
    b == 95 || (65 <= b <= 90) || (97 <= b <= 122)
  }

  /** A start byte or a digit: a byte that may continue an identifier. */
  predicate IsIdent(b: u8)
  {
    IsStart(b) || (48 <= b <= 57)
  }

  /** Byte range [start, end) of the content. */
  datatype Span = Span(start: nat, end: nat)

  /** The end of the run of identifier bytes that begins at j. */
  function RunEnd(c: seq<u8>, j: nat): (r: nat)
    requires j <= |c|
    ensures j <= r <= |c|
    ensures forall k :: j <= k < r ==> IsIdent(c[k])
    ensures r == |c| || !IsIdent(c[r])
    decreases |c| - j
  {
    if j < |c| && IsIdent(c[j]) then RunEnd(c, j + 1) else j
  }

  /** The identifiers the scan finds from position i on, left to right: a
      non-start byte is skipped, a start byte begins an identifier that runs
      as far as identifier bytes go, and the scan resumes after it. */
  function ScanFrom(c: seq<u8>, i: nat): (r: seq<Span>)
    requires i <= |c|
    ensures |r| <= |c| - i
    ensures forall k :: 0 <= k < |r| ==> i <= r[k].start < r[k].end <= |c|
    decreases |c| - i
  {
    if i == |c| then []
    else if !IsStart(c[i]) then ScanFrom(c, i + 1)
    else [Span(i, RunEnd(c, i + 1))] + ScanFrom(c, RunEnd(c, i + 1))
  }

  /** The identifiers of the whole content, before the token cap. */
  function TokenSpans(c: seq<u8>): seq<Span>
  {
    ScanFrom(c, 0)
  }

  /** A maximal identifier: a start byte, identifier bytes up to `end`, and
      no identifier byte right after it. */
  predicate IsWord(c: seq<u8>, s: Span)
  {
    s.start < s.end <= |c| && IsStart(c[s.start]) &&
    (forall k :: s.start < k < s.end ==> IsIdent(c[k])) &&
    (s.end == |c| || !IsIdent(c[s.end]))
  }

  /** Every span the scan finds is a maximal identifier. */
  lemma {:induction false} ScanWords(c: seq<u8>, i: nat)
    requires i <= |c|
    ensures forall k :: 0 <= k < |ScanFrom(c, i)| ==> IsWord(c, ScanFrom(c, i)[k])
    decreases |c| - i
  {
    if i < |c| && !IsStart(c[i]) {
      ScanWords(c, i + 1);
    } else if i < |c| {
      var j := RunEnd(c, i + 1);
      ScanWords(c, j);
      var r := ScanFrom(c, i);
      var rest := ScanFrom(c, j);
      assert r == [Span(i, j)] + rest;
      forall k | 0 <= k < |r|
        ensures IsWord(c, r[k])
      {
        if k > 0 {
          assert r[k] == rest[k - 1];
        }
      }
    }
  }

  /** The spans are disjoint and in increasing order; there is at least one
      non-identifier byte between two of them. */
  lemma {:induction false} ScanOrdered(c: seq<u8>, i: nat)
    requires i <= |c|
    ensures forall k :: 0 <= k < |ScanFrom(c, i)| - 1 ==> ScanFrom(c, i)[k].end < ScanFrom(c, i)[k + 1].start
    decreases |c| - i
  {
    if i < |c| && !IsStart(c[i]) {
      ScanOrdered(c, i + 1);
    } else if i < |c| {
      var j := RunEnd(c, i + 1);
      ScanOrdered(c, j);
      var r := ScanFrom(c, i);
      var rest := ScanFrom(c, j);
      assert r == [Span(i, j)] + rest;
      if |rest| > 0 {
        ScanWords(c, j);
        assert IsWord(c, rest[0]);
        assert j < rest[0].start;
      }
      forall k | 0 <= k < |r| - 1
        ensures r[k].end < r[k + 1].start
      {
        if k > 0 {
          assert r[k] == rest[k - 1] && r[k + 1] == rest[k];
        }
      }
    }
  }

  /** Every byte from i on that may start an identifier lies in some span:
      the scan misses no identifier. */
  lemma {:induction false} ScanCovers(c: seq<u8>, i: nat)
    requires i <= |c|
    ensures forall p :: i <= p < |c| && IsStart(c[p]) ==>
      exists k :: 0 <= k < |ScanFrom(c, i)| && ScanFrom(c, i)[k].start <= p < ScanFrom(c, i)[k].end
    decreases |c| - i
  {
    if i < |c| && !IsStart(c[i]) {
      ScanCovers(c, i + 1);
      assert ScanFrom(c, i) == ScanFrom(c, i + 1);
    } else if i < |c| {
      var j := RunEnd(c, i + 1);
      ScanCovers(c, j);
      var r := ScanFrom(c, i);
      var rest := ScanFrom(c, j);
      assert r == [Span(i, j)] + rest;
      forall p | i <= p < |c| && IsStart(c[p])
        ensures exists k :: 0 <= k < |r| && r[k].start <= p < r[k].end
      {
        if p < j {
          assert r[0].start <= p < r[0].end;
        } else {
          var k :| 0 <= k < |rest| && rest[k].start <= p < rest[k].end;
          assert r[k + 1] == rest[k];
        }
      }
    }
  }

  /** The scan over the whole content: maximal identifiers, in order,
      disjoint, missing none. */
  lemma TokenSpansShape(c: seq<u8>)
    ensures var r := TokenSpans(c);
      (forall k :: 0 <= k < |r| ==> IsWord(c, r[k])) &&
      (forall k :: 0 <= k < |r| - 1 ==> r[k].end < r[k + 1].start) &&
      (forall p :: 0 <= p < |c| && IsStart(c[p]) ==>
         exists k :: 0 <= k < |r| && r[k].start <= p < r[k].end)
  {
    ScanWords(c, 0);
    ScanOrdered(c, 0);
    ScanCovers(c, 0);
  }

  /** The number of identifiers hashed: the scan stops at max_tokens. */
  function SymbolCount(c: seq<u8>, maxTokens: nat): nat
  {
    Min(maxTokens, |TokenSpans(c)|)
  }

  /** Every span lies inside the content. */
  predicate SpansIn(c: seq<u8>, sp: seq<Span>)
  {
    forall k :: 0 <= k < |sp| ==> sp[k].start <= sp[k].end <= |c|
  }

  /** The FNV-1a hash of each span's bytes, in order. */
  function HashesOf(c: seq<u8>, sp: seq<Span>): (r: seq<u32>)
    requires SpansIn(c, sp)
    ensures |r| == |sp|
  {
    seq(|sp|, k requires 0 <= k < |sp| => Fnv(c[sp[k].start..sp[k].end]))
  }

  lemma HashesOfSnoc(c: seq<u8>, sp: seq<Span>, s: Span)
    requires SpansIn(c, sp) && s.start <= s.end <= |c|
    ensures SpansIn(c, sp + [s])
    ensures HashesOf(c, sp + [s]) == HashesOf(c, sp) + [Fnv(c[s.start..s.end])]
  {
  }

  /** The SYMBOL_HASH payload: FNV-1a of each of the first SymbolCount
      identifiers, in scan order. */
  function SymbolHashes(c: seq<u8>, maxTokens: nat): (r: seq<u32>)
    ensures |r| == SymbolCount(c, maxTokens)
  {
    HashesOf(c, TokenSpans(c)[..SymbolCount(c, maxTokens)])
  }

  /** The symbol hashes are at most max_tokens, and each one is the hash of
      a maximal identifier, taken in order without overlap. */
  lemma SymbolHashesAreIdentifiers(c: seq<u8>, maxTokens: nat)
    ensures |SymbolHashes(c, maxTokens)| <= maxTokens
    ensures |SymbolHashes(c, maxTokens)| <= |TokenSpans(c)|
    ensures forall k :: 0 <= k < |SymbolHashes(c, maxTokens)| ==>
      IsWord(c, TokenSpans(c)[k]) &&
      SymbolHashes(c, maxTokens)[k] == Fnv(c[TokenSpans(c)[k].start..TokenSpans(c)[k].end])
  {
    TokenSpansShape(c);
  }

  /** A byte that cannot start an identifier is skipped by the scan. */
  lemma ScanSkip(c: seq<u8>, done: seq<Span>, i: nat)
    requires i < |c| && !IsStart(c[i])
    requires TokenSpans(c) == done + ScanFrom(c, i)
    ensures TokenSpans(c) == done + ScanFrom(c, i + 1)
  {
  }

  /** A start byte at i begins the next identifier, which ends at j. */
  lemma ScanTake(c: seq<u8>, done: seq<Span>, i: nat, j: nat)
    requires i < |c| && IsStart(c[i]) && j == RunEnd(c, i + 1)
    requires TokenSpans(c) == done + ScanFrom(c, i)
    ensures TokenSpans(c) == (done + [Span(i, j)]) + ScanFrom(c, j)
  {
    assert ScanFrom(c, i) == [Span(i, j)] + ScanFrom(c, j);
  }

  /** The inner loop of the scan: advance while the byte continues an
      identifier. */
  method IdentEnd(content: seq<u8>, from: nat) returns (j: nat)
    requires from <= |content|
    ensures j == RunEnd(content, from)
  {
    j := from;
    while j < |content|
      invariant from <= j <= |content|
      invariant RunEnd(content, j) == RunEnd(content, from)
    {
      var d := content[j];
      if !IsIdent(d) {
        break;
      }
      j := j + 1;
    }
  }

  /** The symbol scan loop of make_packet (lines 332-347). */
  method ScanSymbols(content: seq<u8>, maxTokens: nat) returns (symbols: seq<u32>)
    ensures symbols == SymbolHashes(content, maxTokens)
  {
    symbols := [];
    ghost var done: seq<Span> := [];
    var i := 0;
    var tokens := 0;
    while i < |content| && tokens < maxTokens
      invariant 0 <= i <= |content|
      invariant TokenSpans(content) == done + ScanFrom(content, i)
      invariant tokens == |done| <= maxTokens
      invariant SpansIn(content, done) && symbols == HashesOf(content, done)
      decreases |content| - i
    {
      var c := content[i];
      if !IsStart(c) {
        ScanSkip(content, done, i);
        i := i + 1;
        continue;
      }
      var j := IdentEnd(content, i + 1);
      var h := Fnv1a32(content[i..j]);
      HashesOfSnoc(content, done, Span(i, j));
      ScanTake(content, done, i, j);
      symbols := symbols + [h];
      done := done + [Span(i, j)];
      tokens := tokens + 1;
      i := j;
    }
    ScanDone(content, done, i, maxTokens);
  }

  /** When the scan loop stops, at the end of the content or at the token
      cap, the spans it hashed are the first SymbolCount spans of the scan. */
  lemma ScanDone(c: seq<u8>, done: seq<Span>, i: nat, maxTokens: nat)
    requires i <= |c| && TokenSpans(c) == done + ScanFrom(c, i)
    requires |done| <= maxTokens && (i == |c| || |done| == maxTokens)
    ensures SymbolCount(c, maxTokens) == |done| && TokenSpans(c)[..|done|] == done
  {
    assert TokenSpans(c)[..|done|] == done;
    if i == |c| {
      assert ScanFrom(c, i) == [];
    }
  }

  // ---------------------------------------------------------------------
  // Line count, preview, META

  /** One plus the number of newline bytes of the whole content. */
  function LineCount(c: seq<u8>): nat
  {
    1 + multiset(c)[10]
  }

  /** The line counting loop of make_packet (lines 349-350): it runs over the
      whole content, whatever the token cap. */
  method CountLines(content: seq<u8>) returns (lines: nat)
    ensures lines == LineCount(content)
  {
    lines := 1;
    var k := 0;
    while k < |content|
      invariant 0 <= k <= |content|
      invariant lines == 1 + multiset(content[..k])[10]
    {
      assert content[..k + 1] == content[..k] + [content[k]];
      if content[k] == 10 {
        lines := lines + 1;
      }
      k := k + 1;
    }
    assert content[..k] == content;
  }

  /** preview_n: the number of content bytes copied into source_u8. */
  function PreviewLen(c: seq<u8>, previewBytes: nat): nat
  {
    Min(|c|, previewBytes)
  }

  /** The source_u8 buffer: the first min(len, preview_bytes) content bytes,
      one byte per word, zero-extended. */
  function Preview(c: seq<u8>, previewBytes: nat): (r: seq<u32>)
    ensures |r| == PreviewLen(c, previewBytes) <= |c|
    ensures forall k :: 0 <= k < |r| ==> r[k] == c[k]
  {
    seq(PreviewLen(c, previewBytes), k requires 0 <= k < PreviewLen(c, previewBytes) => c[k] as u32)
  }

  /** len_source = (uint32_t)preview_n: the SOURCE_U8 length written to the
      TOC; it drops what lies past 2^32 - 1. */
  function SourceLen(c: seq<u8>, previewBytes: nat): (r: u32)
    ensures r <= PreviewLen(c, previewBytes)
    ensures PreviewLen(c, previewBytes) < U32_MOD ==> r == PreviewLen(c, previewBytes)
  {
    Wrap32(PreviewLen(c, previewBytes))
  }

  /** len_sym = (uint32_t)symbols.n, also the META token count. */
  function SymbolLen(c: seq<u8>, maxTokens: nat): (r: u32)
    ensures r <= SymbolCount(c, maxTokens)
    ensures SymbolCount(c, maxTokens) < U32_MOD ==> r == SymbolCount(c, maxTokens)
  {
    Wrap32(SymbolCount(c, maxTokens))
  }

  /** The SOURCE_U8 payload: the first len_source words of source_u8. */
  function SourcePayload(c: seq<u8>, previewBytes: nat): (r: seq<u32>)
    ensures |r| == SourceLen(c, previewBytes)
    ensures forall k :: 0 <= k < |r| ==> r[k] == c[k]
  {
    Preview(c, previewBytes)[..SourceLen(c, previewBytes)]
  }

  /** The SYMBOL_HASH payload: the first len_sym symbol hashes. */
  function PacketSymbols(c: seq<u8>, maxTokens: nat): (r: seq<u32>)
    ensures |r| == SymbolLen(c, maxTokens)
    ensures r == SymbolHashes(c, maxTokens)[..|r|]
  {
    SymbolHashes(c, maxTokens)[..SymbolLen(c, maxTokens)]
  }

  /** The CODE payload: one fixed 6-word row. */
  const CODE_ROW: seq<u32> := [13, 0, 0, 0, 0, 0]

  /** The META payload `{1, len, lines, lang, 2, pathHash, contentHash,
      tokens}`; the three counts are cast to uint32_t. */
  function MetaRow(c: seq<u8>, pathKey: seq<u8>, langId: u32, maxTokens: nat): seq<u32>
  {
    [1, Wrap32(|c|), Wrap32(LineCount(c)), langId, 2, Fnv(pathKey), Fnv(c), SymbolLen(c, maxTokens)]
  }

  /** The five sections in TOC order: CODE, SLOT, SOURCE_U8, SYMBOL_HASH, META,
      with row widths 6, 4, 1, 1, 4. */
  function ArtifactSections(c: seq<u8>, pathKey: seq<u8>, langId: u32, previewBytes: nat, maxTokens: nat): seq<Section>
  {
    [Section(A2A_SEC_CODE, 6, CODE_ROW),
     Section(A2A_SEC_SLOT, 4, []),
     Section(A2A_SEC_SOURCE_U8, 1, SourcePayload(c, previewBytes)),
     Section(A2A_SEC_SYMBOL_HASH, 1, PacketSymbols(c, maxTokens)),
     Section(A2A_SEC_META, 4, MetaRow(c, pathKey, langId, maxTokens))]
  }

  /** `total = 28 + 6 + 0 + len_source + len_sym + 8` fits the uint32_t it
      is computed in. */
  predicate ArtifactFits(c: seq<u8>, previewBytes: nat, maxTokens: nat)
  {
    42 + SourceLen(c, previewBytes) + SymbolLen(c, maxTokens) < U32_MOD
  }

  /** total as make_packet computes it, in uint32_t (lines 366-372). */
  function ArtifactTotalAsWritten(lenSource: u32, lenSym: u32): u32
  {
    Wrap32(28 + 6 + 0 + lenSource + lenSym + 8)
  }

  /** When the sum does not fit, the wrapped total is smaller than the
      42 + len_source + len_sym words the header, TOC and payload writes
      reach, so they run past the calloc'ed buffer; when it fits, the total
      is the packet length. */
  lemma ArtifactTotalWraps(c: seq<u8>, previewBytes: nat, maxTokens: nat)
    ensures var n := 42 + SourceLen(c, previewBytes) + SymbolLen(c, maxTokens);
      var t := ArtifactTotalAsWritten(SourceLen(c, previewBytes), SymbolLen(c, maxTokens));
      (ArtifactFits(c, previewBytes, maxTokens) ==> t == n) &&
      (!ArtifactFits(c, previewBytes, maxTokens) ==> t < n)
  {
  }

  /** A content of 2^32 - 42 spaces, preview_bytes as large and max_tokens
      0: total wraps to 0, calloc(0) is asked for, and the 28 header and TOC
      words are written past it. */
  lemma ArtifactTotalWrapsWitness()
    ensures var c := seq(U32_MOD - 42, k => 32 as u8);
      !ArtifactFits(c, U32_MOD - 42, 0) &&
      ArtifactTotalAsWritten(SourceLen(c, U32_MOD - 42), SymbolLen(c, 0)) == 0
  {
    var c := seq(U32_MOD - 42, k => 32 as u8);
    assert SymbolCount(c, 0) == 0;
    assert PreviewLen(c, U32_MOD - 42) == U32_MOD - 42;
  }

  /** Header and TOC of the packet: 28 words. */
  function ArtifactHead(pn: nat, ns: nat): (r: seq<u32>)
    requires 42 + pn + ns < U32_MOD
    ensures |r| == 28
  {
    HeaderWords(A2A_MAGIC, A2A_VERSION, 5, 28, 42 + pn + ns)
    + EntryWords(TocEntry(A2A_SEC_CODE, 28, 6, 6))
    + EntryWords(TocEntry(A2A_SEC_SLOT, 34, 0, 4))
    + EntryWords(TocEntry(A2A_SEC_SOURCE_U8, 34, pn, 1))
    + EntryWords(TocEntry(A2A_SEC_SYMBOL_HASH, 34 + pn, ns, 1))
    + EntryWords(TocEntry(A2A_SEC_META, 34 + pn + ns, 8, 4))
  }

  /** The packet make_packet returns. */
  function ArtifactPacket(c: seq<u8>, pathKey: seq<u8>, langId: u32, previewBytes: nat, maxTokens: nat): seq<u32>
    requires ArtifactFits(c, previewBytes, maxTokens)
  {
    ArtifactLayout(c, pathKey, langId, previewBytes, maxTokens);
    Assemble(A2A_MAGIC, A2A_VERSION, ArtifactSections(c, pathKey, langId, previewBytes, maxTokens))
  }

  /** The generic layout of the five sections, written out: the 28 header
      and TOC words, then CODE, SLOT (empty), SOURCE_U8, SYMBOL_HASH, META. */
  lemma ArtifactLayout(c: seq<u8>, pathKey: seq<u8>, langId: u32, previewBytes: nat, maxTokens: nat)
    requires ArtifactFits(c, previewBytes, maxTokens)
    ensures AssembledSize(ArtifactSections(c, pathKey, langId, previewBytes, maxTokens)) < U32_MOD
    ensures Assemble(A2A_MAGIC, A2A_VERSION, ArtifactSections(c, pathKey, langId, previewBytes, maxTokens))
      == ArtifactHead(SourceLen(c, previewBytes), SymbolLen(c, maxTokens))
         + (CODE_ROW + [] + SourcePayload(c, previewBytes) + PacketSymbols(c, maxTokens) + MetaRow(c, pathKey, langId, maxTokens))
  {
    var secs := ArtifactSections(c, pathKey, langId, previewBytes, maxTokens);
    AssembleFive(A2A_MAGIC, A2A_VERSION, secs[0], secs[1], secs[2], secs[3], secs[4]);
  }

  /** Header and length: magic, version 2, five sections, TOC at 8, payloads
      at 28, and total = 28 + 6 + 0 + preview + tokens + 8 = the length. */
  lemma ArtifactHeader(c: seq<u8>, pathKey: seq<u8>, langId: u32, previewBytes: nat, maxTokens: nat)
    requires ArtifactFits(c, previewBytes, maxTokens)
    ensures var w := ArtifactPacket(c, pathKey, langId, previewBytes, maxTokens);
      |w| == 28 + 6 + 0 + SourceLen(c, previewBytes) + SymbolLen(c, maxTokens) + 8 &&
      w[0] == A2A_MAGIC && w[1] == 2 && w[2] == 5 && w[3] == 0 && w[4] == 8 && w[5] == 28 &&
      w[6] == |w| && w[7] == 0
  {
    ArtifactLayout(c, pathKey, langId, previewBytes, maxTokens);
    var w := ArtifactPacket(c, pathKey, langId, previewBytes, maxTokens);
    var pn := SourceLen(c, previewBytes);
    var ns := SymbolLen(c, maxTokens);
    var h := ArtifactHead(pn, ns);
    assert w[..28] == h;
    HeadSlices(pn, ns);
    var hd := HeaderWords(A2A_MAGIC, A2A_VERSION, 5, 28, 42 + pn + ns);
    assert w[..8] == hd;
    assert w[0] == hd[0] && w[1] == hd[1] && w[2] == hd[2] && w[3] == hd[3];
    assert w[4] == hd[4] && w[5] == hd[5] && w[6] == hd[6] && w[7] == hd[7];
  }

  /** The TOC: ids 1..5 in order, row widths 6, 4, 1, 1, 4, each offset the
      previous offset plus the previous length starting at 28, and META
      ending exactly at the total. */
  lemma ArtifactToc(c: seq<u8>, pathKey: seq<u8>, langId: u32, previewBytes: nat, maxTokens: nat)
    requires ArtifactFits(c, previewBytes, maxTokens)
    ensures var w := ArtifactPacket(c, pathKey, langId, previewBytes, maxTokens);
      var pn := SourceLen(c, previewBytes);
      var ns := SymbolLen(c, maxTokens);
      (forall i :: 0 <= i < 5 ==> HasEntry(w, i)) &&
      EntryAt(w, 0) == TocEntry(A2A_SEC_CODE, 28, 6, 6) &&
      EntryAt(w, 1) == TocEntry(A2A_SEC_SLOT, 28 + 6, 0, 4) &&
      EntryAt(w, 2) == TocEntry(A2A_SEC_SOURCE_U8, 28 + 6 + 0, pn, 1) &&
      EntryAt(w, 3) == TocEntry(A2A_SEC_SYMBOL_HASH, 28 + 6 + 0 + pn, ns, 1) &&
      EntryAt(w, 4) == TocEntry(A2A_SEC_META, 28 + 6 + 0 + pn + ns, 8, 4) &&
      28 + 6 + 0 + pn + ns + 8 == |w|
  {
    ArtifactLayout(c, pathKey, langId, previewBytes, maxTokens);
    var w := ArtifactPacket(c, pathKey, langId, previewBytes, maxTokens);
    var pn := SourceLen(c, previewBytes);
    var ns := SymbolLen(c, maxTokens);
    var h := ArtifactHead(pn, ns);
    assert w[..28] == h;
    HeadSlices(pn, ns);
    HeadEntry(w, h, 0, TocEntry(A2A_SEC_CODE, 28, 6, 6));
    HeadEntry(w, h, 1, TocEntry(A2A_SEC_SLOT, 34, 0, 4));
    HeadEntry(w, h, 2, TocEntry(A2A_SEC_SOURCE_U8, 34, pn, 1));
    HeadEntry(w, h, 3, TocEntry(A2A_SEC_SYMBOL_HASH, 34 + pn, ns, 1));
    HeadEntry(w, h, 4, TocEntry(A2A_SEC_META, 34 + pn + ns, 8, 4));
  }

  /** The header and the five entries inside ArtifactHead. */
  lemma HeadSlices(pn: nat, ns: nat)
    requires 42 + pn + ns < U32_MOD
    ensures var h := ArtifactHead(pn, ns);
      h[..8] == HeaderWords(A2A_MAGIC, A2A_VERSION, 5, 28, 42 + pn + ns) &&
      h[4] == HEADER_WORDS &&
      h[8..12] == EntryWords(TocEntry(A2A_SEC_CODE, 28, 6, 6)) &&
      h[12..16] == EntryWords(TocEntry(A2A_SEC_SLOT, 34, 0, 4)) &&
      h[16..20] == EntryWords(TocEntry(A2A_SEC_SOURCE_U8, 34, pn, 1)) &&
      h[20..24] == EntryWords(TocEntry(A2A_SEC_SYMBOL_HASH, 34 + pn, ns, 1)) &&
      h[24..28] == EntryWords(TocEntry(A2A_SEC_META, 34 + pn + ns, 8, 4))
  {
    var hd := HeaderWords(A2A_MAGIC, A2A_VERSION, 5, 28, 42 + pn + ns);
    var e0 := EntryWords(TocEntry(A2A_SEC_CODE, 28, 6, 6));
    Slices(hd + e0, EntryWords(TocEntry(A2A_SEC_SLOT, 34, 0, 4)),
      EntryWords(TocEntry(A2A_SEC_SOURCE_U8, 34, pn, 1)),
      EntryWords(TocEntry(A2A_SEC_SYMBOL_HASH, 34 + pn, ns, 1)),
      EntryWords(TocEntry(A2A_SEC_META, 34 + pn + ns, 8, 4)));
    assert (hd + e0)[8..12] == e0 && (hd + e0)[..8] == hd;
  }

  /** The payloads: the CODE row {13,0,0,0,0,0}, no SLOT rows, the preview,
      the symbol hashes and META {1, len, lines, lang, 2, pathHash,
      contentHash, tokens}, each at the offset its TOC entry gives. */
  lemma ArtifactPayloads(c: seq<u8>, pathKey: seq<u8>, langId: u32, previewBytes: nat, maxTokens: nat)
    requires ArtifactFits(c, previewBytes, maxTokens)
    ensures var w := ArtifactPacket(c, pathKey, langId, previewBytes, maxTokens);
      var pn := SourceLen(c, previewBytes);
      var ns := SymbolLen(c, maxTokens);
      |w| == 42 + pn + ns &&
      w[28..34] == [13, 0, 0, 0, 0, 0] &&
      w[34..34 + pn] == SourcePayload(c, previewBytes) &&
      w[34 + pn..34 + pn + ns] == PacketSymbols(c, maxTokens) &&
      w[34 + pn + ns..] == [1, Wrap32(|c|), Wrap32(LineCount(c)), langId, 2, Fnv(pathKey), Fnv(c), ns]
  {
    ArtifactLayout(c, pathKey, langId, previewBytes, maxTokens);
    var w := ArtifactPacket(c, pathKey, langId, previewBytes, maxTokens);
    var pn := SourceLen(c, previewBytes);
    var ns := SymbolLen(c, maxTokens);
    var pre := SourcePayload(c, previewBytes);
    var sym := PacketSymbols(c, maxTokens);
    var meta := MetaRow(c, pathKey, langId, maxTokens);
    var h := ArtifactHead(pn, ns);
    assert w == h + CODE_ROW + pre + sym + meta;
    Slices(h, CODE_ROW, pre, sym, meta);
  }

  /** The validator accepts every packet make_packet produces. */
  lemma ArtifactWellFormed(c: seq<u8>, pathKey: seq<u8>, langId: u32, previewBytes: nat, maxTokens: nat)
    requires ArtifactFits(c, previewBytes, maxTokens)
    ensures WellFormed(ArtifactPacket(c, pathKey, langId, previewBytes, maxTokens), A2A_MAGIC)
  {
    var secs := ArtifactSections(c, pathKey, langId, previewBytes, maxTokens);
    ArtifactLayout(c, pathKey, langId, previewBytes, maxTokens);
    assert forall i :: 0 <= i < |secs| ==> SectionOk(secs[i]);
    AssembleWellFormed(A2A_MAGIC, A2A_VERSION, secs);
  }

  // ---------------------------------------------------------------------
  // The builder

  /** The preview copy of make_packet (lines 353-354). */
  method CopyPreview(content: seq<u8>, previewBytes: nat) returns (sourceU8: array<u32>)
    ensures sourceU8[..] == Preview(content, previewBytes)
  {
    var previewN := if |content| < previewBytes then |content| else previewBytes;
    sourceU8 := new u32[previewN](_ => 0);
    var k := 0;
    while k < previewN
      invariant 0 <= k <= previewN
      invariant forall m :: 0 <= m < k ==> sourceU8[m] == content[m]
    {
      sourceU8[k] := content[k];
      k := k + 1;
    }
  }

  /** The header and TOC writes of make_packet (lines 371-424), entry by
      entry with the offset p advancing; they only touch words 0..27. */
  method WriteHead(w: array<u32>, lenSource: nat, lenSym: nat)
    requires 42 + lenSource + lenSym == w.Length < U32_MOD
    modifies w
    ensures w[..28] == ArtifactHead(lenSource, lenSym)
  {
    var total := w.Length;
    SetHeader(w, A2A_MAGIC, A2A_VERSION, 5, 28, total);
    ghost var done := HeaderWords(A2A_MAGIC, A2A_VERSION, 5, 28, total);
    var p := 28;
    var e := TocEntry(A2A_SEC_CODE, p, 6, 6);
    SetEntry(w, 0, e);
    Join(w[..], 8, done, EntryWords(e));
    done := done + EntryWords(e);
    p := p + 6;
    e := TocEntry(A2A_SEC_SLOT, p, 0, 4);
    SetEntry(w, 1, e);
    Join(w[..], 12, done, EntryWords(e));
    done := done + EntryWords(e);
    p := p + 0;
    e := TocEntry(A2A_SEC_SOURCE_U8, p, lenSource, 1);
    SetEntry(w, 2, e);
    Join(w[..], 16, done, EntryWords(e));
    done := done + EntryWords(e);
    p := p + lenSource;
    e := TocEntry(A2A_SEC_SYMBOL_HASH, p, lenSym, 1);
    SetEntry(w, 3, e);
    Join(w[..], 20, done, EntryWords(e));
    done := done + EntryWords(e);
    p := p + lenSym;
    e := TocEntry(A2A_SEC_META, p, 8, 4);
    SetEntry(w, 4, e);
    Join(w[..], 24, done, EntryWords(e));
  }

  /** The payload copies of make_packet (lines 393, 408, 416, 424): CODE,
      SOURCE_U8, SYMBOL_HASH and META back to back from word 28 on; the SLOT
      section is empty and copies nothing. */
  method WritePayloads(w: array<u32>, code: seq<u32>, source: seq<u32>, symbols: seq<u32>, meta: seq<u32>)
    requires |code| == 6 && |meta| == 8
    requires w.Length == 28 + 6 + 0 + |source| + |symbols| + 8
    modifies w
    ensures w[..] == old(w[..28]) + code + source + symbols + meta
  {
    ghost var done := w[..28];
    var p := 28;
    Put(w, p, code);
    Join(w[..], p, done, code);
    done := done + code;
    p := p + 6;
    Put(w, p, source);
    Join(w[..], p, done, source);
    done := done + source;
    p := p + |source|;
    Put(w, p, symbols);
    Join(w[..], p, done, symbols);
    done := done + symbols;
    p := p + |symbols|;
    Put(w, p, meta);
    Join(w[..], p, done, meta);
    assert w[..] == w[..w.Length];
  }

  /** The buffer of make_packet: a zeroed buffer of `total` words, filled
      with header and TOC, then with the payloads. */
  method FillPacket(code: seq<u32>, source: seq<u32>, symbols: seq<u32>, meta: seq<u32>)
    returns (w: array<u32>)
    requires |code| == 6 && |meta| == 8
    requires 42 + |source| + |symbols| < U32_MOD
    ensures w[..] == ArtifactHead(|source|, |symbols|) + (code + [] + source + symbols + meta)
  {
    var total := 28 + 6 + 0 + |source| + |symbols| + 8;
    w := new u32[total](_ => 0);
    WriteHead(w, |source|, |symbols|);
    WritePayloads(w, code, source, symbols, meta);
  }

  /** make_packet: hashes, scans, counts lines, copies the preview, casts
      the two lengths to uint32_t and writes the five sections into a fresh
      buffer. It fails when total would not fit its uint32_t, where the code
      as written lets the sum wrap (see ArtifactTotalWraps). */
  method MakePacket(content: seq<u8>, pathKey: seq<u8>, langId: u32, previewBytes: nat, maxTokens: nat)
    returns (ok: bool, w: array<u32>)
    ensures ok <==> ArtifactFits(content, previewBytes, maxTokens)
    ensures ok ==> w[..] == ArtifactPacket(content, pathKey, langId, previewBytes, maxTokens)
  {
    var contentHash := Fnv1a32(content);
    var pathHash := Fnv1a32(pathKey);
    var symbols := ScanSymbols(content, maxTokens);
    var lines := CountLines(content);
    var sourceU8 := CopyPreview(content, previewBytes);
    var code := [13, 0, 0, 0, 0, 0];
    var meta := [1, Wrap32(|content|), Wrap32(lines), langId, 2, pathHash, contentHash, Wrap32(|symbols|)];
    assert meta == MetaRow(content, pathKey, langId, maxTokens);
    var lenSource := Wrap32(sourceU8.Length);
    var lenSym := Wrap32(|symbols|);
    if 42 + lenSource + lenSym >= U32_MOD {
      return false, new u32[0];
    }
    assert sourceU8[..lenSource] == SourcePayload(content, previewBytes);
    assert symbols[..lenSym] == PacketSymbols(content, maxTokens);
    w := FillPacket(code, sourceU8[..lenSource], symbols[..lenSym], meta);
    ArtifactLayout(content, pathKey, langId, previewBytes, maxTokens);
    ok := true;
  }

  // ---------------------------------------------------------------------
  // Language ids

  /** has_ext: the name ends with the extension. */
  predicate HasExt(name: string, ext: string)
  {
    |name| >= |ext| && name[|name| - |ext|..] == ext
  }

  /** lang_id_for_ext: the language id of a source file name (0 = unknown). */
  function LangIdForExt(name: string): u32
  {
    if HasExt(name, ".js") || HasExt(name, ".mjs") || HasExt(name, ".cjs") || HasExt(name, ".jsx") then 1
    else if HasExt(name, ".ts") || HasExt(name, ".tsx") then 2
    else if HasExt(name, ".html") || HasExt(name, ".htm") then 3
    else if HasExt(name, ".css") || HasExt(name, ".scss") then 4
    else if HasExt(name, ".sql") then 5
    else if HasExt(name, ".php") then 6
    else if HasExt(name, ".py") then 7
    else if HasExt(name, ".rb") then 8
    else if HasExt(name, ".go") then 9
    else if HasExt(name, ".java") then 10
    else if HasExt(name, ".kt") then 11
    else if HasExt(name, ".rs") then 12
    else if HasExt(name, ".json") then 13
    else if HasExt(name, ".yml") || HasExt(name, ".yaml") then 14
    else 0
  }

  const SUPPORTED_EXTS: seq<string> := [
    ".js", ".mjs", ".cjs", ".ts", ".tsx", ".jsx", ".html", ".htm", ".css", ".scss",
    ".sql", ".php", ".py", ".rb", ".go", ".java", ".kt", ".rs", ".json", ".yml", ".yaml"]

  /** is_supported_lang: the loop over the extension table. */
  method IsSupportedLang(name: string) returns (r: bool)
    ensures r <==> exists i :: 0 <= i < |SUPPORTED_EXTS| && HasExt(name, SUPPORTED_EXTS[i])
  {
    var i := 0;
    while i < |SUPPORTED_EXTS|
      invariant 0 <= i <= |SUPPORTED_EXTS|
      invariant forall j :: 0 <= j < i ==> !HasExt(name, SUPPORTED_EXTS[j])
    {
      if HasExt(name, SUPPORTED_EXTS[i]) {
        return true;
      }
      i := i + 1;
    }
    return false;
  }

  /** The two extension tables agree: a name has a nonzero language id
      exactly when its extension is in the supported list. */
  lemma LangIdIffSupported(name: string)
    ensures LangIdForExt(name) != 0 <==> exists i :: 0 <= i < |SUPPORTED_EXTS| && HasExt(name, SUPPORTED_EXTS[i])
  {
    if exists i :: 0 <= i < |SUPPORTED_EXTS| && HasExt(name, SUPPORTED_EXTS[i]) {
      var i :| 0 <= i < |SUPPORTED_EXTS| && HasExt(name, SUPPORTED_EXTS[i]);
      SupportedHasLang(name, i);
    } else {
      UnsupportedNoLang(name);
    }
  }

  /** A name ending with an extension of the supported list has a language id. */
  lemma SupportedHasLang(name: string, i: nat)
    requires i < |SUPPORTED_EXTS| && HasExt(name, SUPPORTED_EXTS[i])
    ensures LangIdForExt(name) != 0
  {
  }

  /** A name ending with none of the supported extensions has language id 0. */
  lemma UnsupportedNoLang(name: string)
    requires forall i :: 0 <= i < |SUPPORTED_EXTS| ==> !HasExt(name, SUPPORTED_EXTS[i])
    ensures LangIdForExt(name) == 0
  {
    assert !HasExt(name, SUPPORTED_EXTS[0]);
    assert !HasExt(name, SUPPORTED_EXTS[1]);
    assert !HasExt(name, SUPPORTED_EXTS[2]);
    assert !HasExt(name, SUPPORTED_EXTS[3]);
    assert !HasExt(name, SUPPORTED_EXTS[4]);
    assert !HasExt(name, SUPPORTED_EXTS[5]);
    assert !HasExt(name, SUPPORTED_EXTS[6]);
    assert !HasExt(name, SUPPORTED_EXTS[7]);
    assert !HasExt(name, SUPPORTED_EXTS[8]);
    assert !HasExt(name, SUPPORTED_EXTS[9]);
    assert !HasExt(name, SUPPORTED_EXTS[10]);
    assert !HasExt(name, SUPPORTED_EXTS[11]);
    assert !HasExt(name, SUPPORTED_EXTS[12]);
    assert !HasExt(name, SUPPORTED_EXTS[13]);
    assert !HasExt(name, SUPPORTED_EXTS[14]);
    assert !HasExt(name, SUPPORTED_EXTS[15]);
    assert !HasExt(name, SUPPORTED_EXTS[16]);
    assert !HasExt(name, SUPPORTED_EXTS[17]);
    assert !HasExt(name, SUPPORTED_EXTS[18]);
    assert !HasExt(name, SUPPORTED_EXTS[19]);
    assert !HasExt(name, SUPPORTED_EXTS[20]);
  }
}
