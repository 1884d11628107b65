/** The physical AIIR container layout shared by both profiles: an 8-word
    header `magic, version, sectionCount, reserved, tocOffset, payloadBase,
    totalWords, reserved2`, a table of contents of 4-word entries `id, offset,
    length, rowWidth`, and the section payloads.

    This module holds the structural invariants that the validator and both
    loaders check, the layout that both builders produce (`Assemble`), and the
    32-bit versions of the checks as the loaders actually compute them. */
module Container {
  import opened AiirTypes

  const HEADER_WORDS: nat := 8
  const ENTRY_WORDS: nat := 4

  // Section ids of the artifact profile
  const A2A_SEC_CODE: u32 := 1
  const A2A_SEC_SLOT: u32 := 2
  const A2A_SEC_SOURCE_U8: u32 := 3
  const A2A_SEC_SYMBOL_HASH: u32 := 4
  const A2A_SEC_META: u32 := 5
  const A2A_SEC_CODE_INFO: u32 := 8

  // Section ids of the schema profile
  const D2B_SEC_OPS: u32 := 1
  const D2B_SEC_SIG: u32 := 2
  const D2B_SEC_META: u32 := 3

  datatype TocEntry = TocEntry(id: u32, off: u32, len: u32, rw: u32)

  /** TOC entry i lies inside the buffer: its last word, toc_base + 4*i + 3,
      is a valid index (computed without wrap-around). */
  predicate HasEntry(w: seq<u32>, i: nat)
  {
    |w| >= HEADER_WORDS && w[4] + ENTRY_WORDS * i + 3 < |w|
  }

  function EntryAt(w: seq<u32>, i: nat): TocEntry
    requires HasEntry(w, i)
  {
    var t := w[4] + ENTRY_WORDS * i;
    TocEntry(w[t], w[t + 1], w[t + 2], w[t + 3])
  }

  /** The bounds invariants of one section: a nonzero row width that divides
      the length, and a word range inside a buffer of n words. */
  predicate EntryFits(e: TocEntry, n: nat)
  {
    e.rw != 0 && e.len % e.rw == 0 && e.off + e.len <= n
  }

  /** Every one of the sectionCount entries is in the buffer and fits. */
  predicate TocValid(w: seq<u32>)
    requires |w| >= HEADER_WORDS
  {
    forall i :: 0 <= i < w[2] ==> HasEntry(w, i) && EntryFits(EntryAt(w, i), |w|)
  }

  /** A structurally valid container of the profile with the given magic. */
  predicate WellFormed(w: seq<u32>, magic: u32)
  {
    |w| >= HEADER_WORDS && w[0] == magic && w[6] == |w| && TocValid(w)
  }

  /** The first k TOC entries all lie inside the buffer. */
  predicate EntriesIn(w: seq<u32>, k: nat)
  {
    forall j :: 0 <= j < k ==> HasEntry(w, j)
  }

  /** The index of the LAST entry among the first k whose id is `id`: the
      loaders overwrite what they found on every match, so the last one wins. */
  function LastIndex(w: seq<u32>, id: u32, k: nat): (r: Option<nat>)
    requires EntriesIn(w, k)
    ensures r.Some? ==> r.value < k && EntryAt(w, r.value).id == id
    ensures r.Some? ==> forall j :: r.value < j < k ==> EntryAt(w, j).id != id
    ensures r.None? ==> forall j :: 0 <= j < k ==> EntryAt(w, j).id != id
  {
    if k == 0 then None
    else if EntryAt(w, k - 1).id == id then Some(k - 1)
    else LastIndex(w, id, k - 1)
  }

  /** The last entry with the id among the first k, if any. */
  function LastEntryIn(w: seq<u32>, id: u32, k: nat): Option<TocEntry>
    requires EntriesIn(w, k)
  {
    match LastIndex(w, id, k)
    case None => None
    case Some(i) => Some(EntryAt(w, i))
  }

  /** The entry the loaders end up using for a section id, if any. */
  function LastEntry(w: seq<u32>, id: u32): Option<TocEntry>
    requires |w| >= HEADER_WORDS && TocValid(w)
  {
    LastEntryIn(w, id, w[2])
  }

  /** The entry the loaders use is one of the checked entries: it has the
      id and it fits the buffer. */
  lemma LastEntryFits(w: seq<u32>, id: u32)
    requires |w| >= HEADER_WORDS && TocValid(w) && LastEntry(w, id).Some?
    ensures LastEntry(w, id).value.id == id && EntryFits(LastEntry(w, id).value, |w|)
  {
    var i := LastIndex(w, id, w[2]).value;
    assert HasEntry(w, i) && EntryFits(EntryAt(w, i), |w|);
  }

  /** One more entry: it becomes the last entry of its id and leaves the
      other ids alone. */
  lemma LastEntryInStep(w: seq<u32>, id: u32, k: nat)
    requires EntriesIn(w, k + 1)
    ensures LastEntryIn(w, id, k + 1) == if EntryAt(w, k).id == id then Some(EntryAt(w, k)) else LastEntryIn(w, id, k)
  {
  }

  /** The payload words of an entry that fits. */
  function Slice(w: seq<u32>, e: TocEntry): seq<u32>
    requires e.off + e.len <= |w|
  {
    w[e.off..e.off + e.len]
  }

  // ---------------------------------------------------------------------
  // The layout produced by the builders

  /** A section to lay out: its id, its row width and its payload. */
  datatype Section = Section(id: u32, rw: u32, payload: seq<u32>)

  /** The payloads laid back to back, in order. */
  function Payloads(secs: seq<Section>): seq<u32>
  {
    if secs == [] then [] else Payloads(secs[..|secs| - 1]) + secs[|secs| - 1].payload
  }

  /** Total words of the container that lays out `secs`. */
  function AssembledSize(secs: seq<Section>): nat
  {
    HEADER_WORDS + ENTRY_WORDS * |secs| + |Payloads(secs)|
  }

  /** A well-formed section: nonzero row width dividing the payload length. */
  predicate SectionOk(s: Section)
  {
    s.rw != 0 && |s.payload| % s.rw == 0
  }

  /** The TOC for `secs` when their payloads start at word `base`: one entry
      per section, each offset the previous offset plus the previous length. */
  function TocWords(secs: seq<Section>, base: nat): (r: seq<u32>)
    requires base + |Payloads(secs)| < U32_MOD
    ensures |r| == ENTRY_WORDS * |secs|
  {
    if secs == [] then []
    else
      var init := secs[..|secs| - 1];
      var last := secs[|secs| - 1];
      TocWords(init, base) + [last.id, base + |Payloads(init)|, |last.payload|, last.rw]
  }

  /** The container `encode` produces: header, TOC in call order, payloads in
      the same order; payloadBase and totalWords follow from the sizes. */
  function Assemble(magic: u32, version: u32, secs: seq<Section>): seq<u32>
    requires AssembledSize(secs) < U32_MOD
  {
    var base := HEADER_WORDS + ENTRY_WORDS * |secs|;
    [magic, version, |secs|, 0, HEADER_WORDS, base, AssembledSize(secs), 0]
      + TocWords(secs, base) + Payloads(secs)
  }

  /** Word offset of section i in the assembled container. */
  function SectionOffset(secs: seq<Section>, i: nat): nat
    requires i <= |secs|
  {
    HEADER_WORDS + ENTRY_WORDS * |secs| + |Payloads(secs[..i])|
  }

  lemma {:induction false} PayloadsPrefix(secs: seq<Section>, i: nat)
    requires i <= |secs|
    ensures |Payloads(secs[..i])| <= |Payloads(secs)|
    ensures Payloads(secs)[..|Payloads(secs[..i])|] == Payloads(secs[..i])
    decreases |secs|
  {
    if i == |secs| {
      assert secs[..i] == secs;
    } else {
      var init := secs[..|secs| - 1];
      assert init[..i] == secs[..i];
      PayloadsPrefix(init, i);
    }
  }

  /** Section i's payload sits right after the payloads of sections 0..i-1. */
  lemma PayloadSlice(secs: seq<Section>, i: nat)
    requires i < |secs|
    ensures var a := |Payloads(secs[..i])|;
      a + |secs[i].payload| <= |Payloads(secs)| &&
      Payloads(secs)[a..a + |secs[i].payload|] == secs[i].payload
  {
    var p := Payloads(secs[..i + 1]);
    assert secs[..i + 1][..i] == secs[..i];
    assert p == Payloads(secs[..i]) + secs[i].payload;
    PayloadsPrefix(secs, i + 1);
  }

  lemma {:induction false} TocWordsAt(secs: seq<Section>, base: nat, i: nat)
    requires base + |Payloads(secs)| < U32_MOD
    requires i < |secs|
    ensures |Payloads(secs[..i])| <= |Payloads(secs)|
    ensures var t := TocWords(secs, base);
      t[4 * i] == secs[i].id && t[4 * i + 1] == base + |Payloads(secs[..i])| &&
      t[4 * i + 2] == |secs[i].payload| && t[4 * i + 3] == secs[i].rw
    decreases |secs|
  {
    PayloadsPrefix(secs, i);
    var init := secs[..|secs| - 1];
    if i < |secs| - 1 {
      assert init[..i] == secs[..i];
      PayloadsPrefix(secs, |secs| - 1);
      TocWordsAt(init, base, i);
    }
  }

  /** Appending a section appends its payload. */
  lemma PayloadsSnoc(secs: seq<Section>, s: Section)
    ensures Payloads(secs + [s]) == Payloads(secs) + s.payload
  {
    assert (secs + [s])[..|secs|] == secs;
  }

  /** Appending a section appends its entry, at the end of the payloads so far. */
  lemma TocWordsSnoc(secs: seq<Section>, s: Section, base: nat)
    requires base + |Payloads(secs)| + |s.payload| < U32_MOD
    ensures Payloads(secs + [s]) == Payloads(secs) + s.payload
    ensures TocWords(secs + [s], base) == TocWords(secs, base) + [s.id, base + |Payloads(secs)|, |s.payload|, s.rw]
  {
    assert (secs + [s])[..|secs|] == secs;
  }

  /** The eight header words. */
  function HeaderWords(magic: u32, version: u32, count: u32, payloadBase: u32, total: u32): seq<u32>
  {
    [magic, version, count, 0, HEADER_WORDS, payloadBase, total, 0]
  }

  /** The four words of a TOC entry. */
  function EntryWords(e: TocEntry): seq<u32>
  {
    [e.id, e.off, e.len, e.rw]
  }

  /** The four words of the entry for section s at offset off. */
  function EntryFor(s: Section, off: u32): seq<u32>
    requires |s.payload| < U32_MOD
  {
    EntryWords(TocEntry(s.id, off, |s.payload|, s.rw))
  }

  // Payloads and TOC of two to five sections written out, each obtained
  // from the previous by one TocWordsSnoc step.

  lemma TocTwo(base: nat, a: Section, b: Section)
    requires base + |a.payload| + |b.payload| < U32_MOD
    ensures Payloads([a, b]) == a.payload + b.payload
    ensures TocWords([a, b], base) == EntryFor(a, base) + EntryFor(b, base + |a.payload|)
  {
    assert [a] == [] + [a];
    assert [a, b] == [a] + [b];
    TocWordsSnoc([], a, base);
    TocWordsSnoc([a], b, base);
  }

  lemma TocThree(base: nat, a: Section, b: Section, c: Section)
    requires base + |a.payload| + |b.payload| + |c.payload| < U32_MOD
    ensures Payloads([a, b, c]) == a.payload + b.payload + c.payload
    ensures TocWords([a, b, c], base) == EntryFor(a, base) + EntryFor(b, base + |a.payload|)
      + EntryFor(c, base + |a.payload| + |b.payload|)
  {
    TocTwo(base, a, b);
    assert [a, b, c] == [a, b] + [c];
    TocWordsSnoc([a, b], c, base);
  }

  lemma TocFour(base: nat, a: Section, b: Section, c: Section, d: Section)
    requires base + |a.payload| + |b.payload| + |c.payload| + |d.payload| < U32_MOD
    ensures Payloads([a, b, c, d]) == a.payload + b.payload + c.payload + d.payload
    ensures TocWords([a, b, c, d], base) == EntryFor(a, base) + EntryFor(b, base + |a.payload|)
      + EntryFor(c, base + |a.payload| + |b.payload|)
      + EntryFor(d, base + |a.payload| + |b.payload| + |c.payload|)
  {
    TocThree(base, a, b, c);
    assert [a, b, c, d] == [a, b, c] + [d];
    TocWordsSnoc([a, b, c], d, base);
  }

  lemma TocFive(base: nat, a: Section, b: Section, c: Section, d: Section, e: Section)
    requires base + |a.payload| + |b.payload| + |c.payload| + |d.payload| + |e.payload| < U32_MOD
    ensures Payloads([a, b, c, d, e]) == a.payload + b.payload + c.payload + d.payload + e.payload
    ensures TocWords([a, b, c, d, e], base) == EntryFor(a, base) + EntryFor(b, base + |a.payload|)
      + EntryFor(c, base + |a.payload| + |b.payload|)
      + EntryFor(d, base + |a.payload| + |b.payload| + |c.payload|)
      + EntryFor(e, base + |a.payload| + |b.payload| + |c.payload| + |d.payload|)
  {
    TocFour(base, a, b, c, d);
    assert [a, b, c, d, e] == [a, b, c, d] + [e];
    TocWordsSnoc([a, b, c, d], e, base);
  }

  /** The words of a three-section container, written out. */
  lemma AssembleThree(magic: u32, version: u32, a: Section, b: Section, c: Section)
    requires 20 + |a.payload| + |b.payload| + |c.payload| < U32_MOD
    ensures AssembledSize([a, b, c]) == 20 + |a.payload| + |b.payload| + |c.payload|
    ensures Assemble(magic, version, [a, b, c]) ==
      HeaderWords(magic, version, 3, 20, 20 + |a.payload| + |b.payload| + |c.payload|)
      + TocWords([a, b, c], 20) + (a.payload + b.payload + c.payload)
    ensures TocWords([a, b, c], 20) == EntryFor(a, 20) + EntryFor(b, 20 + |a.payload|)
      + EntryFor(c, 20 + |a.payload| + |b.payload|)
  {
    TocThree(20, a, b, c);
  }

  /** The words of a five-section container, written out. */
  lemma AssembleFive(magic: u32, version: u32, a: Section, b: Section, c: Section, d: Section, e: Section)
    requires 28 + |a.payload| + |b.payload| + |c.payload| + |d.payload| + |e.payload| < U32_MOD
    ensures AssembledSize([a, b, c, d, e]) == 28 + |a.payload| + |b.payload| + |c.payload| + |d.payload| + |e.payload|
    ensures Assemble(magic, version, [a, b, c, d, e]) ==
      HeaderWords(magic, version, 5, 28, 28 + |a.payload| + |b.payload| + |c.payload| + |d.payload| + |e.payload|)
      + TocWords([a, b, c, d, e], 28) + (a.payload + b.payload + c.payload + d.payload + e.payload)
    ensures TocWords([a, b, c, d, e], 28) == EntryFor(a, 28) + EntryFor(b, 28 + |a.payload|)
      + EntryFor(c, 28 + |a.payload| + |b.payload|)
      + EntryFor(d, 28 + |a.payload| + |b.payload| + |c.payload|)
      + EntryFor(e, 28 + |a.payload| + |b.payload| + |c.payload| + |d.payload|)
  {
    TocFive(28, a, b, c, d, e);
  }

  /** Reading back entry i of a buffer that starts with the header and TOC h. */
  lemma HeadEntry(w: seq<u32>, h: seq<u32>, i: nat, e: TocEntry)
    requires HEADER_WORDS <= |h| <= |w| && w[..|h|] == h && h[4] == HEADER_WORDS
    requires HEADER_WORDS + ENTRY_WORDS * i + ENTRY_WORDS <= |h|
    requires h[HEADER_WORDS + ENTRY_WORDS * i..HEADER_WORDS + ENTRY_WORDS * i + ENTRY_WORDS] == EntryWords(e)
    ensures HasEntry(w, i) && EntryAt(w, i) == e
  {
    var t := HEADER_WORDS + ENTRY_WORDS * i;
    assert w[4] == h[4];
    assert h[t..t + 4][0] == h[t] && h[t..t + 4][1] == h[t + 1];
    assert h[t..t + 4][2] == h[t + 2] && h[t..t + 4][3] == h[t + 3];
    assert w[t] == h[t] && w[t + 1] == h[t + 1] && w[t + 2] == h[t + 2] && w[t + 3] == h[t + 3];
  }

  /** Reading back an entry whose four words sit at toc_base + 4i. */
  lemma EntryFromWords(w: seq<u32>, i: nat, e: TocEntry)
    requires |w| >= HEADER_WORDS && w[4] == HEADER_WORDS
    requires HEADER_WORDS + ENTRY_WORDS * i + ENTRY_WORDS <= |w|
    requires w[HEADER_WORDS + ENTRY_WORDS * i..HEADER_WORDS + ENTRY_WORDS * i + ENTRY_WORDS] == EntryWords(e)
    ensures HasEntry(w, i) && EntryAt(w, i) == e
  {
    var t := HEADER_WORDS + ENTRY_WORDS * i;
    assert w[t..t + 4][0] == w[t] && w[t..t + 4][1] == w[t + 1];
    assert w[t..t + 4][2] == w[t + 2] && w[t..t + 4][3] == w[t + 3];
  }

  /** Header words of an assembled container. */
  lemma AssembleHeader(magic: u32, version: u32, secs: seq<Section>)
    requires AssembledSize(secs) < U32_MOD
    ensures var w := Assemble(magic, version, secs);
      |w| == AssembledSize(secs) &&
      w[0] == magic && w[1] == version && w[2] == |secs| && w[3] == 0 &&
      w[4] == HEADER_WORDS && w[5] == HEADER_WORDS + ENTRY_WORDS * |secs| &&
      w[6] == |w| && w[7] == 0
  {
  }

  /** TOC entry i of an assembled container describes section i: its id, its
      row width, its length, and the offset where its payload starts. */
  lemma AssembleEntry(magic: u32, version: u32, secs: seq<Section>, i: nat)
    requires AssembledSize(secs) < U32_MOD
    requires i < |secs|
    ensures var w := Assemble(magic, version, secs);
      HasEntry(w, i) &&
      EntryAt(w, i).id == secs[i].id && EntryAt(w, i).off == SectionOffset(secs, i) &&
      EntryAt(w, i).len == |secs[i].payload| && EntryAt(w, i).rw == secs[i].rw
  {
    var base := HEADER_WORDS + ENTRY_WORDS * |secs|;
    var w := Assemble(magic, version, secs);
    var t := TocWords(secs, base);
    TocWordsAt(secs, base, i);
    assert w[8 + 4 * i] == t[4 * i];
    assert w[8 + 4 * i + 1] == t[4 * i + 1];
    assert w[8 + 4 * i + 2] == t[4 * i + 2];
    assert w[8 + 4 * i + 3] == t[4 * i + 3];
  }

  /** The words of an entry of an assembled container are its section's payload. */
  lemma AssemblePayload(magic: u32, version: u32, secs: seq<Section>, i: nat)
    requires AssembledSize(secs) < U32_MOD
    requires i < |secs|
    ensures var w := Assemble(magic, version, secs);
      SectionOffset(secs, i) + |secs[i].payload| <= |w| &&
      w[SectionOffset(secs, i)..SectionOffset(secs, i) + |secs[i].payload|] == secs[i].payload
  {
    var base := HEADER_WORDS + ENTRY_WORDS * |secs|;
    var w := Assemble(magic, version, secs);
    var head := [magic, version, |secs|, 0, HEADER_WORDS, base, AssembledSize(secs), 0] + TocWords(secs, base);
    assert |head| == base;
    PayloadSlice(secs, i);
    var a := |Payloads(secs[..i])|;
    var n := |secs[i].payload|;
    assert w == head + Payloads(secs);
    assert w[base + a..base + a + n] == Payloads(secs)[a..a + n];
  }

  /** Validator soundness for the builders: a container laid out from
      well-formed sections passes every structural check. */
  lemma AssembleWellFormed(magic: u32, version: u32, secs: seq<Section>)
    requires AssembledSize(secs) < U32_MOD
    requires forall i :: 0 <= i < |secs| ==> SectionOk(secs[i])
    ensures WellFormed(Assemble(magic, version, secs), magic)
  {
    var w := Assemble(magic, version, secs);
    AssembleHeader(magic, version, secs);
    forall i | 0 <= i < w[2]
      ensures HasEntry(w, i) && EntryFits(EntryAt(w, i), |w|)
    {
      AssembleEntry(magic, version, secs, i);
      AssemblePayload(magic, version, secs, i);
    }
  }

  // ---------------------------------------------------------------------
  // Filling a calloc'd word buffer

  /** memcpy(w + at, src, |src| words). */
  method Put(w: array<u32>, at: nat, src: seq<u32>)
    requires at + |src| <= w.Length
    modifies w
    ensures w[..at] == old(w[..at])
    ensures w[at..at + |src|] == src
    ensures w[at + |src|..] == old(w[at + |src|..])
  {
    var k := 0;
    while k < |src|
      invariant 0 <= k <= |src|
      invariant forall m :: 0 <= m < w.Length && !(at <= m < at + k) ==> w[m] == old(w[m])
      invariant forall m :: 0 <= m < k ==> w[at + m] == src[m]
    {
      w[at + k] := src[k];
      k := k + 1;
    }
  }

  /** The eight header assignments `w[0] = magic; ... w[7] = 0u;`. */
  method SetHeader(w: array<u32>, magic: u32, version: u32, count: u32, payloadBase: u32, total: u32)
    requires HEADER_WORDS <= w.Length
    modifies w
    ensures w[..HEADER_WORDS] == HeaderWords(magic, version, count, payloadBase, total)
    ensures w[HEADER_WORDS..] == old(w[HEADER_WORDS..])
  {
    w[0], w[1], w[2], w[3] := magic, version, count, 0;
    w[4], w[5], w[6], w[7] := HEADER_WORDS, payloadBase, total, 0;
  }

  /** The four assignments `w[toc_base + 4i + 0..3] = id, off, len, rw` of one
      TOC entry, with toc_base = 8. */
  method SetEntry(w: array<u32>, i: nat, e: TocEntry)
    requires HEADER_WORDS + ENTRY_WORDS * i + ENTRY_WORDS <= w.Length
    modifies w
    ensures w[..HEADER_WORDS + ENTRY_WORDS * i] == old(w[..HEADER_WORDS + ENTRY_WORDS * i])
    ensures w[HEADER_WORDS + ENTRY_WORDS * i..HEADER_WORDS + ENTRY_WORDS * i + ENTRY_WORDS] == EntryWords(e)
    ensures w[HEADER_WORDS + ENTRY_WORDS * i + ENTRY_WORDS..] == old(w[HEADER_WORDS + ENTRY_WORDS * i + ENTRY_WORDS..])
  {
    var t := HEADER_WORDS + ENTRY_WORDS * i;
    w[t], w[t + 1], w[t + 2], w[t + 3] := e.id, e.off, e.len, e.rw;
  }

  /** The parts of a five-part concatenation, sliced back out. */
  lemma Slices(h: seq<u32>, a: seq<u32>, b: seq<u32>, c: seq<u32>, d: seq<u32>)
    ensures var w := h + a + b + c + d;
      var i, j, k := |h| + |a|, |h| + |a| + |b|, |h| + |a| + |b| + |c|;
      w[..|h|] == h && w[|h|..i] == a && w[i..j] == b && w[j..k] == c && w[k..] == d
  {
  }

  /** A prefix that was written, followed by a block written right after it. */
  lemma Join(s: seq<u32>, at: nat, done: seq<u32>, src: seq<u32>)
    requires at + |src| <= |s|
    requires s[..at] == done && s[at..at + |src|] == src
    ensures s[..at + |src|] == done + src
  {
    assert s[..at + |src|] == s[..at] + s[at..at + |src|];
  }

  /** A write to words [at, at + n) leaves every range outside it as it was. */
  lemma Keep(s: seq<u32>, o: seq<u32>, at: nat, n: nat, lo: nat, hi: nat)
    requires |s| == |o| && at + n <= |s| && lo <= hi <= |s|
    requires s[..at] == o[..at] && s[at + n..] == o[at + n..]
    requires hi <= at || at + n <= lo
    ensures s[lo..hi] == o[lo..hi]
  {
    if hi <= at {
      assert s[lo..hi] == s[..at][lo..hi];
      assert o[lo..hi] == o[..at][lo..hi];
    } else {
      var b := at + n;
      assert s[lo..hi] == s[b..][lo - b..hi - b];
      assert o[lo..hi] == o[b..][lo - b..hi - b];
    }
  }

  /** Two adjacent ranges make up their union. */
  lemma Glue(s: seq<u32>, a: nat, b: nat, c: nat)
    requires a <= b <= c <= |s|
    ensures s[a..c] == s[a..b] + s[b..c]
  {
  }

  // ---------------------------------------------------------------------
  // The checks as the loaders compute them, in 32-bit arithmetic

  /** `t = toc_base + i * 4u; t + 3u >= n` rejects: the guard every TOC loop
      (validator, schema loader, summary reader) computes in uint32_t. */
  predicate EntryGuardAsWritten(n: nat, tocBase: u32, i: u32)
  {
    Wrap32(Wrap32(tocBase + Wrap32(i * 4)) + 3) < n
  }

  /** `off + len > n || rw == 0 || len % rw != 0` rejects, with the sum taken
      in uint32_t as load_db_index and parse_a2a_summary do. */
  predicate EntryFitsAsWritten32(e: TocEntry, n: nat)
  {
    Wrap32(e.off + e.len) <= n && e.rw != 0 && e.len % e.rw == 0
  }

  /** The validator's `(uint64_t)off + (uint64_t)len > n`. */
  predicate EntryFitsAsWritten64(e: TocEntry, n: nat)
  {
    e.rw != 0 && e.len % e.rw == 0 && (e.off + e.len) % 0x1_0000_0000_0000_0000 <= n
  }

  /** Widening to 64 bits is exact for 32-bit operands: the validator's
      check is the bounds invariant itself. */
  lemma EntryFits64Agrees(e: TocEntry, n: nat)
    ensures EntryFitsAsWritten64(e, n) <==> EntryFits(e, n)
  {
    assert e.off + e.len < 0x1_0000_0000_0000_0000;
  }

  /** When the sum does not wrap, the 32-bit check agrees with the invariant. */
  lemma EntryFits32AgreesWithoutWrap(e: TocEntry, n: nat)
    requires e.off + e.len < U32_MOD
    ensures EntryFitsAsWritten32(e, n) <==> EntryFits(e, n)
  {
  }

  /** The 32-bit sum accepts an entry whose words lie past the end: in a
      12-word A2A packet, offset 0xFFFFFFF8 and length 16 wrap to 8; in a
      16-word D2B packet whose second entry is a proper SIG section, an OPS
      entry at 0xFFFFFFF8 of length 18 wraps to 10, and load_db_index would
      read three OPS rows from there. */
  lemma EntryFits32Wraps()
    ensures var e := TocEntry(1, 0xFFFF_FFF8, 16, 4);
      EntryFitsAsWritten32(e, 8) && !EntryFits(e, 8)
    ensures var w := [A2A_MAGIC, A2A_VERSION, 1, 0, 8, 12, 12, 0, 1, 0xFFFF_FFF8, 16, 4];
      HasEntry(w, 0) && EntryAt(w, 0) == TocEntry(1, 0xFFFF_FFF8, 16, 4) &&
      EntryFitsAsWritten32(EntryAt(w, 0), |w|) && !EntryFits(EntryAt(w, 0), |w|) &&
      !WellFormed(w, A2A_MAGIC)
    ensures var w := [D2B_MAGIC, D2B_VERSION, 2, 0, 8, 16, 16, 0, 1, 0xFFFF_FFF8, 18, 6, 2, 12, 4, 4];
      HasEntry(w, 0) && EntryAt(w, 0) == TocEntry(D2B_SEC_OPS, 0xFFFF_FFF8, 18, 6) &&
      EntryFitsAsWritten32(EntryAt(w, 0), |w|) && !EntryFits(EntryAt(w, 0), |w|) &&
      HasEntry(w, 1) && EntryAt(w, 1) == TocEntry(D2B_SEC_SIG, 12, 4, 4) && EntryFits(EntryAt(w, 1), |w|) &&
      !WellFormed(w, D2B_MAGIC)
  {
    var a := [A2A_MAGIC, A2A_VERSION, 1, 0, 8, 12, 12, 0, 1, 0xFFFF_FFF8, 16, 4];
    assert HasEntry(a, 0) && !EntryFits(EntryAt(a, 0), |a|);
    var d := [D2B_MAGIC, D2B_VERSION, 2, 0, 8, 16, 16, 0, 1, 0xFFFF_FFF8, 18, 6, 2, 12, 4, 4];
    assert HasEntry(d, 0) && !EntryFits(EntryAt(d, 0), |d|);
  }

  /** When the entry index does not wrap, the guard agrees with HasEntry. */
  lemma EntryGuardAgreesWithoutWrap(w: seq<u32>, i: u32)
    requires |w| >= HEADER_WORDS
    requires w[4] + 4 * i + 3 < U32_MOD
    ensures EntryGuardAsWritten(|w|, w[4], i) <==> HasEntry(w, i)
  {
  }

  /** The 32-bit guard accepts entry 0 of an 8-word buffer whose toc_base is
      0xFFFFFFFD: t + 3 wraps to 0, yet t + 1 is far past the end. */
  lemma EntryGuardWraps()
    ensures EntryGuardAsWritten(8, 0xFFFF_FFFD, 0)
    ensures forall w: seq<u32> :: |w| == 8 && w[4] == 0xFFFF_FFFD ==> !HasEntry(w, 0)
  {
  }
}
