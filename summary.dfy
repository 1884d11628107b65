/** The artifact reader of the runtime server
    (ai/runtime-server-native/ai_runtime_native.c): parse_a2a_summary, which
    checks an artifact packet and counts the records of its CODE, SLOT and
    META sections. */
module Summary {
  import opened AiirTypes
  import opened Container
  import opened Artifact

  /** The three counts parse_a2a_summary writes through its out-pointers. */
  datatype Counts = Counts(codeRecords: u32, slotRecords: u32, metaRecords: u32)

  /** The records of the last section with the id among the first k
      entries: its length over the row width, 0 when there is none. */
  function RecordsIn(w: seq<u32>, id: u32, width: nat, k: nat): nat
    requires EntriesIn(w, k) && width > 0
  {
    match LastEntryIn(w, id, k)
    case None => 0
    case Some(e) => e.len / width
  }

  /** The CODE count: the last CODE section's rows of 6 words; without a
      CODE section, the second word of the last CODE_INFO section over 6
      when that section has at least 4 words. */
  function CodeRecords(w: seq<u32>): nat
    requires |w| >= HEADER_WORDS && TocValid(w)
  {
    match LastEntry(w, A2A_SEC_CODE)
    case Some(e) => e.len / 6
    case None =>
      match LastEntry(w, A2A_SEC_CODE_INFO)
      case None => 0
      case Some(ci) =>
        LastEntryFits(w, A2A_SEC_CODE_INFO);
        if ci.len >= 4 then w[ci.off + 1] / 6 else 0
  }

  /** What parse_a2a_summary reports for a packet of |w| words: nothing for
      a packet the validator rejects, the three counts otherwise. */
  function SummaryOf(w: seq<u32>): Option<Counts>
  {
    if !WellFormed(w, A2A_MAGIC) then None
    else Some(Counts(CodeRecords(w), RecordsIn(w, A2A_SEC_SLOT, 4, w[2]), RecordsIn(w, A2A_SEC_META, 4, w[2])))
  }

  /** The header checks and the TOC loop of parse_a2a_summary.  The loop
      keeps the last CODE, SLOT, META and CODE_INFO entries; the source
      divides each length as it meets the entry, which leaves the same counts
      as dividing the last one.  The TOC guard and the section end are
      computed without wrap-around. */
  method ScanSummaryToc(w: seq<u32>)
    returns (ok: bool, codeE: Option<TocEntry>, slotE: Option<TocEntry>, metaE: Option<TocEntry>, infoE: Option<TocEntry>)
    ensures ok <==> WellFormed(w, A2A_MAGIC)
    ensures ok ==> codeE == LastEntry(w, A2A_SEC_CODE) && slotE == LastEntry(w, A2A_SEC_SLOT)
    ensures ok ==> metaE == LastEntry(w, A2A_SEC_META) && infoE == LastEntry(w, A2A_SEC_CODE_INFO)
  {
    codeE, slotE, metaE, infoE := None, None, None, None;
    if |w| < HEADER_WORDS || w[0] != A2A_MAGIC {
      return false, codeE, slotE, metaE, infoE;
    }
    var secCount, tocBase, total := w[2], w[4], w[6];
    if total != |w| {
      return false, codeE, slotE, metaE, infoE;
    }
    var i := 0;
    while i < secCount
      invariant 0 <= i <= secCount
      invariant EntriesIn(w, i)
      invariant forall j :: 0 <= j < i ==> EntryFits(EntryAt(w, j), |w|)
      invariant codeE == LastEntryIn(w, A2A_SEC_CODE, i) && slotE == LastEntryIn(w, A2A_SEC_SLOT, i)
      invariant metaE == LastEntryIn(w, A2A_SEC_META, i) && infoE == LastEntryIn(w, A2A_SEC_CODE_INFO, i)
    {
      var t := tocBase + ENTRY_WORDS * i;
      if t + 3 >= |w| {
        assert !HasEntry(w, i);
        return false, codeE, slotE, metaE, infoE;
      }
      var e := TocEntry(w[t], w[t + 1], w[t + 2], w[t + 3]);
      assert HasEntry(w, i) && EntryAt(w, i) == e;
      if e.off + e.len > |w| || e.rw == 0 || e.len % e.rw != 0 {
        assert !EntryFits(EntryAt(w, i), |w|);
        return false, codeE, slotE, metaE, infoE;
      }
      LastEntryInStep(w, A2A_SEC_CODE, i);
      LastEntryInStep(w, A2A_SEC_SLOT, i);
      LastEntryInStep(w, A2A_SEC_META, i);
      LastEntryInStep(w, A2A_SEC_CODE_INFO, i);
      if e.id == A2A_SEC_CODE {
        codeE := Some(e);
      } else if e.id == A2A_SEC_SLOT {
        slotE := Some(e);
      } else if e.id == A2A_SEC_META {
        metaE := Some(e);
      } else if e.id == A2A_SEC_CODE_INFO {
        infoE := Some(e);
      }
      i := i + 1;
    }
    return true, codeE, slotE, metaE, infoE;
  }

  /** parse_a2a_summary, with the CODE_INFO fallback after the loop. */
  method ParseA2aSummary(w: seq<u32>) returns (r: Option<Counts>)
    ensures r == SummaryOf(w)
  {
    var ok, codeE, slotE, metaE, infoE := ScanSummaryToc(w);
    if !ok {
      return None;
    }
    var codeRecords := if codeE.Some? then codeE.value.len / 6 else 0;
    var slotRecords := if slotE.Some? then slotE.value.len / 4 else 0;
    var metaRecords := if metaE.Some? then metaE.value.len / 4 else 0;
    if codeE.None? && infoE.Some? && infoE.value.len >= 4 {
      LastEntryFits(w, A2A_SEC_CODE_INFO);
      var rawWords := w[infoE.value.off + 1];
      codeRecords := rawWords / 6;
    }
    return Some(Counts(codeRecords, slotRecords, metaRecords));
  }

  /** The reader accepts exactly the packets the validator accepts. */
  lemma SummaryIffValid(w: seq<u32>)
    ensures SummaryOf(w).Some? <==> WellFormed(w, A2A_MAGIC)
  {
  }

  /** Reading back what make_packet writes: one CODE record, no SLOT
      record and the two 4-word rows of the 8-word META section. */
  lemma ArtifactSummary(c: seq<u8>, pathKey: seq<u8>, langId: u32, previewBytes: nat, maxTokens: nat)
    requires ArtifactFits(c, previewBytes, maxTokens)
    ensures SummaryOf(ArtifactPacket(c, pathKey, langId, previewBytes, maxTokens)) == Some(Counts(1, 0, 2))
  {
    var w := ArtifactPacket(c, pathKey, langId, previewBytes, maxTokens);
    ArtifactWellFormed(c, pathKey, langId, previewBytes, maxTokens);
    ArtifactHeader(c, pathKey, langId, previewBytes, maxTokens);
    ArtifactToc(c, pathKey, langId, previewBytes, maxTokens);
    assert w[2] == 5;
    assert EntriesIn(w, 5);
    assert LastIndex(w, A2A_SEC_CODE, 5) == Some(0) by {
      assert LastIndex(w, A2A_SEC_CODE, 1) == Some(0);
      assert LastIndex(w, A2A_SEC_CODE, 2) == Some(0);
      assert LastIndex(w, A2A_SEC_CODE, 3) == Some(0);
      assert LastIndex(w, A2A_SEC_CODE, 4) == Some(0);
    }
    assert LastIndex(w, A2A_SEC_SLOT, 5) == Some(1) by {
      assert LastIndex(w, A2A_SEC_SLOT, 2) == Some(1);
      assert LastIndex(w, A2A_SEC_SLOT, 3) == Some(1);
      assert LastIndex(w, A2A_SEC_SLOT, 4) == Some(1);
    }
    assert LastIndex(w, A2A_SEC_META, 5) == Some(4);
  }
}
