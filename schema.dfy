/** The schema packet the toolchain writes (ai/toolchain-native/aiir_toolchain.c,
    cmd_rebuild_db): seven ops, thirteen argument signatures and an 8-word
    META section, laid out as a D2B container of three sections. */
module Schema {
  import opened AiirTypes
  import opened Container
  import opened Db
  import opened Policy
  import opened RuntimeServer

  /** The ops of the schema, one row per line of the source's `ops[]`:
      `opId, engineId, aclId, procId, minArgs, maxArgs`. */
  const SCHEMA_OPS: seq<DbOp> := [
    DbOp(9001, 1, 1, 9001, 0, 0),
    DbOp(1001, 1, 2, 1001, 1, 1),
    DbOp(1002, 1, 2, 1002, 3, 3),
    DbOp(2001, 1, 2, 2001, 1, 1),
    DbOp(2002, 1, 2, 2002, 3, 3),
    DbOp(3001, 1, 3, 3001, 4, 4),
    DbOp(4001, 1, 3, 4001, 1, 1)
  ]

  /** The argument signatures of the schema, one row per group of four
      words of the source's `sig[]`: `opId, argIndex, typeId, flags`. */
  const SCHEMA_SIGS: seq<DbSig> := [
    DbSig(1001, 0, TYPE_TEXT, 0),
    DbSig(1002, 0, TYPE_TEXT, 0), DbSig(1002, 1, TYPE_I64, 0), DbSig(1002, 2, TYPE_I64, 0),
    DbSig(2001, 0, TYPE_TEXT, 0),
    DbSig(2002, 0, TYPE_TEXT, 0), DbSig(2002, 1, TYPE_TEXT, 0), DbSig(2002, 2, TYPE_I64, 0),
    DbSig(3001, 0, TYPE_TEXT, 0), DbSig(3001, 1, TYPE_TEXT, 0), DbSig(3001, 2, TYPE_TEXT, 0),
    DbSig(3001, 3, TYPE_I64, 0),
    DbSig(4001, 0, TYPE_TEXT, 0)
  ]

  /** The META words `{1,1,0,0, 2,7,13,0}`. */
  const META_TABLE: seq<u32> := [1, 1, 0, 0, 2, 7, 13, 0]

  /** Op rows flattened into words, six per row in field order. */
  function OpsWords(rows: seq<DbOp>): (r: seq<u32>)
    ensures |r| == OP_WORDS * |rows|
  {
    if rows == [] then []
    else
      var op := rows[|rows| - 1];
      OpsWords(rows[..|rows| - 1]) + [op.opId, op.engineId, op.aclId, op.procId, op.minArgs, op.maxArgs]
  }

  /** Signature rows flattened into words, four per row in field order. */
  function SigsWords(rows: seq<DbSig>): (r: seq<u32>)
    ensures |r| == SIG_WORDS * |rows|
  {
    if rows == [] then []
    else
      var sg := rows[|rows| - 1];
      SigsWords(rows[..|rows| - 1]) + [sg.opId, sg.argIndex, sg.typeId, sg.flags]
  }

  /** Row k of the flattened words is row k. */
  lemma {:induction false} OpsWordsAt(rows: seq<DbOp>, k: nat)
    requires k < |rows|
    ensures OpRow(OpsWords(rows), k) == rows[k]
  {
    var n := |rows| - 1;
    if k < n {
      var w, w' := OpsWords(rows), OpsWords(rows[..n]);
      OpsWordsAt(rows[..n], k);
      assert w[..6 * n] == w';
      var b := 6 * k;
      assert w[b] == w'[b] && w[b + 1] == w'[b + 1] && w[b + 2] == w'[b + 2];
      assert w[b + 3] == w'[b + 3] && w[b + 4] == w'[b + 4] && w[b + 5] == w'[b + 5];
    }
  }

  lemma {:induction false} SigsWordsAt(rows: seq<DbSig>, k: nat)
    requires k < |rows|
    ensures SigRow(SigsWords(rows), k) == rows[k]
  {
    var n := |rows| - 1;
    if k < n {
      var w, w' := SigsWords(rows), SigsWords(rows[..n]);
      SigsWordsAt(rows[..n], k);
      assert w[..4 * n] == w';
      var b := 4 * k;
      assert w[b] == w'[b] && w[b + 1] == w'[b + 1] && w[b + 2] == w'[b + 2] && w[b + 3] == w'[b + 3];
    }
  }

  /** Decoding the flattened op words gives back the rows. */
  lemma OpsRoundTrip(rows: seq<DbOp>)
    ensures OpsOf(OpsWords(rows)) == rows
  {
    forall k | 0 <= k < |rows|
      ensures OpsOf(OpsWords(rows))[k] == rows[k]
    {
      OpsWordsAt(rows, k);
    }
  }

  /** Decoding the flattened signature words gives back the rows. */
  lemma SigsRoundTrip(rows: seq<DbSig>)
    ensures SigsOf(SigsWords(rows)) == rows
  {
    forall k | 0 <= k < |rows|
      ensures SigsOf(SigsWords(rows))[k] == rows[k]
    {
      SigsWordsAt(rows, k);
    }
  }

  /** The three sections in the order cmd_rebuild_db writes them. */
  function DbSections(): seq<Section>
  {
    [Section(D2B_SEC_OPS, 6, OpsWords(SCHEMA_OPS)), Section(D2B_SEC_SIG, 4, SigsWords(SCHEMA_SIGS)), Section(D2B_SEC_META, 4, META_TABLE)]
  }

  /** The header and TOC words: 3 sections, TOC at 8, payloads at 20, 122
      words in all; OPS at 20 (42 words), SIG at 62 (52), META at 114 (8). */
  function DbHead(): seq<u32>
  {
    HeaderWords(D2B_MAGIC, D2B_VERSION, 3, 20, 122) + EntryWords(E_OPS) + EntryWords(E_SIG) + EntryWords(E_META)
  }

  /** The packet m2m.db.packet.aiir holds. */
  function DbPacket(): seq<u32>
  {
    AssembleThree(D2B_MAGIC, D2B_VERSION, DbSections()[0], DbSections()[1], DbSections()[2]);
    Assemble(D2B_MAGIC, D2B_VERSION, DbSections())
  }

  /** The schema packet is the common three-section layout written out. */
  lemma DbLayout()
    ensures |DbPacket()| == 122
    ensures DbPacket() == DbHead() + (OpsWords(SCHEMA_OPS) + SigsWords(SCHEMA_SIGS) + META_TABLE)
  {
    var s := DbSections();
    AssembleThree(D2B_MAGIC, D2B_VERSION, s[0], s[1], s[2]);
    assert [s[0], s[1], s[2]] == s;
  }

  /** The validator and the schema loader accept the packet. */
  lemma DbWellFormed()
    ensures WellFormed(DbPacket(), D2B_MAGIC)
  {
    var s := DbSections();
    AssembleThree(D2B_MAGIC, D2B_VERSION, s[0], s[1], s[2]);
    assert SectionOk(s[0]) && SectionOk(s[1]) && SectionOk(s[2]);
    AssembleWellFormed(D2B_MAGIC, D2B_VERSION, s);
  }

  /** The rows load_db_index decodes from the packet are the schema's rows:
      seven ops and thirteen signatures, in table order. */
  lemma SchemaLoads()
    ensures LoadDb(DbPacket()) == Some(DbIndex(SCHEMA_OPS, SCHEMA_SIGS))
  {
    var w := DbPacket();
    var s := DbSections();
    DbWellFormed();
    DbLayout();
    AssembleHeader(D2B_MAGIC, D2B_VERSION, s);
    AssembleEntry(D2B_MAGIC, D2B_VERSION, s, 0);
    AssembleEntry(D2B_MAGIC, D2B_VERSION, s, 1);
    AssembleEntry(D2B_MAGIC, D2B_VERSION, s, 2);
    AssemblePayload(D2B_MAGIC, D2B_VERSION, s, 0);
    AssemblePayload(D2B_MAGIC, D2B_VERSION, s, 1);
    assert s[..0] == [] && s[..1] == [s[0]];
    assert SectionOffset(s, 0) == 20;
    assert Payloads([s[0]]) == Payloads([]) + s[0].payload;
    assert SectionOffset(s, 1) == 62;
    var o, g := E_OPS, E_SIG;
    assert EntryAt(w, 0) == o && EntryAt(w, 1) == g && EntryAt(w, 2).id == D2B_SEC_META;
    assert LastIndex(w, D2B_SEC_OPS, 3) == Some(0) by {
      assert LastIndex(w, D2B_SEC_OPS, 1) == Some(0);
    }
    assert LastEntry(w, D2B_SEC_OPS) == Some(o);
    assert LastEntry(w, D2B_SEC_SIG) == Some(g);
    assert Slice(w, o) == OpsWords(SCHEMA_OPS);
    assert Slice(w, g) == SigsWords(SCHEMA_SIGS);
    OpsRoundTrip(SCHEMA_OPS);
    SigsRoundTrip(SCHEMA_SIGS);
  }

  const E_OPS: TocEntry := TocEntry(D2B_SEC_OPS, 20, 42, 6)
  const E_SIG: TocEntry := TocEntry(D2B_SEC_SIG, 62, 52, 4)
  const E_META: TocEntry := TocEntry(D2B_SEC_META, 114, 8, 4)

  /** The header words and the OPS entry and payload are in place. */
  predicate OpsWritten(v: seq<u32>)
  {
    |v| == 122 && v[0..8] == HeaderWords(D2B_MAGIC, D2B_VERSION, 3, 20, 122) &&
    v[8..12] == EntryWords(E_OPS) && v[20..62] == OpsWords(SCHEMA_OPS)
  }

  /** ... and the SIG entry and payload too. */
  predicate SigWritten(v: seq<u32>)
  {
    OpsWritten(v) && v[12..16] == EntryWords(E_SIG) && v[62..114] == SigsWords(SCHEMA_SIGS)
  }

  /** The header line and the OPS line of cmd_rebuild_db. */
  method WriteOps(w: array<u32>, ops: seq<u32>, p: u32)
    requires w.Length == 122 && ops == OpsWords(SCHEMA_OPS) && p == 20
    modifies w
    ensures OpsWritten(w[..])
  {
    SetHeader(w, D2B_MAGIC, D2B_VERSION, 3, 20, w.Length);
    ghost var s := w[..];
    SetEntry(w, 0, TocEntry(D2B_SEC_OPS, p, |ops|, 6));
    Keep(w[..], s, 8, 4, 0, 8);
    s := w[..];
    Put(w, p, ops);
    Keep(w[..], s, 20, 42, 0, 8);
    Keep(w[..], s, 20, 42, 8, 12);
  }

  /** The SIG line of cmd_rebuild_db. */
  method WriteSig(w: array<u32>, sig: seq<u32>, p: u32)
    requires OpsWritten(w[..]) && sig == SigsWords(SCHEMA_SIGS) && p == 62
    modifies w
    ensures SigWritten(w[..])
  {
    ghost var s := w[..];
    SetEntry(w, 1, TocEntry(D2B_SEC_SIG, p, |sig|, 4));
    Keep(w[..], s, 12, 4, 0, 8);
    Keep(w[..], s, 12, 4, 8, 12);
    Keep(w[..], s, 12, 4, 20, 62);
    s := w[..];
    Put(w, p, sig);
    Keep(w[..], s, 62, 52, 0, 8);
    Keep(w[..], s, 62, 52, 8, 12);
    Keep(w[..], s, 62, 52, 12, 16);
    Keep(w[..], s, 62, 52, 20, 62);
  }

  /** The META line of cmd_rebuild_db. */
  method WriteMeta(w: array<u32>, meta: seq<u32>, p: u32)
    requires SigWritten(w[..]) && meta == META_TABLE && p == 114
    modifies w
    ensures w[..] == DbPacket()
  {
    ghost var s := w[..];
    SetEntry(w, 2, TocEntry(D2B_SEC_META, p, |meta|, 4));
    Keep(w[..], s, 16, 4, 0, 8);
    Keep(w[..], s, 16, 4, 8, 12);
    Keep(w[..], s, 16, 4, 12, 16);
    Keep(w[..], s, 16, 4, 20, 62);
    Keep(w[..], s, 16, 4, 62, 114);
    s := w[..];
    Put(w, p, meta);
    Keep(w[..], s, 114, 8, 0, 8);
    Keep(w[..], s, 114, 8, 8, 12);
    Keep(w[..], s, 114, 8, 12, 16);
    Keep(w[..], s, 114, 8, 16, 20);
    Keep(w[..], s, 114, 8, 20, 62);
    Keep(w[..], s, 114, 8, 62, 114);
    Assembled(w[..]);
  }

  /** cmd_rebuild_db's buffer: a zeroed buffer of `total` words, the header,
      then for each section its TOC entry and its payload copy, the offset p
      advancing by each length.  The returned counts are the `total`,
      `len_ops/6` and `len_sig/4` it prints. */
  method RebuildDb() returns (w: array<u32>, total: u32, opCount: u32, sigCount: u32)
    ensures w[..] == DbPacket()
    ensures total == w.Length && opCount == |SCHEMA_OPS| && sigCount == |SCHEMA_SIGS|
  {
    var ops, sig, meta := OpsWords(SCHEMA_OPS), SigsWords(SCHEMA_SIGS), META_TABLE;
    var payloadBase := 8 + 12;
    var lenOps, lenSig, lenMeta := |ops|, |sig|, |meta|;
    total := payloadBase + lenOps + lenSig + lenMeta;
    w := new u32[total](_ => 0);
    var p := payloadBase;
    WriteOps(w, ops, p);
    p := p + lenOps;
    WriteSig(w, sig, p);
    p := p + lenSig;
    WriteMeta(w, meta, p);
    opCount, sigCount := lenOps / 6, lenSig / 4;
  }

  /** The seven written ranges make up the schema packet. */
  lemma Assembled(v: seq<u32>)
    requires SigWritten(v) && v[16..20] == EntryWords(E_META) && v[114..122] == META_TABLE
    ensures v == DbPacket()
  {
    Glue(v, 0, 8, 12);
    Glue(v, 0, 12, 16);
    Glue(v, 0, 16, 20);
    Glue(v, 20, 62, 114);
    Glue(v, 20, 114, 122);
    Glue(v, 0, 20, 122);
    assert v == v[0..122];
    DbLayout();
  }

  // ---------------------------------------------------------------------
  // What the schema declares

  /** Every op has its own id, and its proc id is its op id. */
  lemma SchemaOpIds()
    ensures forall i, j :: 0 <= i < j < |SCHEMA_OPS| ==> SCHEMA_OPS[i].opId != SCHEMA_OPS[j].opId
    ensures forall i :: 0 <= i < |SCHEMA_OPS| ==> SCHEMA_OPS[i].procId == SCHEMA_OPS[i].opId
  {
  }

  /** The signature rows of one op: argument k has type `types[k]`. */
  function SigGroup(opId: u32, types: seq<u32>): (r: seq<DbSig>)
    requires |types| < U32_MOD
    ensures |r| == |types|
    ensures forall k :: 0 <= k < |r| ==> r[k] == DbSig(opId, k, types[k], 0)
  {
    seq(|types|, k requires 0 <= k < |types| => DbSig(opId, k, types[k], 0))
  }

  /** Counting the rows of an op over one op's group. */
  lemma {:induction false} SigCountGroup(opId: u32, types: seq<u32>, id: u32)
    requires |types| < U32_MOD
    ensures SigCount(SigGroup(opId, types), id) == if opId == id then |types| else 0
  {
    if types != [] {
      var n := |types| - 1;
      assert SigGroup(opId, types)[..n] == SigGroup(opId, types[..n]);
      SigCountGroup(opId, types[..n], id);
    }
  }

  /** The signature table is the groups of ops 1001, 1002, 2001, 2002, 3001
      and 4001 one after the other; op 9001 has none. */
  lemma SigsGrouped()
    ensures SCHEMA_SIGS ==
      SigGroup(1001, [TYPE_TEXT]) + SigGroup(1002, [TYPE_TEXT, TYPE_I64, TYPE_I64]) +
      SigGroup(2001, [TYPE_TEXT]) + SigGroup(2002, [TYPE_TEXT, TYPE_TEXT, TYPE_I64]) +
      SigGroup(3001, [TYPE_TEXT, TYPE_TEXT, TYPE_TEXT, TYPE_I64]) + SigGroup(4001, [TYPE_TEXT])
  {
  }

  /** The number of signature rows of each op id. */
  lemma SchemaSigCount(id: u32)
    ensures SigCount(SCHEMA_SIGS, id) ==
      if id == 1001 || id == 2001 || id == 4001 then 1
      else if id == 1002 || id == 2002 then 3
      else if id == 3001 then 4
      else 0
  {
    var g0, g1, g2 := SigGroup(1001, [TYPE_TEXT]), SigGroup(1002, [TYPE_TEXT, TYPE_I64, TYPE_I64]), SigGroup(2001, [TYPE_TEXT]);
    var g3, g4 := SigGroup(2002, [TYPE_TEXT, TYPE_TEXT, TYPE_I64]), SigGroup(3001, [TYPE_TEXT, TYPE_TEXT, TYPE_TEXT, TYPE_I64]);
    var g5 := SigGroup(4001, [TYPE_TEXT]);
    SigsGrouped();
    SigCountAppend(g0, g1, id);
    SigCountAppend(g0 + g1, g2, id);
    SigCountAppend(g0 + g1 + g2, g3, id);
    SigCountAppend(g0 + g1 + g2 + g3, g4, id);
    SigCountAppend(g0 + g1 + g2 + g3 + g4, g5, id);
    SigCountGroup(1001, [TYPE_TEXT], id);
    SigCountGroup(1002, [TYPE_TEXT, TYPE_I64, TYPE_I64], id);
    SigCountGroup(2001, [TYPE_TEXT], id);
    SigCountGroup(2002, [TYPE_TEXT, TYPE_TEXT, TYPE_I64], id);
    SigCountGroup(3001, [TYPE_TEXT, TYPE_TEXT, TYPE_TEXT, TYPE_I64], id);
    SigCountGroup(4001, [TYPE_TEXT], id);
  }

  /** Each op takes a fixed number of arguments, and that number is the
      number of signature rows it has. */
  lemma SchemaArity()
    ensures forall i :: 0 <= i < |SCHEMA_OPS| ==>
      SCHEMA_OPS[i].minArgs == SCHEMA_OPS[i].maxArgs == SigCount(SCHEMA_SIGS, SCHEMA_OPS[i].opId)
  {
    forall i | 0 <= i < |SCHEMA_OPS|
      ensures SCHEMA_OPS[i].minArgs == SCHEMA_OPS[i].maxArgs == SigCount(SCHEMA_SIGS, SCHEMA_OPS[i].opId)
    {
      SchemaSigCount(SCHEMA_OPS[i].opId);
    }
  }

  /** A row for the op and argument index is found when one exists. */
  lemma SigFound(sigs: seq<DbSig>, j: nat)
    requires j < |sigs|
    ensures FirstSig(sigs, sigs[j].opId, sigs[j].argIndex).Some?
  {
  }

  /** Where the rows of op i start in the signature table. */
  function SigStart(i: nat): nat
  {
    if i <= 1 then 0 else if i == 2 then 1 else if i == 3 then 4 else if i == 4 then 5
    else if i == 5 then 8 else 12
  }

  /** Argument k of every op has a signature row for every k below its
      argument count. */
  lemma SchemaSigsCover()
    ensures forall i, k :: 0 <= i < |SCHEMA_OPS| && 0 <= k < SCHEMA_OPS[i].minArgs ==>
      FirstSig(SCHEMA_SIGS, SCHEMA_OPS[i].opId, k).Some?
  {
    forall i, k | 0 <= i < |SCHEMA_OPS| && 0 <= k < SCHEMA_OPS[i].minArgs
      ensures FirstSig(SCHEMA_SIGS, SCHEMA_OPS[i].opId, k).Some?
    {
      var j := SigStart(i) + k;
      SigFound(SCHEMA_SIGS, j);
    }
  }

  /** Signature rows ordered by op id, then by argument index. */
  predicate SigBefore(a: DbSig, b: DbSig)
  {
    a.opId < b.opId || (a.opId == b.opId && a.argIndex < b.argIndex)
  }

  predicate SigsAscending(s: seq<DbSig>)
  {
    forall k :: 0 < k < |s| ==> SigBefore(s[k - 1], s[k])
  }

  /** In a table ascending row by row, every earlier row comes before every
      later one. */
  lemma {:induction false} AscendingOrdered(s: seq<DbSig>, i: nat, j: nat)
    requires SigsAscending(s) && i < j < |s|
    ensures SigBefore(s[i], s[j])
    decreases j - i
  {
    if i + 1 < j {
      AscendingOrdered(s, i, j - 1);
      assert SigBefore(s[j - 1], s[j]);
    }
  }

  /** No two rows of the rebuilt SIG table share an op id and an argument
      index, so the first match for (op, k) is the only one. */
  lemma SchemaSigsUnique()
    ensures forall i, j :: 0 <= i < j < |SCHEMA_SIGS| ==>
      (SCHEMA_SIGS[i].opId, SCHEMA_SIGS[i].argIndex) != (SCHEMA_SIGS[j].opId, SCHEMA_SIGS[j].argIndex)
  {
    assert SigsAscending(SCHEMA_SIGS);
    forall i, j | 0 <= i < j < |SCHEMA_SIGS|
      ensures (SCHEMA_SIGS[i].opId, SCHEMA_SIGS[i].argIndex) != (SCHEMA_SIGS[j].opId, SCHEMA_SIGS[j].argIndex)
    {
      AscendingOrdered(SCHEMA_SIGS, i, j);
    }
  }

  // ---------------------------------------------------------------------
  // The exec route over the rebuilt schema

  /** With the rebuilt schema loaded, the signature-count check never
      rejects: an argument count that passes the min/max check is already
      the op's number of signature rows. */
  lemma SchemaNeverSigArity(policy: AiirPolicy, req: ExecRequest)
    ensures Exec(policy, SCHEMA_OPS, SCHEMA_SIGS, req) != Rejected(SigArity)
  {
    if req.opId.Some? && 0 <= req.opId.value < U32_MOD {
      var id: u32 := req.opId.value;
      match FirstOp(SCHEMA_OPS, id)
      case None =>
      case Some(k) =>
        SchemaArity();
        assert SCHEMA_OPS[k].opId == id;
    }
  }

  /** Over the rebuilt schema a request runs exactly when the route and the
      op are allowed, the request is framed, the op is one of the seven, it
      comes with as many arguments as the op has signature rows, and each
      argument has its declared type. */
  lemma SchemaDryRun(policy: AiirPolicy, req: ExecRequest)
    ensures Exec(policy, SCHEMA_OPS, SCHEMA_SIGS, req).DryRun? <==>
      policy.allowDbExec && req.framing == Framed &&
      req.opId.Some? && 0 <= req.opId.value < U32_MOD &&
      (policy.allowAllOps || req.opId.value in policy.allowOps) &&
      (exists i :: 0 <= i < |SCHEMA_OPS| && SCHEMA_OPS[i].opId == req.opId.value) &&
      req.args.Some? && |req.args.value| == SigCount(SCHEMA_SIGS, req.opId.value) &&
      ArgsTyped(SCHEMA_SIGS, req.opId.value, req.args.value)
  {
    ExecDryRunIff(policy, SCHEMA_OPS, SCHEMA_SIGS, req);
    if req.opId.Some? && 0 <= req.opId.value < U32_MOD {
      var id: u32 := req.opId.value;
      FirstOpIff(SCHEMA_OPS, id);
      SchemaArity();
      if FirstOp(SCHEMA_OPS, id).Some? {
        var k := FirstOp(SCHEMA_OPS, id).value;
        assert SCHEMA_OPS[k].opId == id;
      }
    }
  }
}
