/** The runtime server (ai/runtime-server-native/ai_runtime_native.c): the
    state load_runtime builds, the schema loader and the lookups over the
    loaded tables, and the decision pipeline of the /ai/db/exec route.
    Requests arrive already parsed; the socket and HTTP layer is not part of
    this model. */
module RuntimeServer {
  import opened AiirTypes
  import opened Container
  import opened Db
  import opened Policy
  import opened Drift

  // ---------------------------------------------------------------------
  // The schema loader

  /** The rows loop of load_db_index over the OPS payload. */
  method DecodeOps(words: seq<u32>) returns (r: seq<DbOp>)
    ensures r == OpsOf(words)
  {
    r := [];
    var k := 0;
    while k < |words| / OP_WORDS
      invariant 0 <= k <= |words| / OP_WORDS
      invariant r == OpsOf(words)[..k]
    {
      var b := OP_WORDS * k;
      r := r + [DbOp(words[b], words[b + 1], words[b + 2], words[b + 3], words[b + 4], words[b + 5])];
      k := k + 1;
    }
  }

  /** The rows loop of load_db_index over the SIG payload. */
  method DecodeSigs(words: seq<u32>) returns (r: seq<DbSig>)
    ensures r == SigsOf(words)
  {
    r := [];
    var k := 0;
    while k < |words| / SIG_WORDS
      invariant 0 <= k <= |words| / SIG_WORDS
      invariant r == SigsOf(words)[..k]
    {
      var b := SIG_WORDS * k;
      r := r + [DbSig(words[b], words[b + 1], words[b + 2], words[b + 3])];
      k := k + 1;
    }
  }

  /** The header and TOC checks of load_db_index: false where the source
      returns false, and otherwise the last OPS and SIG entries.  The TOC
      guard and the section end are computed without wrap-around. */
  method ScanDbToc(p: seq<u32>) returns (ok: bool, opsE: Option<TocEntry>, sigE: Option<TocEntry>)
    ensures ok <==> WellFormed(p, D2B_MAGIC)
    ensures ok ==> opsE == LastEntry(p, D2B_SEC_OPS) && sigE == LastEntry(p, D2B_SEC_SIG)
  {
    opsE, sigE := None, None;
    if |p| < HEADER_WORDS || p[0] != D2B_MAGIC {
      return false, opsE, sigE;
    }
    var secCount, tocBase, total := p[2], p[4], p[6];
    if total != |p| {
      return false, opsE, sigE;
    }
    var i := 0;
    while i < secCount
      invariant 0 <= i <= secCount
      invariant EntriesIn(p, i)
      invariant forall j :: 0 <= j < i ==> EntryFits(EntryAt(p, j), |p|)
      invariant opsE == LastEntryIn(p, D2B_SEC_OPS, i)
      invariant sigE == LastEntryIn(p, D2B_SEC_SIG, i)
    {
      var t := tocBase + ENTRY_WORDS * i;
      if t + 3 >= |p| {
        assert !HasEntry(p, i);
        return false, opsE, sigE;
      }
      var e := TocEntry(p[t], p[t + 1], p[t + 2], p[t + 3]);
      assert HasEntry(p, i) && EntryAt(p, i) == e;
      if e.off + e.len > |p| || e.rw == 0 || e.len % e.rw != 0 {
        assert !EntryFits(EntryAt(p, i), |p|);
        return false, opsE, sigE;
      }
      if e.id == D2B_SEC_OPS {
        opsE := Some(e);
      } else if e.id == D2B_SEC_SIG {
        sigE := Some(e);
      }
      i := i + 1;
    }
    return true, opsE, sigE;
  }

  /** load_db_index on the schema packet words: None where the source
      returns false, the decoded rows otherwise. */
  method LoadDbIndex(p: seq<u32>) returns (r: Option<DbIndex>)
    ensures r == LoadDb(p)
  {
    var ok, opsE, sigE := ScanDbToc(p);
    if !ok {
      return None;
    }
    if opsE.None? || sigE.None? || opsE.value.len % OP_WORDS != 0 || sigE.value.len % SIG_WORDS != 0 {
      return None;
    }
    var o, s := opsE.value, sigE.value;
    LastEntryFits(p, D2B_SEC_OPS);
    LastEntryFits(p, D2B_SEC_SIG);
    var ops := DecodeOps(p[o.off..o.off + o.len]);
    var sigs := DecodeSigs(p[s.off..s.off + s.len]);
    return Some(DbIndex(ops, sigs));
  }

  // ---------------------------------------------------------------------
  // Packet and adapt lookups

  /** get_packet_by_id: the row count and the row's word index are computed
      in uint32_t, the bounds check `(uint64_t)off + (uint64_t)len` exactly. */
  function PacketById(table: seq<u32>, blob: seq<u32>, id: u32): Option<seq<u32>>
  {
    var files := Wrap32(|table| / 3);
    if id >= files then None
    else
      var p := Wrap32(id * 3);
      var off, len := table[Wrap32(p as int + 1)], table[Wrap32(p as int + 2)];
      if off + len > |blob| then None else Some(blob[off..off + len])
  }

  /** For a table of fewer than 2^32 words nothing wraps: the lookup fails
      exactly when id is not a row or the row's range leaves the blob, and
      otherwise yields the blob words the row points at. */
  lemma PacketByIdRows(table: seq<u32>, blob: seq<u32>, id: u32)
    requires |table| < U32_MOD
    ensures PacketById(table, blob, id).None? <==>
      id >= |table| / 3 || table[3 * id + 1] as int + table[3 * id + 2] > |blob|
    ensures PacketById(table, blob, id).Some? ==>
      PacketById(table, blob, id).value == blob[table[3 * id + 1]..table[3 * id + 1] as int + table[3 * id + 2]]
  {
  }

  /** The first adapt row at or after row i whose file id is `fileId`. */
  function AdaptRowFrom(tab: seq<u32>, fileId: u32, i: nat): (r: Option<nat>)
    requires |tab| % 3 == 0 && i <= |tab| / 3
    ensures r.Some? ==> i <= r.value < |tab| / 3 && tab[3 * r.value] == fileId
    ensures r.Some? ==> forall k :: i <= k < r.value ==> tab[3 * k] != fileId
    ensures r.None? ==> forall k :: i <= k < |tab| / 3 ==> tab[3 * k] != fileId
    decreases |tab| / 3 - i
  {
    if i == |tab| / 3 then None
    else if tab[3 * i] == fileId then Some(i)
    else AdaptRowFrom(tab, fileId, i + 1)
  }

  /** find_adapt: the (offset, length) of the first row for the file. */
  function AdaptLookup(tab: seq<u32>, fileId: u32): Option<(u32, u32)>
    requires |tab| % 3 == 0
  {
    match AdaptRowFrom(tab, fileId, 0)
    case None => None
    case Some(k) => Some((tab[3 * k + 1], tab[3 * k + 2]))
  }

  // ---------------------------------------------------------------------
  // The /ai/db/exec pipeline

  /** How the HTTP framing of the request came out: the header terminator,
      the Content-Length value and the body length are checked by the
      transport, which is not modelled; only the verdict is. */
  datatype Framing = Framed | NoHeaderEnd | BadContentLength | ShortBody

  /** A parsed request: the "opId" integer if parse_json_int found one, and
      the "args" list if parse_json_args accepted it. */
  datatype ExecRequest = ExecRequest(framing: Framing, opId: Option<int>, args: Option<seq<JsonVal>>)

  /** The rejections, in the order the route checks them. */
  datatype ExecError =
    | PolicyDbExec | Headers | ContentLength | BodyShort | OpIdBad
    | PolicyOp | UnknownOp | ArgsBad | Argc | SigArity | TypeMismatch

  /** The "err" string of the 400 answer. */
  function ErrName(e: ExecError): string
  {
    match e
    case PolicyDbExec => "policy-db-exec"
    case Headers => "headers"
    case ContentLength => "content-length"
    case BodyShort => "body-short"
    case OpIdBad => "opId"
    case PolicyOp => "policy-op"
    case UnknownOp => "op"
    case ArgsBad => "args"
    case Argc => "argc"
    case SigArity => "sig-arity"
    case TypeMismatch => "type"
  }

  /** The outcome: a rejection, or the dry-run answer
      `{opId, procId, argsCount}`. */
  datatype ExecResult = Rejected(err: ExecError) | DryRun(opId: u32, procId: u32, argsCount: nat)

  /** Argument i has a SIG row (the first for its index) whose type accepts it. */
  predicate ArgOk(sigs: seq<DbSig>, opId: u32, args: seq<JsonVal>, i: nat)
    requires i < |args|
  {
    match FirstSig(sigs, opId, i)
    case None => false
    case Some(k) => TypeCheck(sigs[k].typeId, args[i])
  }

  predicate ArgsTyped(sigs: seq<DbSig>, opId: u32, args: seq<JsonVal>)
  {
    forall i :: 0 <= i < |args| ==> ArgOk(sigs, opId, args, i)
  }

  /** The route's decision: the first failing check rejects.  The signature
      count is count_sig_for_op's uint32_t. */
  function Exec(policy: AiirPolicy, ops: seq<DbOp>, sigs: seq<DbSig>, req: ExecRequest): ExecResult
  {
    if !policy.allowDbExec then Rejected(PolicyDbExec)
    else if req.framing == NoHeaderEnd then Rejected(Headers)
    else if req.framing == BadContentLength then Rejected(ContentLength)
    else if req.framing == ShortBody then Rejected(BodyShort)
    else if req.opId.None? || req.opId.value < 0 || req.opId.value >= U32_MOD then Rejected(OpIdBad)
    else
      var id: u32 := req.opId.value;
      if !(policy.allowAllOps || id in policy.allowOps) then Rejected(PolicyOp)
      else match FirstOp(ops, id)
        case None => Rejected(UnknownOp)
        case Some(k) =>
          var op := ops[k];
          if req.args.None? then Rejected(ArgsBad)
          else
            var args := req.args.value;
            if |args| < op.minArgs || |args| > op.maxArgs then Rejected(Argc)
            else if Wrap32(SigCount(sigs, id)) != |args| then Rejected(SigArity)
            else if !ArgsTyped(sigs, id, args) then Rejected(TypeMismatch)
            else DryRun(op.opId, op.procId, |args|)
  }

  /** A dry run happens exactly when every check passes, and it answers with
      the requested op id, the proc id of the first op with that id and the
      argument count. */
  lemma ExecDryRunIff(policy: AiirPolicy, ops: seq<DbOp>, sigs: seq<DbSig>, req: ExecRequest)
    ensures Exec(policy, ops, sigs, req).DryRun? <==>
      policy.allowDbExec && req.framing == Framed &&
      req.opId.Some? && 0 <= req.opId.value < U32_MOD &&
      (policy.allowAllOps || req.opId.value in policy.allowOps) &&
      FirstOp(ops, req.opId.value).Some? && req.args.Some? &&
      ops[FirstOp(ops, req.opId.value).value].minArgs <= |req.args.value| <= ops[FirstOp(ops, req.opId.value).value].maxArgs &&
      Wrap32(SigCount(sigs, req.opId.value)) == |req.args.value| &&
      ArgsTyped(sigs, req.opId.value, req.args.value)
    ensures Exec(policy, ops, sigs, req).DryRun? ==>
      var r := Exec(policy, ops, sigs, req);
      var op := ops[FirstOp(ops, req.opId.value).value];
      r.opId == req.opId.value && r.procId == op.procId && r.argsCount == |req.args.value|
  {
  }

  /** An argument count outside [minArgs, maxArgs] is rejected as "argc"
      whatever the arguments are. */
  lemma ArgcWhateverTypes(policy: AiirPolicy, ops: seq<DbOp>, sigs: seq<DbSig>, req: ExecRequest, vals: seq<JsonVal>)
    requires Exec(policy, ops, sigs, req) == Rejected(Argc)
    requires req.args.Some? && |vals| == |req.args.value|
    ensures Exec(policy, ops, sigs, req.(args := Some(vals))) == Rejected(Argc)
  {
  }

  /** With the route disabled nothing else is looked at. */
  lemma ExecDisabled(policy: AiirPolicy, ops: seq<DbOp>, sigs: seq<DbSig>, req: ExecRequest)
    requires !policy.allowDbExec
    ensures Exec(policy, ops, sigs, req) == Rejected(PolicyDbExec)
  {
  }

  /** An op the policy does not allow is never run, whatever the schema
      holds. */
  lemma ExecRespectsPolicy(policy: AiirPolicy, ops: seq<DbOp>, sigs: seq<DbSig>, req: ExecRequest)
    requires Exec(policy, ops, sigs, req).DryRun?
    ensures policy.allowAllOps || Exec(policy, ops, sigs, req).opId in policy.allowOps
  {
  }

  // ---------------------------------------------------------------------
  // The running state

  /** AI_WAL_PATH / AI_SNAPSHOT_PATH logging is not modelled; the events
      aiir_state_log_dbexec records are. */
  datatype AuditEvent = DbExecEvent(opId: u32, procId: u32, argc: nat)

  /** The audit side of AiirState. */
  class AuditLog {
    var events: seq<AuditEvent>

    constructor ()
      ensures events == []
    {
      events := [];
    }

    /** aiir_state_log_dbexec. */
    method LogDbExec(opId: u32, procId: u32, argc: nat)
      modifies this
      ensures events == old(events) + [DbExecEvent(opId, procId, argc)]
    {
      events := events + [DbExecEvent(opId, procId, argc)];
    }
  }

  /** The drift interval load_runtime passes: AI_DRIFT_CHECK_EVERY when it
      parses to 1 .. 1000000, otherwise 200. */
  function DriftCheckEvery(ce: Option<CString>): (r: u32)
    ensures 1 <= r <= 1000000
    ensures ce.None? || ce.value == [] ==> r == 200
    ensures (ce.Some? && ce.value != [] && StrToUL(ce.value).Some? &&
      0 < StrToUL(ce.value).value.value <= 1000000) ==> r == StrToUL(ce.value).value.value
    ensures r != 200 ==> ce.Some? && StrToUL(ce.value).Some? && StrToUL(ce.value).value.value == r
  {
    if ce.None? || ce.value == [] then 200
    else
      var v := match StrToUL(ce.value) case None => 0 case Some(c) => c.value;
      if 0 < v <= 1000000 then v else 200
  }

  /** A variable holding a decimal numeral, possibly followed by other text:
      its value is the interval when it is 1 .. 1000000; zero, an
      out-of-range value or no digits at all leave the default 200. */
  lemma DriftEveryNumeral(d: CString, rest: CString)
    requires d != [] && forall k :: 0 <= k < |d| ==> IsDigit(d[k])
    requires rest == [] || !IsDigit(rest[0])
    ensures DriftCheckEvery(Some(d + rest)) == if 0 < DecimalValue(d) <= 1000000 then DecimalValue(d) else 200
  {
    NumeralConversion(d, rest);
  }

  /** Runtime: the five loaded word buffers, the policy, the decoded schema,
      the state log and the drift watcher. */
  class Runtime {
    var liteTable: seq<u32>
    var liteBlob: seq<u32>
    var adaptTable: seq<u32>
    var adaptBlob: seq<u32>
    var dbPacket: seq<u32>
    var policy: AiirPolicy
    var ops: seq<DbOp>
    var sigs: seq<DbSig>
    const state: AuditLog
    const drift: DriftWatch

    /** The zeroed struct. */
    constructor ()
      ensures liteTable == [] && liteBlob == [] && adaptTable == [] && adaptBlob == [] && dbPacket == []
      ensures policy == AiirPolicy(false, false, []) && ops == [] && sigs == []
      ensures fresh(state) && state.events == [] && fresh(drift)
    {
      liteTable, liteBlob, adaptTable, adaptBlob, dbPacket := [], [], [], [], [];
      policy := AiirPolicy(false, false, []);
      ops, sigs := [], [];
      state := new AuditLog();
      drift := new DriftWatch();
    }

    /** What load_runtime establishes: both tables hold whole 3-word rows. */
    predicate Valid()
      reads this
    {
      |liteTable| % 3 == 0 && |adaptTable| % 3 == 0
    }

    /** The first half of load_runtime: the five buffers (given as already
        loaded), the whole-row checks on the two tables and load_db_index. */
    method LoadTables(lite: seq<u32>, liteData: seq<u32>, adapt: seq<u32>, adaptData: seq<u32>, db: seq<u32>)
      returns (ok: bool)
      modifies this
      ensures liteTable == lite && liteBlob == liteData && adaptTable == adapt && adaptBlob == adaptData && dbPacket == db
      ensures policy == old(policy)
      ensures ok <==> |lite| % 3 == 0 && |adapt| % 3 == 0 && LoadDb(db).Some?
      ensures ok ==> Valid() && LoadDb(db) == Some(DbIndex(ops, sigs))
    {
      liteTable, liteBlob, adaptTable, adaptBlob, dbPacket := lite, liteData, adapt, adaptData, db;
      ops, sigs := [], [];
      if |liteTable| % 3 != 0 || |adaptTable| % 3 != 0 {
        return false;
      }
      var ix := LoadDbIndex(dbPacket);
      if ix.None? {
        return false;
      }
      ops, sigs := ix.value.ops, ix.value.sigs;
      return true;
    }

    /** load_runtime, the environment strings as inputs: the tables must
        hold whole rows, the schema must load, and the drift watcher must
        start from a nonzero hash of the core files. */
    method Load(lite: seq<u32>, liteData: seq<u32>, adapt: seq<u32>, adaptData: seq<u32>, db: seq<u32>,
                dbExecEnv: Option<CString>, opsEnv: Option<CString>, driftEnv: Option<CString>,
                fs: FileSystem, coreDir: string) returns (ok: bool)
      modifies this, drift
      ensures liteTable == lite && liteBlob == liteData && adaptTable == adapt && adaptBlob == adaptData && dbPacket == db
      ensures ok <==> |lite| % 3 == 0 && |adapt| % 3 == 0 && LoadDb(db).Some? && CoreSetHash(fs, coreDir) != 0
      ensures ok ==> Valid() && LoadDb(db) == Some(DbIndex(ops, sigs)) && PolicyOfEnv(policy, dbExecEnv, opsEnv)
      ensures ok ==> drift.coreDir == coreDir && drift.View() == Counters(DriftCheckEvery(driftEnv), CoreSetHash(fs, coreDir), 0, 0)
    {
      policy := AiirPolicy(false, false, []);
      ok := LoadTables(lite, liteData, adapt, adaptData, db);
      if ok {
        policy := InitFromEnv(dbExecEnv, opsEnv);
        ok := drift.Init(fs, coreDir, DriftCheckEvery(driftEnv));
      }
    }

    /** find_op. */
    method FindOp(opId: u32) returns (r: Option<nat>)
      ensures r == FirstOp(ops, opId)
    {
      var i := 0;
      while i < |ops|
        invariant 0 <= i <= |ops|
        invariant FirstOpFrom(ops, opId, i) == FirstOp(ops, opId)
      {
        if ops[i].opId == opId {
          return Some(i);
        }
        i := i + 1;
      }
      return None;
    }

    /** count_sig_for_op: the count is a uint32_t. */
    method CountSigForOp(opId: u32) returns (c: u32)
      ensures c == Wrap32(SigCount(sigs, opId))
    {
      c := 0;
      var i := 0;
      while i < |sigs|
        invariant 0 <= i <= |sigs|
        invariant c == Wrap32(SigCount(sigs[..i], opId))
      {
        assert sigs[..i + 1][..i] == sigs[..i];
        if sigs[i].opId == opId {
          WrapSucc(SigCount(sigs[..i], opId));
          c := Wrap32(c + 1);
        }
        i := i + 1;
      }
      assert sigs[..i] == sigs;
    }

    /** find_sig. */
    method FindSig(opId: u32, argIndex: u32) returns (r: Option<nat>)
      ensures r == FirstSig(sigs, opId, argIndex)
    {
      var i := 0;
      while i < |sigs|
        invariant 0 <= i <= |sigs|
        invariant FirstSigFrom(sigs, opId, argIndex, i) == FirstSig(sigs, opId, argIndex)
      {
        if sigs[i].opId == opId && sigs[i].argIndex == argIndex {
          return Some(i);
        }
        i := i + 1;
      }
      return None;
    }

    /** find_adapt: a walk over the table three words at a time. */
    method FindAdapt(fileId: u32) returns (r: Option<(u32, u32)>)
      requires Valid()
      ensures r == AdaptLookup(adaptTable, fileId)
    {
      var i := 0;
      while i < |adaptTable|
        invariant 0 <= i <= |adaptTable| && i % 3 == 0
        invariant AdaptRowFrom(adaptTable, fileId, i / 3) == AdaptRowFrom(adaptTable, fileId, 0)
      {
        if adaptTable[i] == fileId {
          return Some((adaptTable[i + 1], adaptTable[i + 2]));
        }
        i := i + 3;
      }
      return None;
    }

    /** get_packet_by_id: the packet of row `id` of the lite table, if the
        row exists and its offset and length stay inside the blob. */
    method GetPacketById(id: u32) returns (r: Option<seq<u32>>)
      ensures r == PacketById(liteTable, liteBlob, id)
      ensures |liteTable| < U32_MOD ==>
        (r.None? <==> id >= |liteTable| / 3 || liteTable[3 * id + 1] as int + liteTable[3 * id + 2] > |liteBlob|)
      ensures |liteTable| < U32_MOD && r.Some? ==>
        id < |liteTable| / 3 && r.value == liteBlob[liteTable[3 * id + 1]..liteTable[3 * id + 1] as int + liteTable[3 * id + 2]]
    {
      var files := Wrap32(|liteTable| / 3);
      if id >= files {
        r := None;
      } else {
        var p := Wrap32(id * 3);
        var off, len := liteTable[Wrap32(p as int + 1)], liteTable[Wrap32(p as int + 2)];
        if off + len > |liteBlob| {
          r := None;
        } else {
          r := Some(liteBlob[off..off + len]);
        }
      }
      if |liteTable| < U32_MOD {
        PacketByIdRows(liteTable, liteBlob, id);
      }
    }

    /** The /ai/db/exec branch of handle_request: the checks in order, and
        one audit event for a dry run. */
    method HandleDbExec(req: ExecRequest) returns (r: ExecResult)
      modifies state
      ensures r == Exec(policy, ops, sigs, req)
      ensures state.events == old(state.events) + (if r.DryRun? then [DbExecEvent(r.opId, r.procId, r.argsCount)] else [])
    {
      if !policy.allowDbExec {
        return Rejected(PolicyDbExec);
      }
      match req.framing {
        case NoHeaderEnd => return Rejected(Headers);
        case BadContentLength => return Rejected(ContentLength);
        case ShortBody => return Rejected(BodyShort);
        case Framed =>
      }
      if req.opId.None? || req.opId.value < 0 || req.opId.value > 0xffff_ffff {
        return Rejected(OpIdBad);
      }
      var id: u32 := req.opId.value;
      var allowed := AllowOp(policy, id);
      if !allowed {
        return Rejected(PolicyOp);
      }
      var k := FindOp(id);
      if k.None? {
        return Rejected(UnknownOp);
      }
      var op := ops[k.value];
      if req.args.None? {
        return Rejected(ArgsBad);
      }
      var args := req.args.value;
      if |args| < op.minArgs || |args| > op.maxArgs {
        return Rejected(Argc);
      }
      var sigc := CountSigForOp(id);
      if sigc != |args| {
        return Rejected(SigArity);
      }
      var i := 0;
      while i < |args|
        invariant 0 <= i <= |args|
        invariant forall j :: 0 <= j < i ==> ArgOk(sigs, id, args, j)
        invariant state.events == old(state.events)
      {
        var sg := FindSig(id, i);
        if sg.None? || !TypeCheck(sigs[sg.value].typeId, args[i]) {
          assert !ArgOk(sigs, id, args, i);
          assert !ArgsTyped(sigs, id, args);
          return Rejected(TypeMismatch);
        }
        i := i + 1;
      }
      state.LogDbExec(op.opId, op.procId, |args|);
      return DryRun(op.opId, op.procId, |args|);
    }
  }

  /** One more in uint32_t arithmetic. */
  lemma WrapSucc(a: nat)
    ensures Wrap32(Wrap32(a) + 1) == Wrap32(a + 1)
  {
  }
}
