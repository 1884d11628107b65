/** The schema index of the runtime (ai/runtime-server-native/ai_runtime_native.c):
    the OPS and SIG rows decoded from a schema packet, the first-match
    lookups over them, and the type check of one request argument. */
module Db {
  import opened AiirTypes
  import opened Container

  /** An OPS row: `opId, engineId, aclId, procId, minArgs, maxArgs`. */
  datatype DbOp = DbOp(opId: u32, engineId: u32, aclId: u32, procId: u32, minArgs: u32, maxArgs: u32)

  /** A SIG row: `opId, argIndex, typeId, flags`. */
  datatype DbSig = DbSig(opId: u32, argIndex: u32, typeId: u32, flags: u32)

  const OP_WORDS: nat := 6
  const SIG_WORDS: nat := 4

  /** Row k of an OPS payload: words 6k .. 6k+5. */
  function OpRow(words: seq<u32>, k: nat): DbOp
    requires OP_WORDS * k + OP_WORDS <= |words|
  {
    var b := OP_WORDS * k;
    DbOp(words[b], words[b + 1], words[b + 2], words[b + 3], words[b + 4], words[b + 5])
  }

  /** Row k of a SIG payload: words 4k .. 4k+3. */
  function SigRow(words: seq<u32>, k: nat): DbSig
    requires SIG_WORDS * k + SIG_WORDS <= |words|
  {
    var b := SIG_WORDS * k;
    DbSig(words[b], words[b + 1], words[b + 2], words[b + 3])
  }

  /** All whole OPS rows of a payload, in order. */
  function OpsOf(words: seq<u32>): (r: seq<DbOp>)
    ensures |r| == |words| / OP_WORDS
  {
    seq(|words| / OP_WORDS, k requires 0 <= k < |words| / OP_WORDS => OpRow(words, k))
  }

  /** All whole SIG rows of a payload, in order. */
  function SigsOf(words: seq<u32>): (r: seq<DbSig>)
    ensures |r| == |words| / SIG_WORDS
  {
    seq(|words| / SIG_WORDS, k requires 0 <= k < |words| / SIG_WORDS => SigRow(words, k))
  }

  /** The decoded schema: `rt->ops[0..ops_count)` and `rt->sigs[0..sig_count)`. */
  datatype DbIndex = DbIndex(ops: seq<DbOp>, sigs: seq<DbSig>)

  /** What load_db_index accepts and decodes: a structurally valid schema
      container with an OPS section of whole 6-word rows and a SIG section of
      whole 4-word rows, the last TOC entry of each id being the one used. */
  function LoadDb(w: seq<u32>): Option<DbIndex>
  {
    if !WellFormed(w, D2B_MAGIC) then None
    else
      match (LastEntry(w, D2B_SEC_OPS), LastEntry(w, D2B_SEC_SIG))
      case (Some(o), Some(s)) =>
        if o.len % OP_WORDS == 0 && s.len % SIG_WORDS == 0
        then Some(DbIndex(OpsOf(Slice(w, o)), SigsOf(Slice(w, s))))
        else None
      case _ => None
  }

  /** The rejections: a schema index exists exactly when the container is
      valid, the OPS and SIG sections are present and their lengths are
      whole numbers of rows. */
  lemma LoadDbFails(w: seq<u32>)
    ensures LoadDb(w).None? <==>
      |w| < HEADER_WORDS || w[0] != D2B_MAGIC || w[6] != |w| || !TocValid(w) ||
      LastEntry(w, D2B_SEC_OPS).None? || LastEntry(w, D2B_SEC_SIG).None? ||
      LastEntry(w, D2B_SEC_OPS).value.len % 6 != 0 || LastEntry(w, D2B_SEC_SIG).value.len % 4 != 0
  {
  }

  /** The decoding: ops_len/6 ops and sig_len/4 sigs, op i being words 6i ..
      6i+5 of the last OPS section in field order (op, engine, acl, proc, min,
      max) and sig i words 4i .. 4i+3 of the last SIG section in field order
      (op, argIndex, type, flags). */
  lemma LoadDbRows(w: seq<u32>)
    requires LoadDb(w).Some?
    ensures WellFormed(w, D2B_MAGIC)
    ensures LastEntry(w, D2B_SEC_OPS).Some? && LastEntry(w, D2B_SEC_SIG).Some?
    ensures var o, s, ix := LastEntry(w, D2B_SEC_OPS).value, LastEntry(w, D2B_SEC_SIG).value, LoadDb(w).value;
      o.off + o.len <= |w| && s.off + s.len <= |w| &&
      6 * |ix.ops| == o.len && 4 * |ix.sigs| == s.len &&
      (forall i :: 0 <= i < |ix.ops| ==>
        ix.ops[i] == DbOp(w[o.off + 6 * i], w[o.off + 6 * i + 1], w[o.off + 6 * i + 2],
                          w[o.off + 6 * i + 3], w[o.off + 6 * i + 4], w[o.off + 6 * i + 5])) &&
      (forall i :: 0 <= i < |ix.sigs| ==>
        ix.sigs[i] == DbSig(w[s.off + 4 * i], w[s.off + 4 * i + 1], w[s.off + 4 * i + 2], w[s.off + 4 * i + 3]))
  {
    LastEntryFits(w, D2B_SEC_OPS);
    LastEntryFits(w, D2B_SEC_SIG);
  }

  // ---------------------------------------------------------------------
  // Lookups

  /** The first op at index >= i with the id, as find_op's loop finds it. */
  function FirstOpFrom(ops: seq<DbOp>, opId: u32, i: nat): (r: Option<nat>)
    requires i <= |ops|
    ensures r.Some? ==> i <= r.value < |ops| && ops[r.value].opId == opId
    ensures r.Some? ==> forall j :: i <= j < r.value ==> ops[j].opId != opId
    ensures r.None? ==> forall j :: i <= j < |ops| ==> ops[j].opId != opId
    decreases |ops| - i
  {
    if i == |ops| then None
    else if ops[i].opId == opId then Some(i)
    else FirstOpFrom(ops, opId, i + 1)
  }

  /** find_op: the index of the first op with the id. */
  function FirstOp(ops: seq<DbOp>, opId: u32): Option<nat>
  {
    FirstOpFrom(ops, opId, 0)
  }

  /** find_op finds an op exactly when one has the id, and the one it finds
      comes before every other with that id. */
  lemma FirstOpIff(ops: seq<DbOp>, opId: u32)
    ensures FirstOp(ops, opId).Some? <==> exists j :: 0 <= j < |ops| && ops[j].opId == opId
    ensures FirstOp(ops, opId).Some? ==>
      var k := FirstOp(ops, opId).value;
      k < |ops| && ops[k].opId == opId && forall j :: 0 <= j < k ==> ops[j].opId != opId
  {
  }

  /** count_sig_for_op: the number of SIG rows with the op id. */
  function SigCount(sigs: seq<DbSig>, opId: u32): (r: nat)
    ensures r <= |sigs|
  {
    if sigs == [] then 0
    else SigCount(sigs[..|sigs| - 1], opId) + (if sigs[|sigs| - 1].opId == opId then 1 else 0)
  }

  /** Counting over two parts adds up. */
  lemma {:induction false} SigCountAppend(a: seq<DbSig>, b: seq<DbSig>, opId: u32)
    ensures SigCount(a + b, opId) == SigCount(a, opId) + SigCount(b, opId)
    decreases |b|
  {
    if b != [] {
      var b' := b[..|b| - 1];
      assert (a + b)[..|a + b| - 1] == a + b';
      SigCountAppend(a, b', opId);
    } else {
      assert a + b == a;
    }
  }

  /** No row has the id exactly when the count is zero. */
  lemma {:induction false} SigCountZero(sigs: seq<DbSig>, opId: u32)
    ensures SigCount(sigs, opId) == 0 <==> forall j :: 0 <= j < |sigs| ==> sigs[j].opId != opId
  {
    if sigs != [] {
      var init := sigs[..|sigs| - 1];
      SigCountZero(init, opId);
      assert forall j :: 0 <= j < |init| ==> init[j] == sigs[j];
    }
  }

  /** The first SIG row at index >= i matching the op and argument index. */
  function FirstSigFrom(sigs: seq<DbSig>, opId: u32, argIndex: nat, i: nat): (r: Option<nat>)
    requires i <= |sigs|
    ensures r.Some? ==> i <= r.value < |sigs| && sigs[r.value].opId == opId && sigs[r.value].argIndex == argIndex
    ensures r.Some? ==> forall j :: i <= j < r.value ==> !(sigs[j].opId == opId && sigs[j].argIndex == argIndex)
    ensures r.None? ==> forall j :: i <= j < |sigs| ==> !(sigs[j].opId == opId && sigs[j].argIndex == argIndex)
    decreases |sigs| - i
  {
    if i == |sigs| then None
    else if sigs[i].opId == opId && sigs[i].argIndex == argIndex then Some(i)
    else FirstSigFrom(sigs, opId, argIndex, i + 1)
  }

  /** find_sig: the index of the first row for (opId, argIndex). */
  function FirstSig(sigs: seq<DbSig>, opId: u32, argIndex: nat): Option<nat>
  {
    FirstSigFrom(sigs, opId, argIndex, 0)
  }

  /** A row found by find_sig is one of the rows count_sig_for_op counts. */
  lemma FoundSigCounted(sigs: seq<DbSig>, opId: u32, argIndex: nat)
    requires FirstSig(sigs, opId, argIndex).Some?
    ensures SigCount(sigs, opId) > 0
  {
    var k := FirstSig(sigs, opId, argIndex).value;
    SigCountZero(sigs, opId);
    assert sigs[k].opId == opId;
  }

  // ---------------------------------------------------------------------
  // Type check

  /** A parsed request argument; numbers carry only whether they are
      integral, the double itself is not modelled. */
  datatype JsonVal = Null | Bool(b: bool) | Number(isInt: bool) | String(s: string)

  const TYPE_I64: u32 := 1
  const TYPE_F64: u32 := 2
  const TYPE_TEXT: u32 := 3
  const TYPE_BYTES: u32 := 4
  const TYPE_BOOL: u32 := 5
  const TYPE_NIL: u32 := 6

  /** type_check: the switch over the declared type id. */
  predicate TypeCheck(typeId: u32, v: JsonVal)
  {
    match typeId
    case 1 => v.Number? && v.isInt
    case 2 => v.Number?
    case 3 => v.String?
    case 4 => false
    case 5 => v.Bool?
    case 6 => v.Null?
    case _ => false
  }

  /** What each type id accepts: I64 only integral numbers, F64 any number,
      TEXT strings, BOOL booleans, NIL null; BYTES and unknown ids nothing. */
  lemma TypeCheckAccepts(typeId: u32, v: JsonVal)
    ensures TypeCheck(typeId, v) <==>
      (typeId == TYPE_I64 && v == Number(true)) ||
      (typeId == TYPE_F64 && (v == Number(true) || v == Number(false))) ||
      (typeId == TYPE_TEXT && v.String?) ||
      (typeId == TYPE_BOOL && (v == Bool(true) || v == Bool(false))) ||
      (typeId == TYPE_NIL && v == Null)
  {
  }

  /** Every value an I64 slot accepts is accepted by an F64 slot too. */
  lemma I64IsF64(v: JsonVal)
    ensures TypeCheck(TYPE_I64, v) ==> TypeCheck(TYPE_F64, v)
  {
  }

  /** Type ids outside 1..6 and BYTES accept nothing. */
  lemma UnknownTypeRejects(typeId: u32, v: JsonVal)
    requires typeId == TYPE_BYTES || typeId == 0 || typeId > TYPE_NIL
    ensures !TypeCheck(typeId, v)
  {
  }

  /** Each value is accepted by some declared type. */
  lemma SomeTypeAccepts(v: JsonVal)
    ensures exists t: u32 :: TYPE_I64 <= t <= TYPE_NIL && TypeCheck(t, v)
  {
    match v
    case Null => assert TypeCheck(TYPE_NIL, v);
    case Bool(_) => assert TypeCheck(TYPE_BOOL, v);
    case Number(_) => assert TypeCheck(TYPE_F64, v);
    case String(_) => assert TypeCheck(TYPE_TEXT, v);
  }
}
