/** The request policy (ai/native-core/aiir_policy.c): whether /ai/db/exec is
    enabled at all and which op ids it may run, read from two environment
    strings.  The strings are inputs here: None stands for an unset
    variable. */
module Policy {
  import opened AiirTypes

  /** AiirPolicy; `allow_ops[0..allow_ops_n)` is the sequence allowOps. */
  datatype AiirPolicy = AiirPolicy(allowDbExec: bool, allowAllOps: bool, allowOps: seq<u32>)

  // ---------------------------------------------------------------------
  // parse_bool_env

  /** The ASCII case folding strcasecmp compares under. */
  function Lower(c: char): char
  {
    if 'A' <= c <= 'Z' then (c as int + 32) as char else c
  }

  /** strcasecmp(a, b) == 0. */
  predicate SameIgnoringCase(a: string, b: string)
  {
    |a| == |b| && forall i :: 0 <= i < |a| ==> Lower(a[i]) == Lower(b[i])
  }

  /** The spellings parse_bool_env reads as true. */
  predicate TrueWord(t: string)
  {
    t == "1" || SameIgnoringCase(t, "true") || SameIgnoringCase(t, "yes")
  }

  /** The spellings parse_bool_env reads as false. */
  predicate FalseWord(t: string)
  {
    t == "0" || SameIgnoringCase(t, "false") || SameIgnoringCase(t, "no")
  }

  /** parse_bool_env: unset and empty give the default, then the true
      spellings are tried before the false ones. */
  function ParseBoolEnv(s: Option<CString>, defv: bool): bool
  {
    match s
    case None => defv
    case Some(t) =>
      if t == "" then defv
      else if TrueWord(t) then true
      else if FalseWord(t) then false
      else defv
  }

  /** No spelling is both true and false: a case-insensitive match needs
      equal lengths, and the six words have lengths 1, 4, 3, 1, 5, 2. */
  lemma WordsDisjoint(t: string)
    ensures !(TrueWord(t) && FalseWord(t))
  {
    if t == "1" {
      assert !SameIgnoringCase(t, "false") && !SameIgnoringCase(t, "no");
      assert Lower(t[0]) != Lower("0"[0]);
    }
  }

  /** The default decides exactly the unset, empty and unrecognised values;
      a recognised value gives true iff it is a true spelling. */
  lemma ParseBoolDefault(s: Option<CString>)
    ensures ParseBoolEnv(s, false) != ParseBoolEnv(s, true) <==>
      s.None? || !(TrueWord(s.value) || FalseWord(s.value))
    ensures s.Some? && (TrueWord(s.value) || FalseWord(s.value)) ==>
      (ParseBoolEnv(s, false) <==> TrueWord(s.value))
  {
    if s.Some? {
      WordsDisjoint(s.value);
    }
  }

  /** Case does not matter for the words, but "1" and "0" are exact. */
  lemma ParseBoolSpellings(d: bool)
    ensures ParseBoolEnv(Some("TRUE"), d) && ParseBoolEnv(Some("Yes"), d) && ParseBoolEnv(Some("1"), d)
    ensures !ParseBoolEnv(Some("False"), d) && !ParseBoolEnv(Some("NO"), d) && !ParseBoolEnv(Some("0"), d)
    ensures ParseBoolEnv(Some(" 1"), d) == d && ParseBoolEnv(Some("on"), d) == d
  {
    assert SameIgnoringCase("TRUE", "true");
    assert SameIgnoringCase("Yes", "yes");
    assert SameIgnoringCase("False", "false");
    assert SameIgnoringCase("NO", "no");
    assert !SameIgnoringCase("on", "no") by {
      assert Lower("on"[0]) != Lower("no"[0]);
    }
  }

  // ---------------------------------------------------------------------
  // strtoul(s, &end, 10)

  /** isspace in the C locale. */
  predicate IsSpace(c: char)
  {
    c == ' ' || c == '\t' || c == '\n' || c == '\r' || c as int == 0x0b || c as int == 0x0c
  }

  predicate IsDigit(c: char)
  {
    '0' <= c <= '9'
  }

  /** The number of leading white-space characters. */
  function SpacesLen(t: string): (r: nat)
    ensures r <= |t|
  {
    if t != [] && IsSpace(t[0]) then 1 + SpacesLen(t[1..]) else 0
  }

  /** The number of leading decimal digits. */
  function DigitsLen(t: string): (r: nat)
    ensures r <= |t|
  {
    if t != [] && IsDigit(t[0]) then 1 + DigitsLen(t[1..]) else 0
  }

  /** The value of a string of decimal digits. */
  function DecimalValue(d: string): nat
  {
    if d == [] then 0
    else
      var c := d[|d| - 1];
      10 * DecimalValue(d[..|d| - 1]) + (if IsDigit(c) then c as int - '0' as int else 0)
  }

  const ULONG_MAX: nat := 0xFFFF_FFFF_FFFF_FFFF

  /** A successful conversion: the value and the length consumed. */
  datatype Conversion = Conversion(value: nat, end: nat)

  /** Where the digits start: after the white space and an optional sign. */
  function DigitsStart(t: string): (q: nat)
    ensures q <= |t|
  {
    var p := SpacesLen(t);
    if p < |t| && (t[p] == '+' || t[p] == '-') then p + 1 else p
  }

  /** The optional sign is a minus. */
  predicate Negated(t: string)
  {
    var p := SpacesLen(t);
    p < |t| && t[p] == '-'
  }

  /** The value strtoul returns for a magnitude m: ULONG_MAX when m is out
      of range, otherwise m, negated modulo 2^64 after a minus sign. */
  function ULResult(m: nat, neg: bool): (v: nat)
    ensures v <= ULONG_MAX
  {
    if m > ULONG_MAX then ULONG_MAX
    else if neg then (ULONG_MAX + 1 - m) % (ULONG_MAX + 1)
    else m
  }

  /** strtoul(t, &end, 10) with a 64-bit unsigned long: optional white
      space, an optional sign, then the longest run of decimal digits.  No
      digit means no conversion (end == t). */
  function StrToUL(t: string): (r: Option<Conversion>)
    ensures r.Some? ==> 0 < r.value.end <= |t| && r.value.value <= ULONG_MAX
  {
    var q := DigitsStart(t);
    var n := DigitsLen(t[q..]);
    if n == 0 then None
    else Some(Conversion(ULResult(DecimalValue(t[q..q + n]), Negated(t)), q + n))
  }

  // ---------------------------------------------------------------------
  // The allow-list

  /** What is left from the first comma on (`while (*s && *s != ',') s++`). */
  function FromComma(t: string): (r: string)
    ensures |r| <= |t|
    ensures t != [] && t[0] != ',' ==> |r| < |t|
    ensures r == [] || r[0] == ','
  {
    if t == [] || t[0] == ',' then t else FromComma(t[1..])
  }

  /** The op ids the parsing loop of aiir_policy_init_from_env appends for
      the rest t of the string: spaces and commas are skipped; a token
      strtoul reads no number from is dropped up to the next comma; after a
      number, anything up to the next comma is ignored; each number is cast
      to uint32_t. */
  function ListOps(t: string): seq<u32>
    decreases |t|, 1
  {
    if t == [] then []
    else if t[0] == ' ' || t[0] == ',' then ListOps(t[1..])
    else TokenOps(t)
  }

  /** The op ids for the rest t of the string when it starts with a token. */
  function TokenOps(t: string): seq<u32>
    requires t != [] && t[0] != ','
    decreases |t|, 0
  {
    match StrToUL(t)
    case None => ListOps(FromComma(t))
    case Some(c) => [Wrap32(c.value)] + ListOps(FromComma(t[c.end..]))
  }

  /** The number of leading blanks. */
  function BlanksLen(a: string): (r: nat)
    ensures r <= |a|
  {
    if a != [] && a[0] == ' ' then 1 + BlanksLen(a[1..]) else 0
  }

  /** What one comma-free segment of the list contributes: the number
      strtoul reads after the leading blanks, if it reads one. */
  function SegmentOps(a: string): (r: seq<u32>)
    ensures |r| <= 1
  {
    var t := a[BlanksLen(a)..];
    if t == [] then []
    else
      match StrToUL(t)
      case None => []
      case Some(c) => [Wrap32(c.value)]
  }

  lemma {:induction false} SpacesBeforeComma(a: string, b: string)
    ensures SpacesLen(a + "," + b) == SpacesLen(a)
  {
    if a != [] {
      assert (a + "," + b)[1..] == a[1..] + "," + b;
      SpacesBeforeComma(a[1..], b);
    }
  }

  lemma {:induction false} DigitsBeforeComma(a: string, b: string)
    ensures DigitsLen(a + "," + b) == DigitsLen(a)
  {
    if a != [] {
      assert (a + "," + b)[1..] == a[1..] + "," + b;
      DigitsBeforeComma(a[1..], b);
    }
  }

  lemma StartBeforeComma(a: string, b: string)
    ensures DigitsStart(a + "," + b) == DigitsStart(a)
    ensures Negated(a + "," + b) <==> Negated(a)
  {
    SpacesBeforeComma(a, b);
  }

  /** strtoul stops at a comma: what follows it does not matter. */
  lemma StrToULBeforeComma(a: string, b: string)
    ensures StrToUL(a + "," + b) == StrToUL(a)
  {
    var t := a + "," + b;
    StartBeforeComma(a, b);
    var q := DigitsStart(a);
    assert t[q..] == a[q..] + "," + b;
    DigitsBeforeComma(a[q..], b);
    var n := DigitsLen(a[q..]);
    assert t[q..q + n] == a[q..q + n];
  }

  /** In a comma-free segment followed by a comma, skipping to the comma
      lands on that comma. */
  lemma {:induction false} FromCommaAt(a: string, b: string)
    requires ',' !in a
    ensures FromComma(a + "," + b) == "," + b
    ensures FromComma(a) == []
  {
    if a != [] {
      assert a[0] != ',';
      assert (a + "," + b)[1..] == a[1..] + "," + b;
      FromCommaAt(a[1..], b);
    }
  }

  /** The list splits at its first comma: the first segment contributes its
      number (if any), the rest is parsed on its own. */
  lemma {:induction false} ListOpsSplit(a: string, b: string)
    requires ',' !in a
    ensures ListOps(a + "," + b) == SegmentOps(a) + ListOps(b)
  {
    var t := a + "," + b;
    if a == [] {
      assert t[1..] == b;
    } else if a[0] == ' ' {
      assert t[1..] == a[1..] + "," + b;
      ListOpsSplit(a[1..], b);
      assert a[BlanksLen(a)..] == a[1..][BlanksLen(a[1..])..];
    } else {
      assert BlanksLen(a) == 0 && a[0] != ',';
      assert ListOps(t) == TokenOps(t);
      StrToULBeforeComma(a, b);
      FromCommaAt(a, b);
      assert ("," + b)[1..] == b;
      assert ListOps("," + b) == ListOps(b);
      match StrToUL(a)
      case None =>
        assert TokenOps(t) == ListOps("," + b);
      case Some(c) =>
        assert t[c.end..] == a[c.end..] + "," + b;
        assert ',' !in a[c.end..];
        FromCommaAt(a[c.end..], b);
    }
  }

  /** A last segment, with no comma after it, contributes its number. */
  lemma {:induction false} ListOpsLast(a: string)
    requires ',' !in a
    ensures ListOps(a) == SegmentOps(a)
  {
    if a != [] {
      if a[0] == ' ' {
        ListOpsLast(a[1..]);
        assert a[BlanksLen(a)..] == a[1..][BlanksLen(a[1..])..];
      } else {
        assert ListOps(a) == TokenOps(a) && BlanksLen(a) == 0;
        FromCommaAt(a, "");
        match StrToUL(a)
        case None =>
          assert TokenOps(a) == ListOps(FromComma(a)) == [];
        case Some(c) =>
          assert ',' !in a[c.end..];
          FromCommaAt(a[c.end..], "");
          assert TokenOps(a) == [Wrap32(c.value)] + ListOps(FromComma(a[c.end..]));
      }
    }
  }

  /** A segment of blanks, a numeral and trailing text that does not start
      with a digit contributes the numeral's value, truncated to uint32_t
      (through ULONG_MAX when it is larger). */
  lemma SegmentNumeral(blanks: string, d: string, rest: string)
    requires forall k :: 0 <= k < |blanks| ==> blanks[k] == ' '
    requires d != [] && forall k :: 0 <= k < |d| ==> IsDigit(d[k])
    requires rest == [] || !IsDigit(rest[0])
    ensures SegmentOps(blanks + d + rest) == [Wrap32(Min(DecimalValue(d), ULONG_MAX))]
  {
    var a := blanks + d + rest;
    BlanksOf(blanks, d + rest);
    assert a == blanks + (d + rest);
    assert a[BlanksLen(a)..] == d + rest;
    NumeralConversion(d, rest);
  }

  /** strtoul reads a numeral up to the first non-digit. */
  lemma NumeralConversion(d: string, rest: string)
    requires d != [] && forall k :: 0 <= k < |d| ==> IsDigit(d[k])
    requires rest == [] || !IsDigit(rest[0])
    ensures StrToUL(d + rest) == Some(Conversion(Min(DecimalValue(d), ULONG_MAX), |d|))
  {
    var t := d + rest;
    assert t[0] == d[0];
    NoSignOrSpace(t);
    DigitsOf(d, rest);
    assert t[0..] == t && t[0..|d|] == d;
    assert ULResult(DecimalValue(d), false) == Min(DecimalValue(d), ULONG_MAX);
  }

  /** The value strtoul gives the digits d after the sign: the magnitude,
      saturated at ULONG_MAX, and negated modulo 2^64 after a minus. */
  function SignedValue(d: string, sign: char): nat
  {
    ULResult(DecimalValue(d), sign == '-')
  }

  /** strtoul skips leading white space and one sign, then reads the
      numeral; after a minus the value is negated modulo 2^64. */
  lemma SignedConversion(sp: string, sign: char, d: string, rest: string)
    requires forall k :: 0 <= k < |sp| ==> IsSpace(sp[k])
    requires sign == '+' || sign == '-'
    requires d != [] && forall k :: 0 <= k < |d| ==> IsDigit(d[k])
    requires rest == [] || !IsDigit(rest[0])
    ensures StrToUL(sp + ([sign] + (d + rest))) ==
      Some(Conversion(SignedValue(d, sign), |sp| + 1 + |d|))
  {
    var u := [sign] + (d + rest);
    var t := sp + u;
    assert u[0] == sign;
    SignStart(sp, u);
    SignedSuffix(sp, sign, d, rest);
    DigitsOf(d, rest);
    StrToULAt(t, |sp| + 1, d, sign == '-');
    assert SignedValue(d, sign) == ULResult(DecimalValue(d), sign == '-');
  }

  /** Past the white space and the sign come the digits, then the rest. */
  lemma SignedSuffix(sp: string, sign: char, d: string, rest: string)
    ensures var t := sp + ([sign] + (d + rest));
      t[|sp| + 1..] == d + rest && t[|sp| + 1..|sp| + 1 + |d|] == d
  {
    var e := d + rest;
    var t := sp + ([sign] + e);
    var q := |sp| + 1;
    assert t[q..] == e;
    assert e[..|d|] == d;
    SliceOfSuffix(t, q, |d|);
  }

  /** strtoul when the digits start at q and are d. */
  lemma StrToULAt(t: string, q: nat, d: string, neg: bool)
    requires DigitsStart(t) == q && q + |d| <= |t| && DigitsLen(t[q..]) == |d| > 0 && t[q..q + |d|] == d
    requires Negated(t) == neg
    ensures StrToUL(t) == Some(Conversion(ULResult(DecimalValue(d), neg), q + |d|))
  {
  }

  lemma SliceOfSuffix(t: string, q: nat, n: nat)
    requires q + n <= |t|
    ensures t[q..q + n] == t[q..][..n]
  {
  }

  /** After white space, a sign puts the digits one character further. */
  lemma SignStart(sp: string, u: string)
    requires forall k :: 0 <= k < |sp| ==> IsSpace(sp[k])
    requires u != [] && (u[0] == '+' || u[0] == '-')
    ensures DigitsStart(sp + u) == |sp| + 1
    ensures Negated(sp + u) <==> u[0] == '-'
  {
    SpacesOf(sp, u);
    assert (sp + u)[|sp|] == u[0];
  }

  /** A tab before "-1" is white space for strtoul, not a separator: the
      segment converts to ULONG_MAX and the allow-list gets 0xFFFFFFFF. */
  lemma MinusOneSegment()
    ensures StrToUL("\t-1") == Some(Conversion(ULONG_MAX, 3))
    ensures ListOps("\t-1") == [0xFFFF_FFFF]
  {
    var t := "\t-1";
    SignedConversion("\t", '-', "1", "");
    assert "\t" + (['-'] + ("1" + "")) == t;
    assert DecimalValue("1") == 1;
    assert SignedValue("1", '-') == ULResult(1, true) == ULONG_MAX;
    assert StrToUL(t) == Some(Conversion(ULONG_MAX, 3));
    ListOpsLast(t);
    assert BlanksLen(t) == 0 && t[0..] == t;
    assert SegmentOps(t) == [Wrap32(ULONG_MAX)];
  }

  lemma NoSignOrSpace(t: string)
    requires t != [] && IsDigit(t[0])
    ensures DigitsStart(t) == 0 && !Negated(t)
  {
    assert SpacesLen(t) == 0;
  }

  lemma {:induction false} SpacesOf(sp: string, t: string)
    requires forall k :: 0 <= k < |sp| ==> IsSpace(sp[k])
    requires t != [] && !IsSpace(t[0])
    ensures SpacesLen(sp + t) == |sp|
  {
    if sp != [] {
      assert (sp + t)[1..] == sp[1..] + t;
      SpacesOf(sp[1..], t);
    }
  }

  lemma {:induction false} BlanksOf(blanks: string, t: string)
    requires forall k :: 0 <= k < |blanks| ==> blanks[k] == ' '
    requires t != [] && t[0] != ' '
    ensures BlanksLen(blanks + t) == |blanks|
  {
    if blanks != [] {
      assert (blanks + t)[1..] == blanks[1..] + t;
      BlanksOf(blanks[1..], t);
    }
  }

  lemma {:induction false} DigitsOf(d: string, rest: string)
    requires forall k :: 0 <= k < |d| ==> IsDigit(d[k])
    requires rest == [] || !IsDigit(rest[0])
    ensures DigitsLen(d + rest) == |d|
  {
    if d != [] {
      assert (d + rest)[1..] == d[1..] + rest;
      DigitsOf(d[1..], rest);
    } else {
      assert d + rest == rest;
    }
  }

  // ---------------------------------------------------------------------
  // aiir_policy_init_from_env and aiir_policy_allow_op

  /** What aiir_policy_init_from_env makes of the two variables. */
  predicate PolicyOfEnv(p: AiirPolicy, dbExecEnv: Option<CString>, opsEnv: Option<CString>)
  {
    p.allowDbExec == ParseBoolEnv(dbExecEnv, false) &&
    (p.allowAllOps <==> opsEnv == Some("*")) &&
    p.allowOps == if opsEnv.None? || opsEnv.value == "" || opsEnv.value == "*" then [] else ListOps(opsEnv.value)
  }

  /** aiir_policy_init_from_env with the two variables as inputs; the
      allow-list grows by one entry per number the loop reads. */
  method InitFromEnv(dbExecEnv: Option<CString>, opsEnv: Option<CString>) returns (p: AiirPolicy)
    ensures p.allowDbExec == ParseBoolEnv(dbExecEnv, false)
    ensures p.allowAllOps <==> opsEnv == Some("*")
    ensures p.allowOps == if opsEnv.None? || opsEnv.value == "" || opsEnv.value == "*" then [] else ListOps(opsEnv.value)
  {
    var allowDbExec := ParseBoolEnv(dbExecEnv, false);
    if opsEnv.None? || opsEnv.value == "" {
      return AiirPolicy(allowDbExec, false, []);
    }
    var s := opsEnv.value;
    if s == "*" {
      return AiirPolicy(allowDbExec, true, []);
    }
    var ops: seq<u32> := [];
    var i := 0;
    while i < |s|
      invariant 0 <= i <= |s|
      invariant ops + ListOps(s[i..]) == ListOps(s)
      decreases |s| - i
    {
      i := SkipSeparators(s, i);
      if i == |s| {
        break;
      }
      var t := s[i..];
      var c := StrToUL(t);
      TokenStep(t);
      if c.None? {
        i := SkipToComma(s, i);
        continue;
      }
      var v := Wrap32(c.value.value);
      var e := i + c.value.end;
      assert s[e..] == t[c.value.end..];
      i := SkipToComma(s, e);
      ops := ops + [v];
    }
    assert s[|s|..] == [];
    p := AiirPolicy(allowDbExec, false, ops);
  }

  /** `while (*s == ' ' || *s == ',') s++;` */
  method SkipSeparators(s: string, i0: nat) returns (i: nat)
    requires i0 <= |s|
    ensures i0 <= i <= |s| && ListOps(s[i..]) == ListOps(s[i0..])
    ensures i < |s| ==> s[i] != ' ' && s[i] != ','
  {
    i := i0;
    while i < |s| && (s[i] == ' ' || s[i] == ',')
      invariant i0 <= i <= |s|
      invariant ListOps(s[i..]) == ListOps(s[i0..])
    {
      ListOpsSeparator(s[i..]);
      assert s[i..][1..] == s[i + 1..];
      i := i + 1;
    }
  }

  /** A token contributes what strtoul reads from it, then the list from
      the next comma on. */
  lemma TokenStep(t: string)
    requires t != [] && t[0] != ' ' && t[0] != ','
    ensures StrToUL(t).None? ==> ListOps(t) == ListOps(FromComma(t))
    ensures StrToUL(t).Some? ==>
      ListOps(t) == [Wrap32(StrToUL(t).value.value)] + ListOps(FromComma(t[StrToUL(t).value.end..]))
  {
  }

  /** A separator is skipped. */
  lemma ListOpsSeparator(t: string)
    requires t != [] && (t[0] == ' ' || t[0] == ',')
    ensures ListOps(t) == ListOps(t[1..])
  {
  }

  /** `while (*s && *s != ',') s++;` */
  method SkipToComma(s: string, i0: nat) returns (i: nat)
    requires i0 <= |s|
    ensures i0 <= i <= |s| && s[i..] == FromComma(s[i0..])
  {
    i := i0;
    while i < |s| && s[i] != ','
      invariant i0 <= i <= |s|
      invariant FromComma(s[i..]) == FromComma(s[i0..])
    {
      assert s[i..][1..] == s[i + 1..];
      i := i + 1;
    }
  }

  /** aiir_policy_allow_op: every op when allow_all_ops is set, otherwise
      exactly the listed ones. */
  method AllowOp(p: AiirPolicy, opId: u32) returns (r: bool)
    ensures r <==> p.allowAllOps || opId in p.allowOps
  {
    if p.allowAllOps {
      return true;
    }
    var i := 0;
    while i < |p.allowOps|
      invariant 0 <= i <= |p.allowOps|
      invariant opId !in p.allowOps[..i]
    {
      if p.allowOps[i] == opId {
        return true;
      }
      assert p.allowOps[..i + 1] == p.allowOps[..i] + [p.allowOps[i]];
      i := i + 1;
    }
    assert p.allowOps[..i] == p.allowOps;
    return false;
  }
}
