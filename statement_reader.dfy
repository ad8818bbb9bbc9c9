/**
 * Readers for the text print produces: the record's frame (name, kind and
 * braces) and the statements print_param, print_patch, print_other and
 * print_resources render. The record's own text parser is not implemented;
 * these readers state the grammar the printers produce and prove that
 * reading a printed record recovers what it means (kind, operands,
 * operator, flag, patch variable, GRF label, GRM operator, feature, number),
 * so the rendering loses nothing a parser needs.
 */
module StatementReader {
  import opened Wrappers
  import opened Text
  import opened Action0D
  import opened Action0DText

  predicate IsDelimiter(c: char)
  {
    c == ' ' || c == ';' || c == ',' || c == '\n'
  }

  predicate NoDelimiter(s: string)
  {
    forall k :: 0 <= k < |s| ==> !IsDelimiter(s[k])
  }

  /** Splits off the longest prefix of `s` that holds no delimiter. */
  function TakeWord(s: string): (r: (string, string))
    ensures r.0 + r.1 == s && NoDelimiter(r.0)
    ensures r.1 != [] ==> IsDelimiter(r.1[0])
  {
    if s == [] || IsDelimiter(s[0]) then ([], s)
    else
      var (w, rest) := TakeWord(s[1..]);
      assert [s[0]] + w + rest == s;
      ([s[0]] + w, rest)
  }

  /** A word is taken whole when a delimiter or the end of the text follows it. */
  lemma {:induction false} TakeWordOf(w: string, rest: string)
    requires NoDelimiter(w)
    requires rest == [] || IsDelimiter(rest[0])
    ensures TakeWord(w + rest) == (w, rest)
  {
    if w == [] {
      assert w + rest == rest;
    } else {
      assert (w + rest)[1..] == w[1..] + rest;
      TakeWordOf(w[1..], rest);
      assert [w[0]] + w[1..] == w;
    }
  }

  lemma NoDelimiterConcat(a: string, b: string)
    requires NoDelimiter(a) && NoDelimiter(b)
    ensures NoDelimiter(a + b)
  {
  }

  /** Reads one rendered operand reference, accepting only the canonical forms. */
  function ReadOperand(w: string): Option<Operand>
  {
    match DropPrefix(w, "global_var[")
    case Some(inner) =>
      if |inner| > 0 && inner[|inner| - 1] == ']' then
        var v :- ReadHex(inner[..|inner| - 1], 2);
        Pow16Values();
        if 0x80 <= v < 0xFF then Some(GlobalVar(v as bv8)) else None
      else None
    case None =>
      match DropPrefix(w, "parameter[")
      case Some(inner) =>
        if |inner| > 0 && inner[|inner| - 1] == ']' then
          var v :- ReadHex(inner[..|inner| - 1], 2);
          if v < 0x80 then Some(Parameter(v as bv8)) else None
        else None
      case None =>
        var v :- ReadHex(w, 8);
        Pow16Values();
        Some(Literal(v as bv32))
  }

  lemma HexHasNoDelimiter(v: nat, width: nat)
    ensures NoDelimiter(Hex(v, width))
  {
    var s := Hex(v, width);
    forall k | 0 <= k < |s|
      ensures !IsDelimiter(s[k])
    {
      if k >= 2 {
        assert s[k] == HexDigits(v, width)[k - 2];
      }
    }
  }

  lemma ReadLiteralOperand(data: bv32)
    ensures NoDelimiter(Hex32(data))
    ensures ReadOperand(Hex32(data)) == Some(Literal(data))
  {
    Pow16Values();
    var s := Hex32(data);
    HexHasNoDelimiter(data as nat, 8);
    assert DropPrefix(s, "global_var[").None? by { assert s[0] == '0'; }
    assert DropPrefix(s, "parameter[").None? by { assert s[0] == '0'; }
    ReadHexOfHex(data as nat, 8);
    assert ReadHex(s, 8) == Some(data as nat);
    assert (data as nat) as bv32 == data;
  }

  /** A bracketed reference `prefix` + `h` + `]` gives back `h` once the prefix and bracket are dropped. */
  lemma DropBracketed(prefix: string, h: string)
    ensures DropPrefix(prefix + h + "]", prefix) == Some(h + "]")
    ensures |h + "]"| > 0 && (h + "]")[|h|] == ']' && (h + "]")[..|h|] == h
  {
    assert (prefix + h + "]")[..|prefix|] == prefix;
    assert (prefix + h + "]")[|prefix|..] == h + "]";
  }

  /** The hex digits of a byte reference hold no delimiter, and read back as the byte. */
  lemma ByteReference(prefix: string, param: bv8)
    requires NoDelimiter(prefix)
    ensures NoDelimiter(prefix + Hex8(param) + "]")
    ensures ReadHex(Hex8(param), 2) == Some(param as nat)
  {
    Pow16Values();
    HexHasNoDelimiter(param as nat, 2);
    ReadHexOfHex(param as nat, 2);
    assert NoDelimiter("]");
    NoDelimiterConcat(prefix, Hex8(param));
    NoDelimiterConcat(prefix + Hex8(param), "]");
  }

  lemma ReadGlobalVarOperand(param: bv8)
    requires param & 0x80 != 0 && param != 0xFF
    ensures NoDelimiter("global_var[" + Hex8(param) + "]")
    ensures ReadOperand("global_var[" + Hex8(param) + "]") == Some(GlobalVar(param))
  {
    assert NoDelimiter("global_var[");
    ByteReference("global_var[", param);
    DropBracketed("global_var[", Hex8(param));
    assert 0x80 <= param as nat < 0xFF;
  }

  lemma ReadParameterOperand(param: bv8)
    requires param & 0x80 == 0
    ensures NoDelimiter("parameter[" + Hex8(param) + "]")
    ensures ReadOperand("parameter[" + Hex8(param) + "]") == Some(Parameter(param))
  {
    var s := "parameter[" + Hex8(param) + "]";
    assert NoDelimiter("parameter[");
    ByteReference("parameter[", param);
    DropBracketed("parameter[", Hex8(param));
    assert DropPrefix(s, "global_var[").None? by { assert s[0] == 'p'; }
    assert param as nat < 0x80;
  }

  /** Every operand reference reads back as the operand it renders, and holds no delimiter. */
  lemma ReadOperandOf(param: bv8, data: bv32)
    ensures NoDelimiter(ParamDescription(param, data))
    ensures ReadOperand(ParamDescription(param, data)) == Some(OperandOf(param, data))
  {
    if param == 0xFF {
      ReadLiteralOperand(data);
    } else if param & 0x80 != 0 {
      ReadGlobalVarOperand(param);
    } else {
      ReadParameterOperand(param);
    }
  }

  /** The operand is the operand byte itself, except that 0xFF stands for the data word. */
  lemma OperandOfInjective(p1: bv8, d1: bv32, p2: bv8, d2: bv32)
    requires OperandOf(p1, d1) == OperandOf(p2, d2)
    ensures p1 == p2
    ensures p1 == 0xFF ==> d1 == d2
  {
  }

  /** Reads the optional `, unsigned` or `, signed` marker. */
  function ReadSuffix(s: string): (Signedness, string)
  {
    match DropPrefix(s, ", unsigned")
    case Some(rest) => (Unsigned, rest)
    case None =>
      match DropPrefix(s, ", signed")
      case Some(rest) => (Signed, rest)
      case None => (NoSign, s)
  }

  datatype Operation = Operation(operator: Operator, source2: Option<Operand>, rest: string)

  /** Reads what follows the first source operand, up to (not including) the closing `;`. */
  function ReadOperation(s: string): Option<Operation>
  {
    if DropPrefix(s, ";").Some? then Some(Operation(Assignment, None, s))
    else
      var s1 :- DropPrefix(s, " ");
      var (token, s2) := TakeWord(s1);
      var s3 :- DropPrefix(s2, " ");
      var (w, s4) := TakeWord(s3);
      var source2 :- ReadOperand(w);
      var (sign, s5) := ReadSuffix(s4);
      var op :- OperatorFromToken(token, sign);
      Some(Operation(op, Some(source2), s5))
  }

  /** Reads the boolean descriptor's statement, which must end the text. */
  function ReadBool(s: string, name: string, indent: nat): Option<bool>
  {
    var rest :- DropPrefix(s, Pad(indent) + name + ": ");
    if rest == "true;\n" then Some(true)
    else if rest == "false;\n" then Some(false)
    else None
  }

  /** The meaning of a Param statement. */
  datatype ParamView = ParamView(
    target: Operand,
    source1: Operand,
    operator: Operator,
    source2: Option<Operand>,
    notIfDefined: bool)

  /** What a Param record with a known operator means; source2 takes no part in an Assignment. */
  function ViewOf(r: Action0D): ParamView
    requires OperatorOf(r.operation).Some?
  {
    var op := OperatorOf(r.operation).value;
    ParamView(
      OperandOf(r.target, r.data),
      OperandOf(r.source1, r.data),
      op,
      if op == Assignment then None else Some(OperandOf(r.source2, r.data)),
      r.notIfDefined)
  }

  /** Reads a whole rendered Param statement: the expression and the not_if_defined statement. */
  function ReadParamStatement(s: string, indent: nat): Option<ParamView>
  {
    var s1 :- DropPrefix(s, Pad(indent) + "expression: ");
    var (w1, s2) := TakeWord(s1);
    var target :- ReadOperand(w1);
    var s3 :- DropPrefix(s2, " = ");
    var rhs :- ReadRightHandSide(s3, indent);
    Some(ParamView(target, rhs.source1, rhs.operator, rhs.source2, rhs.notIfDefined))
  }

  datatype RightHandSide = RightHandSide(
    source1: Operand,
    operator: Operator,
    source2: Option<Operand>,
    notIfDefined: bool)

  /** Reads what follows ` = `: the first source, the operation and the rest of the statement. */
  function ReadRightHandSide(s: string, indent: nat): Option<RightHandSide>
  {
    var (w, rest) := TakeWord(s);
    var source1 :- ReadOperand(w);
    var tail :- ReadStatementTail(rest, indent);
    Some(RightHandSide(source1, tail.0.operator, tail.0.source2, tail.1))
  }

  /** Reads the operation, the closing `;` and the not_if_defined statement. */
  function ReadStatementTail(s: string, indent: nat): Option<(Operation, bool)>
  {
    var operation :- ReadOperation(s);
    var rest :- DropPrefix(operation.rest, ";\n");
    var flag :- ReadBool(rest, "not_if_defined", indent);
    Some((operation, flag))
  }

  lemma ReadSuffixOf(operation: bv8, rest: string)
    requires OperatorOf(operation).Some?
    requires |rest| > 0 && rest[0] == ';'
    ensures ReadSuffix(SignSuffix(operation) + rest) == (SignednessOf(OperatorOf(operation).value), rest)
  {
    var s := SignSuffix(operation) + rest;
    match SignednessOf(OperatorOf(operation).value)
    case Unsigned =>
      assert DropPrefix(s, ", unsigned") == Some(rest);
    case Signed =>
      assert DropPrefix(s, ", unsigned").None? by { assert s[2] == 's'; }
      assert DropPrefix(s, ", signed") == Some(rest);
    case NoSign =>
      assert s == rest;
      assert DropPrefix(s, ", unsigned").None? by { assert s[0] == ';'; }
      assert DropPrefix(s, ", signed").None? by { assert s[0] == ';'; }
  }

  lemma ShortOpHasNoDelimiter(operation: bv8)
    ensures NoDelimiter(ShortOp(operation))
  {
  }

  /** The reading of ` <token> <operand><suffix>` in terms of its pieces. */
  lemma ReadInfixOperation(token: string, d: string, suffix: string, rest: string,
                           sign: Signedness, op: Operator, operand: Operand)
    requires NoDelimiter(token) && NoDelimiter(d) && ReadOperand(d) == Some(operand)
    requires |rest| > 0 && rest[0] == ';' && (suffix == [] || suffix[0] == ',')
    requires ReadSuffix(suffix + rest) == (sign, rest)
    requires OperatorFromToken(token, sign) == Some(op)
    ensures ReadOperation(" " + (token + (" " + (d + (suffix + rest))))) == Some(Operation(op, Some(operand), rest))
  {
    var s := " " + (token + (" " + (d + (suffix + rest))));
    assert DropPrefix(s, ";").None? by { assert s[0] == ' '; }
    assert DropPrefix(s, " ") == Some(token + (" " + (d + (suffix + rest))));
    TakeWordOf(token, " " + (d + (suffix + rest)));
    assert DropPrefix(" " + (d + (suffix + rest)), " ") == Some(d + (suffix + rest));
    assert IsDelimiter((suffix + rest)[0]);
    TakeWordOf(d, suffix + rest);
  }

  lemma SignSuffixStartsWithComma(operation: bv8)
    ensures SignSuffix(operation) == [] || SignSuffix(operation)[0] == ','
  {
  }

  lemma Regroup5(a: string, b: string, c: string, d: string, e: string, f: string)
    ensures a + b + c + d + e + f == a + (b + (c + (d + (e + f))))
  {
  }

  lemma ReadOperationOf(r: Action0D, rest: string)
    requires OperatorOf(r.operation).Some?
    requires |rest| > 0 && rest[0] == ';'
    ensures ReadOperation(OperationText(r) + rest)
            == Some(Operation(ViewOf(r).operator, ViewOf(r).source2, rest))
  {
    var op := OperatorOf(r.operation).value;
    if r.operation == 0x00 {
      assert OperationText(r) + rest == rest;
      assert DropPrefix(rest, ";") == Some(rest[1..]);
    } else {
      var token := ShortOp(r.operation);
      var d := ParamDescription(r.source2, r.data);
      var suffix := SignSuffix(r.operation);
      Regroup5(" ", token, " ", d, suffix, rest);
      ShortOpHasNoDelimiter(r.operation);
      ReadOperandOf(r.source2, r.data);
      ReadSuffixOf(r.operation, rest);
      SignSuffixStartsWithComma(r.operation);
      OperatorTokenRoundTrip(op);
      ReadInfixOperation(token, d, suffix, rest, SignednessOf(op), op, OperandOf(r.source2, r.data));
    }
  }

  lemma ReadBoolOf(name: string, value: bool, indent: nat)
    ensures ReadBool(PrintBool(name, value, indent), name, indent) == Some(value)
  {
    var p := Pad(indent) + name + ": ";
    var v := if value then "true" else "false";
    assert PrintBool(name, value, indent) == p + (v + ";\n");
    assert DropPrefix(PrintBool(name, value, indent), p) == Some(v + ";\n");
  }

  /** The reading of a whole statement in terms of its pieces. */
  lemma ReadStatement(indent: nat, dt: string, rhsText: string, target: Operand, rhs: RightHandSide)
    requires NoDelimiter(dt) && ReadOperand(dt) == Some(target)
    requires ReadRightHandSide(rhsText, indent) == Some(rhs)
    ensures ReadParamStatement(Pad(indent) + "expression: " + (dt + (" = " + rhsText)), indent)
            == Some(ParamView(target, rhs.source1, rhs.operator, rhs.source2, rhs.notIfDefined))
  {
    var lead := Pad(indent) + "expression: ";
    assert DropPrefix(lead + (dt + (" = " + rhsText)), lead) == Some(dt + (" = " + rhsText));
    TakeWordOf(dt, " = " + rhsText);
    assert DropPrefix(" = " + rhsText, " = ") == Some(rhsText);
  }

  /**
   * Reading what print_param renders gives back the record's meaning: both
   * operands and the target, the operator (including its signedness), the
   * second operand unless the operator is Assignment, and the flag.
   */
  lemma ReadPrintParam(r: Action0D, indent: nat)
    requires OperatorOf(r.operation).Some?
    ensures ReadParamStatement(PrintParam(r, indent), indent) == Some(ViewOf(r))
  {
    var dt := ParamDescription(r.target, r.data);
    var rhsText := ParamDescription(r.source1, r.data)
                   + (OperationText(r) + (";\n" + PrintBool("not_if_defined", r.notIfDefined, indent)));
    PrintParamPieces(r, indent);
    ReadOperandOf(r.target, r.data);
    ReadRightHandSideOf(r, indent);
    ReadStatement(indent, dt, rhsText, OperandOf(r.target, r.data),
                  RightHandSide(ViewOf(r).source1, ViewOf(r).operator, ViewOf(r).source2, r.notIfDefined));
  }

  /** print_param's text regrouped as the reader consumes it. */
  lemma PrintParamPieces(r: Action0D, indent: nat)
    ensures PrintParam(r, indent)
            == Pad(indent) + "expression: "
               + (ParamDescription(r.target, r.data)
                  + (" = " + (ParamDescription(r.source1, r.data)
                              + (OperationText(r) + (";\n" + PrintBool("not_if_defined", r.notIfDefined, indent))))))
  {
    var lead := Pad(indent) + "expression: ";
    var dt := ParamDescription(r.target, r.data);
    var d1 := ParamDescription(r.source1, r.data);
    var ot := OperationText(r);
    var b := PrintBool("not_if_defined", r.notIfDefined, indent);
    assert PrintParam(r, indent) == lead + dt + " = " + d1 + ot + ";\n" + b;
    Regroup(lead, dt, " = ", d1, ot, ";\n", b);
  }

  lemma Regroup(a: string, b: string, c: string, d: string, e: string, f: string, g: string)
    ensures a + b + c + d + e + f + g == a + (b + (c + (d + (e + (f + g)))))
  {
  }

  lemma ReadRightHandSideOf(r: Action0D, indent: nat)
    requires OperatorOf(r.operation).Some?
    ensures var tail := ";\n" + PrintBool("not_if_defined", r.notIfDefined, indent);
            ReadRightHandSide(ParamDescription(r.source1, r.data) + (OperationText(r) + tail), indent)
            == Some(RightHandSide(ViewOf(r).source1, ViewOf(r).operator, ViewOf(r).source2, r.notIfDefined))
  {
    var d1 := ParamDescription(r.source1, r.data);
    var ot := OperationText(r);
    var tail := ";\n" + PrintBool("not_if_defined", r.notIfDefined, indent);
    ReadOperandOf(r.source1, r.data);
    assert ot + tail != [] && IsDelimiter((ot + tail)[0]);
    TakeWordOf(d1, ot + tail);
    ReadStatementTailOf(r, indent);
  }

  lemma ReadStatementTailOf(r: Action0D, indent: nat)
    requires OperatorOf(r.operation).Some?
    ensures var b := PrintBool("not_if_defined", r.notIfDefined, indent);
            ReadStatementTail(OperationText(r) + (";\n" + b), indent)
            == Some((Operation(ViewOf(r).operator, ViewOf(r).source2, ";\n" + b), r.notIfDefined))
  {
    var b := PrintBool("not_if_defined", r.notIfDefined, indent);
    ReadOperationOf(r, ";\n" + b);
    assert DropPrefix(";\n" + b, ";\n") == Some(b);
    ReadBoolOf("not_if_defined", r.notIfDefined, indent);
  }

  /**
   * print_param is injective on meanings: two Param records with known
   * operators that print the same statement have the same operator, flag,
   * target and first source (the data word standing in for 0xFF), and the
   * same second source unless the operator is Assignment.
   */
  lemma PrintParamInjective(r1: Action0D, r2: Action0D, indent: nat)
    requires OperatorOf(r1.operation).Some? && OperatorOf(r2.operation).Some?
    requires PrintParam(r1, indent) == PrintParam(r2, indent)
    ensures r1.operation == r2.operation && r1.notIfDefined == r2.notIfDefined
    ensures r1.target == r2.target && r1.source1 == r2.source1
    ensures r1.operation != 0x00 ==> r1.source2 == r2.source2
  {
    ReadPrintParam(r1, indent);
    ReadPrintParam(r2, indent);
    assert ViewOf(r1) == ViewOf(r2);
    OperandOfInjective(r1.target, r1.data, r2.target, r2.data);
    OperandOfInjective(r1.source1, r1.data, r2.source1, r2.data);
    if r1.operation != 0x00 {
      OperandOfInjective(r1.source2, r1.data, r2.source2, r2.data);
    }
  }

  /** Reads print_patch's statement: the target and the patch variable number. */
  function ReadPatchStatement(s: string, indent: nat): Option<(Operand, nat)>
  {
    var s1 :- DropPrefix(s, Pad(indent) + "expression: ");
    var (w, s2) := TakeWord(s1);
    var target :- ReadOperand(w);
    var s3 :- DropPrefix(s2, " = patch_var[");
    if |s3| < 4 then None
    else
      var v :- ReadHex(s3[..4], 2);
      if s3[4..] == "];\n" then Some((target, v)) else None
  }

  lemma PrintPatchPieces(r: Action0D, indent: nat)
    ensures PrintPatch(r, indent)
            == Pad(indent) + "expression: "
               + (ParamDescription(r.target, r.data) + (" = patch_var[" + (Hex8(r.source1) + "];\n")))
  {
    var lead := Pad(indent) + "expression: ";
    var dt := ParamDescription(r.target, r.data);
    var h := Hex8(r.source1);
    assert " = " + "patch_var[" == " = patch_var[";
    assert PrintPatch(r, indent) == lead + dt + " = " + "patch_var[" + h + "];\n";
  }

  /** Reading what print_patch renders gives back the target and the patch variable. */
  lemma ReadPrintPatch(r: Action0D, indent: nat)
    ensures ReadPatchStatement(PrintPatch(r, indent), indent) == Some((OperandOf(r.target, r.data), r.source1 as nat))
  {
    var lead := Pad(indent) + "expression: ";
    var dt := ParamDescription(r.target, r.data);
    var h := Hex8(r.source1);
    var tail := h + "];\n";
    PrintPatchPieces(r, indent);
    DropPrefixOf(lead, dt + (" = patch_var[" + tail));
    ReadOperandOf(r.target, r.data);
    TakeWordOf(dt, " = patch_var[" + tail);
    DropPrefixOf(" = patch_var[", tail);
    assert tail[..4] == h && tail[4..] == "];\n";
    Pow16Values();
    ReadHexOfHex(r.source1 as nat, 2);
  }

  /** Two records that print the same patch statement assign the same patch variable to the same target. */
  lemma PrintPatchInjective(r1: Action0D, r2: Action0D, indent: nat)
    requires PrintPatch(r1, indent) == PrintPatch(r2, indent)
    ensures r1.target == r2.target && r1.source1 == r2.source1
  {
    ReadPrintPatch(r1, indent);
    ReadPrintPatch(r2, indent);
    OperandOfInjective(r1.target, r1.data, r2.target, r2.data);
  }

  /** Splits off the text before the first occurrence of `stop`. */
  function TakeUntil(s: string, stop: char): (r: (string, string))
    ensures r.0 + r.1 == s && stop !in r.0
    ensures r.1 != [] ==> r.1[0] == stop
  {
    if s == [] || s[0] == stop then ([], s)
    else
      var (name, rest) := TakeUntil(s[1..], stop);
      assert [s[0]] + name + rest == s;
      ([s[0]] + name, rest)
  }

  /** A text without `stop` is taken whole when `stop` follows it. */
  lemma {:induction false} TakeUntilOf(name: string, stop: char, rest: string)
    requires stop !in name
    requires rest == [] || rest[0] == stop
    ensures TakeUntil(name + rest, stop) == (name, rest)
  {
    if name == [] {
      assert name + rest == rest;
    } else {
      assert (name + rest)[1..] == name[1..] + rest;
      assert name[0] in name;
      TakeUntilOf(name[1..], stop, rest);
      assert [name[0]] + name[1..] == name;
    }
  }

  /** Reads print_other's statement: the target, the other GRF's label and its parameter. */
  function ReadOtherStatement(s: string, indent: nat): Option<(Operand, string, Operand)>
  {
    var s1 :- DropPrefix(s, Pad(indent) + "expression: ");
    var (w, s2) := TakeWord(s1);
    var target :- ReadOperand(w);
    var s3 :- DropPrefix(s2, " = <\"");
    var (name, s4) := TakeUntil(s3, '"');
    var s5 :- DropPrefix(s4, "\">");
    var (w1, s6) := TakeWord(s5);
    var source1 :- ReadOperand(w1);
    if s6 == ";\n" then Some((target, name, source1)) else None
  }

  lemma PrintOtherPieces(r: Action0D, grfId: string, indent: nat)
    ensures PrintOther(r, grfId, indent)
            == Pad(indent) + "expression: "
               + (ParamDescription(r.target, r.data)
                  + (" = <\"" + (grfId + ("\">" + (ParamDescription(r.source1, r.data) + ";\n")))))
  {
    var lead := Pad(indent) + "expression: ";
    var dt := ParamDescription(r.target, r.data);
    var d1 := ParamDescription(r.source1, r.data);
    Regroup9(Pad(indent), "expression: ", dt, " = ", "<\"", grfId, "\">", d1, ";\n");
    assert " = " + "<\"" == " = <\"";
  }

  lemma Regroup9(a: string, b: string, c: string, d: string, e: string, f: string, g: string, h: string, i: string)
    ensures a + b + c + d + e + f + g + h + i == a + b + (c + ((d + e) + (f + (g + (h + i)))))
  {
  }

  /**
   * Reading what print_other renders gives back the target, the GRF label
   * and the other GRF's parameter, provided the label holds no double quote.
   */
  lemma ReadPrintOther(r: Action0D, grfId: string, indent: nat)
    requires '"' !in grfId
    ensures ReadOtherStatement(PrintOther(r, grfId, indent), indent)
            == Some((OperandOf(r.target, r.data), grfId, OperandOf(r.source1, r.data)))
  {
    var lead := Pad(indent) + "expression: ";
    var dt := ParamDescription(r.target, r.data);
    var d1 := ParamDescription(r.source1, r.data);
    var afterLabel := "\">" + (d1 + ";\n");
    PrintOtherPieces(r, grfId, indent);
    DropPrefixOf(lead, dt + (" = <\"" + (grfId + afterLabel)));
    ReadOperandOf(r.target, r.data);
    TakeWordOf(dt, " = <\"" + (grfId + afterLabel));
    DropPrefixOf(" = <\"", grfId + afterLabel);
    TakeUntilOf(grfId, '"', afterLabel);
    DropPrefixOf("\">", d1 + ";\n");
    ReadOperandOf(r.source1, r.data);
    TakeWordOf(d1, ";\n");
  }

  /** Two records that print the same OtherGRF statement name the same GRF, target and parameter. */
  lemma PrintOtherInjective(r1: Action0D, g1: string, r2: Action0D, g2: string, indent: nat)
    requires '"' !in g1 && '"' !in g2
    requires PrintOther(r1, g1, indent) == PrintOther(r2, g2, indent)
    ensures g1 == g2 && r1.target == r2.target && r1.source1 == r2.source1
  {
    ReadPrintOther(r1, g1, indent);
    ReadPrintOther(r2, g2, indent);
    OperandOfInjective(r1.target, r1.data, r2.target, r2.data);
    OperandOfInjective(r1.source1, r1.data, r2.source1, r2.data);
  }

  /** The GRM enum table read backwards: the operator a printed name stands for. */
  function GrmOperatorFromName(name: string): (r: Option<GrmOperator>)
    ensures r.Some? ==> GrmOperatorName(r.value) == name
  {
    if name == "GRM_Reserve" then Some(GrmReserve)
    else if name == "GRM_Find" then Some(GrmFind)
    else if name == "GRM_Check" then Some(GrmCheck)
    else if name == "GRM_Mark" then Some(GrmMark)
    else if name == "GRM_FindNoFail" then Some(GrmFindNoFail)
    else if name == "GRM_CheckNoFail" then Some(GrmCheckNoFail)
    else if name == "GRM_GetOwner" then Some(GrmGetOwner)
    else None
  }

  /** Every GRM name is read back as its operator, and none holds an opening parenthesis. */
  lemma GrmOperatorNameReadsBack(g: GrmOperator)
    ensures GrmOperatorFromName(GrmOperatorName(g)) == Some(g)
    ensures '(' !in GrmOperatorName(g)
  {
  }

  /** Reads print_resources' statement: the target, the GRM operator, the feature name and the number. */
  function ReadResourcesStatement(s: string, indent: nat): Option<(Operand, GrmOperator, string, nat)>
  {
    var s1 :- DropPrefix(s, Pad(indent) + "expression: ");
    var (w, s2) := TakeWord(s1);
    var target :- ReadOperand(w);
    var s3 :- DropPrefix(s2, " = ");
    var (name, s4) := TakeUntil(s3, '(');
    var g :- GrmOperatorFromName(name);
    var s5 :- DropPrefix(s4, "(");
    var (feature, s6) := TakeUntil(s5, ',');
    var s7 :- DropPrefix(s6, ", ");
    if |s7| < 6 then None
    else
      var v :- ReadHex(s7[..6], 4);
      if s7[6..] == ");\n" then Some((target, g, feature, v)) else None
  }

  lemma PrintResourcesPieces(r: Action0D, featureName: string, number: bv16, indent: nat)
    requires r.source1 <= 0x06
    ensures PrintResources(r, featureName, number, indent).Success?
    ensures PrintResources(r, featureName, number, indent).value
            == Pad(indent) + "expression: "
               + (ParamDescription(r.target, r.data)
                  + ((" = " + GrmOperatorName(GrmOperatorOf(r.source1).value))
                     + ("(" + (featureName + (", " + (Hex16(number) + ");\n"))))))
  {
    var g := GrmOperatorName(GrmOperatorOf(r.source1).value);
    var x := Pad(indent) + "expression: " + ParamDescription(r.target, r.data) + " = " + g + "(" + featureName + ", ";
    assert x + Hex16(number) + ");\n" == x + (Hex16(number) + ");\n");
    Regroup9(Pad(indent), "expression: ", ParamDescription(r.target, r.data), " = ", g,
             "(", featureName, ", ", Hex16(number) + ");\n");
  }

  /** The Resources statement's grammar, read over any well-formed target text. */
  lemma ReadResourcesOf(indent: nat, dt: string, target: Operand, g: GrmOperator, feature: string, number: bv16)
    requires NoDelimiter(dt) && ReadOperand(dt) == Some(target) && ',' !in feature
    ensures ReadResourcesStatement(Pad(indent) + "expression: "
                                     + (dt + ((" = " + GrmOperatorName(g))
                                              + ("(" + (feature + (", " + (Hex16(number) + ");\n")))))),
                                   indent)
            == Some((target, g, feature, number as nat))
  {
    var lead := Pad(indent) + "expression: ";
    var h := Hex16(number);
    var afterFeature := ", " + (h + ");\n");
    var afterName := "(" + (feature + afterFeature);
    var name := GrmOperatorName(g);
    assert (" = " + name) + afterName == " = " + (name + afterName);
    DropPrefixOf(lead, dt + (" = " + (name + afterName)));
    TakeWordOf(dt, " = " + (name + afterName));
    DropPrefixOf(" = ", name + afterName);
    GrmOperatorNameReadsBack(g);
    TakeUntilOf(name, '(', afterName);
    DropPrefixOf("(", feature + afterFeature);
    TakeUntilOf(feature, ',', afterFeature);
    DropPrefixOf(", ", h + ");\n");
    assert (h + ");\n")[..6] == h && (h + ");\n")[6..] == ");\n";
    Pow16Values();
    ReadHexOfHex(number as nat, 4);
  }

  /**
   * Reading what print_resources renders gives back the target, the GRM
   * operator source1 names, the feature name and the number, provided the
   * feature name holds no comma.
   */
  lemma ReadPrintResources(r: Action0D, featureName: string, number: bv16, indent: nat)
    requires r.source1 <= 0x06 && ',' !in featureName
    ensures PrintResources(r, featureName, number, indent).Success?
    ensures ReadResourcesStatement(PrintResources(r, featureName, number, indent).value, indent)
            == Some((OperandOf(r.target, r.data), GrmOperatorOf(r.source1).value, featureName, number as nat))
  {
    PrintResourcesPieces(r, featureName, number, indent);
    ReadOperandOf(r.target, r.data);
    ReadResourcesOf(indent, ParamDescription(r.target, r.data), OperandOf(r.target, r.data),
                    GrmOperatorOf(r.source1).value, featureName, number);
  }

  /** Two records that print the same Resources statement agree on target, GRM operator, feature and number. */
  lemma PrintResourcesInjective(r1: Action0D, f1: string, n1: bv16, r2: Action0D, f2: string, n2: bv16, indent: nat)
    requires r1.source1 <= 0x06 && ',' !in f1
    requires r2.source1 <= 0x06 && ',' !in f2
    requires PrintResources(r1, f1, n1, indent) == PrintResources(r2, f2, n2, indent)
    ensures r1.target == r2.target && r1.source1 == r2.source1 && f1 == f2 && n1 == n2
  {
    ReadPrintResources(r1, f1, n1, indent);
    ReadPrintResources(r2, f2, n2, indent);
    var t1 := ReadResourcesStatement(PrintResources(r1, f1, n1, indent).value, indent).value;
    var t2 := ReadResourcesStatement(PrintResources(r2, f2, n2, indent).value, indent).value;
    assert t1 == t2;
    OperandOfInjective(r1.target, r1.data, r2.target, r2.data);
    assert GrmOperatorCode(t1.1) == r1.source1 && GrmOperatorCode(t2.1) == r2.source1;
    assert n1 as nat == n2 as nat;
    assert n1 == (n1 as nat) as bv16 && n2 == (n2 as nat) as bv16;
  }

  /** The type enum table read backwards. */
  function KindFromName(name: string): (r: Option<Kind>)
    ensures r.Some? ==> KindName(r.value) == name
  {
    if name == "Param" then Some(Param)
    else if name == "Patch" then Some(Patch)
    else if name == "Resources" then Some(Resources)
    else if name == "OtherGRF" then Some(OtherGrf)
    else None
  }

  lemma KindNameReadsBack(k: Kind)
    ensures KindFromName(KindName(k)) == Some(k)
    ensures '>' !in KindName(k)
  {
  }

  /**
   * Reads the frame print puts around the statements: the record name with
   * the kind in angle brackets, the opening brace, and the closing brace at
   * the record's indent. Gives back the kind and the text in between.
   */
  function ReadRecord(s: string, recordName: string, indent: nat): Option<(Kind, string)>
  {
    var s1 :- DropPrefix(s, Pad(indent) + recordName + "<");
    var (name, s2) := TakeUntil(s1, '>');
    var k :- KindFromName(name);
    var s3 :- DropPrefix(s2, ">" + " // Action0D\n" + Pad(indent) + "{\n");
    var close := Pad(indent) + "}\n";
    if |s3| >= |close| && s3[|s3| - |close|..] == close then Some((k, s3[..|s3| - |close|])) else None
  }

  lemma HeaderPieces(recordName: string, k: Kind, indent: nat)
    ensures Header(recordName, k, indent)
            == Pad(indent) + recordName + "<" + (KindName(k) + (">" + " // Action0D\n" + Pad(indent) + "{\n"))
  {
    RegroupHeader(Pad(indent), recordName, "<", KindName(k), ">", " // Action0D\n", Pad(indent), "{\n");
  }

  lemma RegroupHeader(a: string, b: string, c: string, d: string, e: string, f: string, g: string, h: string)
    ensures a + b + c + d + e + f + g + h == a + b + c + (d + (e + f + g + h))
  {
  }

  lemma RegroupFrame(a: string, b: string, c: string, d: string, e: string)
    ensures (a + (b + c)) + d + e == a + (b + (c + (d + e)))
  {
  }

  /** Reading a printed record's frame gives back its derived kind and the kind's statements at indent + 4. */
  lemma ReadPrintedFrame(r: Action0D, x: Extras, recordName: string, featureName: bv8 -> string, indent: nat)
    requires Print(r, x, recordName, featureName, indent).Success?
    ensures ReadRecord(Print(r, x, recordName, featureName, indent).value, recordName, indent)
            == Some((KindOf(r), Body(r, x, featureName, indent + 4).value))
  {
    var lead := Pad(indent) + recordName + "<";
    var tail := ">" + " // Action0D\n" + Pad(indent) + "{\n";
    var b := Body(r, x, featureName, indent + 4).value;
    var close := Pad(indent) + "}\n";
    var name := KindName(KindOf(r));
    HeaderPieces(recordName, KindOf(r), indent);
    var s := Print(r, x, recordName, featureName, indent).value;
    assert s == (lead + (name + tail)) + b + close;
    RegroupFrame(lead, name, tail, b, close);
    DropPrefixOf(lead, name + (tail + (b + close)));
    KindNameReadsBack(KindOf(r));
    TakeUntilOf(name, '>', tail + (b + close));
    DropPrefixOf(tail, b + close);
    assert (b + close)[|b + close| - |close|..] == close;
    assert (b + close)[..|b + close| - |close|] == b;
  }

  /**
   * A printed record reads back as what it means: its kind, and then the
   * kind's statement read back as in the per-kind lemmas above.
   */
  lemma ReadPrintedRecord(r: Action0D, x: Extras, recordName: string, featureName: bv8 -> string, indent: nat)
    requires Print(r, x, recordName, featureName, indent).Success?
    ensures ReadRecord(Print(r, x, recordName, featureName, indent).value, recordName, indent).Some?
    ensures ReadRecord(Print(r, x, recordName, featureName, indent).value, recordName, indent).value.0 == KindOf(r)
    ensures KindOf(r) == Param && OperatorOf(r.operation).Some? ==>
              ReadParamStatement(ReadRecord(Print(r, x, recordName, featureName, indent).value, recordName, indent).value.1,
                                 indent + 4) == Some(ViewOf(r))
    ensures KindOf(r) == Patch ==>
              ReadPatchStatement(ReadRecord(Print(r, x, recordName, featureName, indent).value, recordName, indent).value.1,
                                 indent + 4) == Some((OperandOf(r.target, r.data), r.source1 as nat))
    ensures KindOf(r) == OtherGrf && '"' !in x.grfId ==>
              ReadOtherStatement(ReadRecord(Print(r, x, recordName, featureName, indent).value, recordName, indent).value.1,
                                 indent + 4) == Some((OperandOf(r.target, r.data), x.grfId, OperandOf(r.source1, r.data)))
    ensures KindOf(r) == Resources && ',' !in featureName(x.feature) ==>
              ReadResourcesStatement(ReadRecord(Print(r, x, recordName, featureName, indent).value, recordName, indent).value.1,
                                     indent + 4)
              == Some((OperandOf(r.target, r.data), GrmOperatorOf(r.source1).value, featureName(x.feature), x.number as nat))
  {
    ReadPrintedFrame(r, x, recordName, featureName, indent);
    match KindOf(r)
    case Param =>
      if OperatorOf(r.operation).Some? {
        ReadPrintParam(r, indent + 4);
      }
    case Patch =>
      ReadPrintPatch(r, indent + 4);
    case OtherGrf =>
      if '"' !in x.grfId {
        ReadPrintOther(r, x.grfId, indent + 4);
      }
    case Resources =>
      if ',' !in featureName(x.feature) {
        ReadPrintResources(r, featureName(x.feature), x.number, indent + 4);
      }
  }
}
