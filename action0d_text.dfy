/**
 * Text rendering of the indirect-parameter record: operand references,
 * the operator-token table, the signed/unsigned suffix and the four
 * per-kind statements. A reader of the rendered Param statement shows that
 * the rendering identifies the operands, the operator and the flag.
 */
module Action0DText {
  import opened Wrappers
  import opened Text
  import opened Action0D

  /** The type enum table: the name printed for each kind. */
  function KindName(k: Kind): string
  {
    match k
    case Param => "Param"
    case Patch => "Patch"
    case Resources => "Resources"
    case OtherGrf => "OtherGRF"
  }

  /** The operator enum table: the symbolic name of each operator. */
  function OperatorName(op: Operator): string
  {
    match op
    case Assignment => "Assignment"
    case Addition => "Addition"
    case Subtraction => "Subtraction"
    case MultiplyUnsigned => "MultiplyUnsigned"
    case MultiplySigned => "MultiplySigned"
    case BitShiftUnsigned => "BitShiftUnsigned"
    case BitShiftSigned => "BitShiftSigned"
    case BitwiseAnd => "BitwiseAND"
    case BitwiseOr => "BitwiseOR"
    case DivideUnsigned => "DivideUnsigned"
    case DivideSigned => "DivideSigned"
    case ModuloUnsigned => "ModuloUnsigned"
    case ModuloSigned => "ModuloSigned"
  }

  /** The GRM operator enum table. */
  function GrmOperatorName(g: GrmOperator): string
  {
    match g
    case GrmReserve => "GRM_Reserve"
    case GrmFind => "GRM_Find"
    case GrmCheck => "GRM_Check"
    case GrmMark => "GRM_Mark"
    case GrmFindNoFail => "GRM_FindNoFail"
    case GrmCheckNoFail => "GRM_CheckNoFail"
    case GrmGetOwner => "GRM_GetOwner"
  }

  /** The printed names identify the kind, the operator and the GRM operator. */
  lemma KindNameInjective(k1: Kind, k2: Kind)
    requires KindName(k1) == KindName(k2)
    ensures k1 == k2
  {
  }

  lemma OperatorNameInjective(op1: Operator, op2: Operator)
    requires OperatorName(op1) == OperatorName(op2)
    ensures op1 == op2
  {
  }

  lemma GrmOperatorNameInjective(g1: GrmOperator, g2: GrmOperator)
    requires GrmOperatorName(g1) == GrmOperatorName(g2)
    ensures g1 == g2
  {
  }

  /** short_op: the infix token of an operation code; "?" for a code outside the table. */
  function ShortOp(operation: bv8): (t: string)
    ensures t == "?" <==> OperatorOf(operation).None?
  {
    match OperatorOf(operation)
    case None => "?"
    case Some(op) =>
      match op
      case Assignment => "="
      case Addition => "+"
      case Subtraction => "-"
      case MultiplyUnsigned => "*"
      case MultiplySigned => "*"
      case BitShiftUnsigned => "<<"
      case BitShiftSigned => "<<"
      case BitwiseAnd => "&"
      case BitwiseOr => "|"
      case DivideUnsigned => "/"
      case DivideSigned => "/"
      case ModuloUnsigned => "%"
      case ModuloSigned => "%"
  }

  datatype Signedness = NoSign | Unsigned | Signed

  /** Which operators have an unsigned and a signed form. */
  function SignednessOf(op: Operator): Signedness
  {
    match op
    case MultiplyUnsigned => Unsigned
    case BitShiftUnsigned => Unsigned
    case DivideUnsigned => Unsigned
    case ModuloUnsigned => Unsigned
    case MultiplySigned => Signed
    case BitShiftSigned => Signed
    case DivideSigned => Signed
    case ModuloSigned => Signed
    case _ => NoSign
  }

  /** The suffix print_param appends after the second operand. */
  function SignSuffix(operation: bv8): (t: string)
    ensures t != "" <==> OperatorOf(operation).Some? && SignednessOf(OperatorOf(operation).value) != NoSign
  {
    match OperatorOf(operation)
    case None => ""
    case Some(op) =>
      match SignednessOf(op)
      case Unsigned => ", unsigned"
      case Signed => ", signed"
      case NoSign => ""
  }

  /**
   * The operator an infix token and a suffix stand for: the operator table
   * read backwards. Assignment is never written with an infix token.
   */
  function OperatorFromToken(token: string, sign: Signedness): (r: Option<Operator>)
    ensures r.Some? ==> r.value != Assignment
    ensures r.Some? ==> ShortOp(OperatorCode(r.value)) == token && SignednessOf(r.value) == sign
  {
    match (token, sign)
    case ("+", NoSign) => Some(Addition)
    case ("-", NoSign) => Some(Subtraction)
    case ("*", Unsigned) => Some(MultiplyUnsigned)
    case ("*", Signed) => Some(MultiplySigned)
    case ("<<", Unsigned) => Some(BitShiftUnsigned)
    case ("<<", Signed) => Some(BitShiftSigned)
    case ("&", NoSign) => Some(BitwiseAnd)
    case ("|", NoSign) => Some(BitwiseOr)
    case ("/", Unsigned) => Some(DivideUnsigned)
    case ("/", Signed) => Some(DivideSigned)
    case ("%", Unsigned) => Some(ModuloUnsigned)
    case ("%", Signed) => Some(ModuloSigned)
    case _ => None
  }

  /** Every operator but Assignment is identified by its infix token and its suffix. */
  lemma OperatorTokenRoundTrip(op: Operator)
    requires op != Assignment
    ensures OperatorFromToken(ShortOp(OperatorCode(op)), SignednessOf(op)) == Some(op)
  {
  }

  /** The two forms of each signed/unsigned pair share one infix token. */
  lemma SignedPairsShareToken()
    ensures ShortOp(OperatorCode(MultiplyUnsigned)) == ShortOp(OperatorCode(MultiplySigned)) == "*"
    ensures ShortOp(OperatorCode(BitShiftUnsigned)) == ShortOp(OperatorCode(BitShiftSigned)) == "<<"
    ensures ShortOp(OperatorCode(DivideUnsigned)) == ShortOp(OperatorCode(DivideSigned)) == "/"
    ensures ShortOp(OperatorCode(ModuloUnsigned)) == ShortOp(OperatorCode(ModuloSigned)) == "%"
  {
  }

  /** What an operand byte refers to: the data word (0xFF), a global variable (bit 7) or a parameter. */
  datatype Operand = Literal(value: bv32) | GlobalVar(index: bv8) | Parameter(index: bv8)

  function OperandOf(param: bv8, data: bv32): Operand
  {
    if param == 0xFF then Literal(data)
    else if param & 0x80 != 0 then GlobalVar(param)
    else Parameter(param)
  }

  /** param_description: how an operand byte is rendered. */
  function ParamDescription(param: bv8, data: bv32): string
  {
    if param == 0xFF then Hex32(data)
    else if param & 0x80 != 0 then "global_var[" + Hex8(param) + "]"
    else "parameter[" + Hex8(param) + "]"
  }

  /** The boolean descriptor's statement: `<name>: true;` or `<name>: false;`. */
  function PrintBool(name: string, value: bool, indent: nat): string
  {
    Pad(indent) + name + ": " + (if value then "true" else "false") + ";\n"
  }

  /** What follows the first source operand: nothing for Assignment, else the operator, source2 and suffix. */
  function OperationText(r: Action0D): string
  {
    if r.operation == 0x00 then ""
    else " " + ShortOp(r.operation) + " " + ParamDescription(r.source2, r.data) + SignSuffix(r.operation)
  }

  /** print_param: the expression statement followed by the not_if_defined statement. */
  function PrintParam(r: Action0D, indent: nat): string
  {
    Pad(indent) + "expression: " + ParamDescription(r.target, r.data) + " = "
      + ParamDescription(r.source1, r.data) + OperationText(r) + ";\n"
      + PrintBool("not_if_defined", r.notIfDefined, indent)
  }

  /** print_patch: the target is assigned an engine-internal patch variable. */
  function PrintPatch(r: Action0D, indent: nat): string
  {
    Pad(indent) + "expression: " + ParamDescription(r.target, r.data) + " = "
      + "patch_var[" + Hex8(r.source1) + "];\n"
  }

  /** print_other: the target is assigned a parameter of another GRF, named by its label. */
  function PrintOther(r: Action0D, grfId: string, indent: nat): string
  {
    Pad(indent) + "expression: " + ParamDescription(r.target, r.data) + " = "
      + "<\"" + grfId + "\">" + ParamDescription(r.source1, r.data) + ";\n"
  }

  datatype PrintError = UnmappedValue(table: string, value: bv8)

  /**
   * print_resources: a GRM operator applied to a feature and a number. The
   * operator is looked up from source1; a value outside the GRM table
   * has no name and fails.
   */
  function PrintResources(r: Action0D, featureName: string, number: bv16, indent: nat): (s: Result<string, PrintError>)
    ensures s.Failure? <==> r.source1 > 0x06
  {
    match GrmOperatorOf(r.source1)
    case None => Failure(UnmappedValue("operator", r.source1))
    case Some(g) =>
      Success(Pad(indent) + "expression: " + ParamDescription(r.target, r.data) + " = "
                + GrmOperatorName(g) + "(" + featureName + ", " + Hex16(number) + ");\n")
  }

  /** Fields the OtherGRF and Resources statements print that are not on the wire of this model. */
  datatype Extras = Extras(grfId: string, feature: bv8, number: bv16)

  function Header(recordName: string, k: Kind, indent: nat): string
  {
    Pad(indent) + recordName + "<" + KindName(k) + ">" + " // Action0D\n" + Pad(indent) + "{\n"
  }

  /** The statements of the record's kind, dispatched on the derived kind. */
  function Body(r: Action0D, x: Extras, featureName: bv8 -> string, indent: nat): (s: Result<string, PrintError>)
    ensures s.Failure? <==> KindOf(r) == Resources && r.source1 > 0x06
    ensures KindOf(r) == Param ==> s == Success(PrintParam(r, indent))
    ensures KindOf(r) == Patch ==> s == Success(PrintPatch(r, indent))
    ensures KindOf(r) == OtherGrf ==> s == Success(PrintOther(r, x.grfId, indent))
    ensures KindOf(r) == Resources ==> s == PrintResources(r, featureName(x.feature), x.number, indent)
  {
    match KindOf(r)
    case Param => Success(PrintParam(r, indent))
    case OtherGrf => Success(PrintOther(r, x.grfId, indent))
    case Patch => Success(PrintPatch(r, indent))
    case Resources => PrintResources(r, featureName(x.feature), x.number, indent)
  }

  /**
   * print: the header naming the derived kind, the kind's statements at
   * indent + 4, and the closing brace. `featureName` is the foreign feature
   * name lookup.
   */
  function Print(r: Action0D, x: Extras, recordName: string, featureName: bv8 -> string, indent: nat)
    : (s: Result<string, PrintError>)
    ensures s.Failure? <==> KindOf(r) == Resources && r.source1 > 0x06
    ensures s.Success? ==> |s.value| >= |Header(recordName, KindOf(r), indent)| + indent + 2
    ensures s.Success? ==> s.value[..|Header(recordName, KindOf(r), indent)|] == Header(recordName, KindOf(r), indent)
    ensures s.Success? ==> s.value[|s.value| - indent - 2..] == Pad(indent) + "}\n"
    ensures s.Success? ==> s.value == Header(recordName, KindOf(r), indent) + Body(r, x, featureName, indent + 4).value
                                      + (Pad(indent) + "}\n")
  {
    match Body(r, x, featureName, indent + 4)
    case Failure(e) => Failure(e)
    case Success(b) =>
      var h := Header(recordName, KindOf(r), indent);
      var f := Pad(indent) + "}\n";
      var s := h + b + f;
      assert s[..|h|] == h;
      assert s[|s| - |f|..] == f;
      Success(s)
  }
}
