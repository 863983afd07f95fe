/** The operator token tables of `src/ast/op.rs`.

    `BinOp` has fourteen variants, but its parser knows only the four
    arithmetic tokens; every other token, including `%` and `<<` whose
    variants exist, is `unimplemented!`.  `MonOp`'s parser maps eight
    tokens to the eight variants and rejects everything else.
 */
module Ops {
  import opened Outcome

  datatype BinOp =
    | Add | Sub | Mul | Div | Mod
    | LShift | RShift
    | Eq | Neq
    | And | Or | Xor
    | LogicalAnd | LogicalOr

  datatype MonOp = LogicalNot | Inc | Dec | SizeOf | Deref | Negate | BinaryNot | AddrOf

  /** `BinOp::parse`. */
  function ParseBinOp(tok: string): (r: Result<BinOp>)
    ensures r.Ok? ==> r.value in {Add, Sub, Mul, Div}
  {
    if tok == "+" then Ok(Add)
    else if tok == "-" then Ok(Sub)
    else if tok == "*" then Ok(Mul)
    else if tok == "/" then Ok(Div)
    else Panic("not implemented: Unknown op `" + tok + "`")
  }

  /** The token of an arithmetic operator; the others have none the
      parser accepts. */
  function BinOpToken(o: BinOp): (r: Option<string>)
    ensures r.Some? <==> o in {Add, Sub, Mul, Div}
    ensures r.Some? ==> ParseBinOp(r.value) == Ok(o)
  {
    match o
    case Add => Some("+")
    case Sub => Some("-")
    case Mul => Some("*")
    case Div => Some("/")
    case _ => None
  }

  /** The binary parser and the token table are inverse: a token parses
      exactly when it is one of the four arithmetic tokens, and then back
      to the operator that has it. */
  lemma BinOpRoundTrip(tok: string, o: BinOp)
    ensures ParseBinOp(tok) == Ok(o) <==> BinOpToken(o) == Some(tok)
    ensures ParseBinOp(tok).Ok? <==> tok in {"+", "-", "*", "/"}
  {
  }

  /** `MonOp::parse`. */
  function ParseMonOp(tok: string): (r: Result<MonOp>)
    ensures r.Ok? <==> tok in {"!", "++", "--", "sizeof", "*", "-", "~", "&"}
    ensures r.Ok? ==> MonOpToken(r.value) == tok
  {
    if tok == "!" then Ok(LogicalNot)
    else if tok == "++" then Ok(Inc)
    else if tok == "--" then Ok(Dec)
    else if tok == "sizeof" then Ok(SizeOf)
    else if tok == "*" then Ok(Deref)
    else if tok == "-" then Ok(Negate)
    else if tok == "~" then Ok(BinaryNot)
    else if tok == "&" then Ok(AddrOf)
    else Panic("internal error: entered unreachable code")
  }

  /** The token of a unary operator: one of those its parser accepts
      (`MonOpRoundTrip`: the one that parses back to `o`). */
  function MonOpToken(o: MonOp): (r: string)
    ensures r in {"!", "++", "--", "sizeof", "*", "-", "~", "&"}
  {
    match o
    case LogicalNot => "!"
    case Inc => "++"
    case Dec => "--"
    case SizeOf => "sizeof"
    case Deref => "*"
    case Negate => "-"
    case BinaryNot => "~"
    case AddrOf => "&"
  }

  /** Every unary operator has a token that parses back to it, and a
      token parses to an operator only if it is that operator's token;
      so distinct tokens give distinct operators. */
  lemma MonOpRoundTrip(tok: string, o: MonOp)
    ensures ParseMonOp(MonOpToken(o)) == Ok(o)
    ensures ParseMonOp(tok) == Ok(o) ==> tok == MonOpToken(o)
  {
  }

  lemma MonOpInjective(t1: string, t2: string)
    requires ParseMonOp(t1).Ok? && ParseMonOp(t1) == ParseMonOp(t2)
    ensures t1 == t2
  {
    MonOpRoundTrip(t1, ParseMonOp(t1).value);
    MonOpRoundTrip(t2, ParseMonOp(t2).value);
  }
}
