/** The language in which kernels say what resources a node must have. */
module Expression {

  datatype Resource = TotalThreads | TotalMemory | Hostname

  /** A value. Strings are C strings, and the pointer to one may be null. */
  datatype Any = Boolean(b: bool) | U64(n: nat) | Text(s: string) | NullText

  datatype UnaryOp = Not | Negate

  datatype BinaryOp = And | Or | Xor | LessThan | LessOrEqual | Equal | GreaterThan | GreaterOrEqual
                    | Add | Subtract | Multiply | Quotient | Remainder

  /** `Null` stands for a missing subexpression, that is, a null pointer. */
  datatype Expr =
    | Null
    | Symbol(r: Resource)
    | Constant(value: Any)
    | Name(name: string)
    | Unary(op1: UnaryOp, arg: Expr)
    | Binary(op2: BinaryOp, a: Expr, b: Expr)

  /** No subexpression and no string is missing. */
  predicate Whole(e: Expr) {
    match e
    case Null => false
    case Constant(v) => v != NullText
    case Unary(_, a) => Whole(a)
    case Binary(_, a, b) => Whole(a) && Whole(b)
    case _ => true
  }

  function Height(e: Expr): nat {
    match e
    case Unary(_, a) => Height(a) + 1
    case Binary(_, a, b) => (if Height(a) < Height(b) then Height(b) else Height(a)) + 1
    case _ => 1
  }

  function ResourceName(r: Resource): string {
    match r
    case TotalThreads => "total-threads"
    case TotalMemory => "total-memory"
    case Hostname => "hostname"
  }

  function UnaryName(op: UnaryOp): string {
    match op
    case Not => "not"
    case Negate => "negate"
  }

  function BinaryName(op: BinaryOp): string {
    match op
    case And => "and"
    case Or => "or"
    case Xor => "xor"
    case LessThan => "<"
    case LessOrEqual => "<="
    case Equal => "="
    case GreaterThan => ">"
    case GreaterOrEqual => ">="
    case Add => "+"
    case Subtract => "-"
    case Multiply => "*"
    case Quotient => "quotient"
    case Remainder => "remainder"
  }
}
