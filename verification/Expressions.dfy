/** The text printed for P4 expressions and control graphs, and how C reads it. Text is
    taken as C tokens. */
module Expressions {
  import opened Bytes

  /** Operators; `ValidOp` is the P4 operator with no C counterpart. */
  datatype Op =
    | Not | BitNot | Times | Plus | Minus | Shl | Shr | Lt | Gt | Le | Ge | Eq | Ne
    | BitAnd | BitXor | BitOr | And | Or | ValidOp

  /** An expression of the P4 compiler's tree. `Missing` is Python's None, and `Other` an
      object of a type that is not printed. */
  datatype Expr =
    | Missing
    | Bool(b: bool)
    | Int(n: int)
    | Field(id: nat)
    | Valid(header: nat)
    | Node(op: Op, left: Expr, right: Expr)
    | Other

  /** Tokens: `Get` is GET_INT32_AUTO(pd, f), `Pointer` is pd->headers[h].pointer. */
  datatype Token =
    | LParen | RParen | Sym(op: Op) | Num(n: nat) | Get(id: nat) | Pointer(header: nat) | Null
    | If | Else | LBrace | RBrace | Return | Apply(table: nat) | Semi

  // ------------------------------------------------------------- printing

  /** format_expr and format_op */
  function FormatExpr(e: Expr): seq<Token> {
    match e
    case Missing => []
    case Bool(b) => [Num(if b then 1 else 0)]
    case Int(n) => if n < 0 then [Sym(Minus), Num(-n)] else [Num(n)]
    case Field(id) => [Get(id)]
    case Valid(header) => [Pointer(header), Sym(Ne), Null]
    case Node(op, left, right) =>
      if left.Missing? then [Sym(op)] + Parens(FormatExpr(right))
      else Parens(FormatExpr(left)) + [Sym(op)] + Parens(FormatExpr(right))
    case Other => []
  }

  function Parens(ts: seq<Token>): seq<Token> {
    [LParen] + ts + [RParen]
  }

  // ------------------------------------------------------ reading it as C

  datatype CExpr =
    | CNum(n: nat) | CGet(id: nat) | CPointer(header: nat) | CNull
    | CUnary(op: Op, arg: CExpr) | CBinary(op: Op, left: CExpr, right: CExpr)

  predicate IsPrefix(op: Op) {
    op in {Not, BitNot, Minus, Plus, BitAnd, Times}
  }

  /** Precedence of the binary operators of C; 0 for the others. */
  function Prec(op: Op): nat {
    match op
    case Times => 10
    case Plus | Minus => 9
    case Shl | Shr => 8
    case Lt | Gt | Le | Ge => 7
    case Eq | Ne => 6
    case BitAnd => 5
    case BitXor => 4
    case BitOr => 3
    case And => 2
    case Or => 1
    case Not | BitNot | ValidOp => 0
  }

  /** A tree and the tokens after it. */
  type Parsed = Option<(CExpr, seq<Token>)>

  /** Unary expressions: prefix operators bind to the right. */
  function ParseUnary(ts: seq<Token>): (r: Parsed)
    ensures r.Some? ==> |r.value.1| < |ts|
    decreases |ts|, 0
  {
    if ts == [] then None
    else
      match ts[0]
      case Sym(op) =>
        if !IsPrefix(op) then None
        else
          var arg := ParseUnary(ts[1..]);
          if arg.None? then None else Some((CUnary(op, arg.value.0), arg.value.1))
      case LParen =>
        var inner := ParseBinary(ts[1..], 1);
        if inner.None? || inner.value.1 == [] || inner.value.1[0] != RParen then None
        else Some((inner.value.0, inner.value.1[1..]))
      case Num(n) => Some((CNum(n), ts[1..]))
      case Get(id) => Some((CGet(id), ts[1..]))
      case Pointer(header) => Some((CPointer(header), ts[1..]))
      case Null => Some((CNull, ts[1..]))
      case _ => None
  }

  /** Binary expressions whose operators bind at least as tightly as `prec`. */
  function ParseBinary(ts: seq<Token>, prec: nat): (r: Parsed)
    requires prec > 0
    ensures r.Some? ==> |r.value.1| < |ts|
    decreases |ts|, 1
  {
    var left := ParseUnary(ts);
    if left.None? then None else ParseRest(left.value.0, left.value.1, prec)
  }

  /** The operators after a first operand, grouped to the left. */
  function ParseRest(left: CExpr, ts: seq<Token>, prec: nat): (r: Parsed)
    requires prec > 0
    ensures r.Some? ==> |r.value.1| <= |ts|
    decreases |ts|, 0
  {
    if ts == [] || !ts[0].Sym? || Prec(ts[0].op) < prec then Some((left, ts))
    else
      var right := ParseBinary(ts[1..], Prec(ts[0].op) + 1);
      if right.None? then None
      else ParseRest(CBinary(ts[0].op, left, right.value.0), right.value.1, prec)
  }

  /** A whole expression. */
  function Parse(ts: seq<Token>): Option<CExpr> {
    var r := ParseBinary(ts, 1);
    if r.Some? && r.value.1 == [] then Some(r.value.0) else None
  }

  // ---------------------------------------------------------- round trip

  /** Everything is of a printed type, and each operator has a C counterpart. */
  predicate WellFormed(e: Expr) {
    match e
    case Missing | Other => false
    case Bool(_) | Int(_) | Field(_) | Valid(_) => true
    case Node(op, left, right) =>
      && WellFormed(right)
      && if left.Missing? then IsPrefix(op) else Prec(op) != 0 && WellFormed(left)
  }

  /** The C tree meant by an expression. */
  function Meant(e: Expr): CExpr
    requires WellFormed(e)
  {
    match e
    case Bool(b) => CNum(if b then 1 else 0)
    case Int(n) => if n < 0 then CUnary(Minus, CNum(-n)) else CNum(n)
    case Field(id) => CGet(id)
    case Valid(header) => CBinary(Ne, CPointer(header), CNull)
    case Node(op, left, right) =>
      if left.Missing? then CUnary(op, Meant(right)) else CBinary(op, Meant(left), Meant(right))
  }

  /** Tokens that no operator follows. */
  predicate Closed(rest: seq<Token>) {
    rest == [] || !rest[0].Sym?
  }

  /** The text of `left op right` after its first operand. */
  function Tail(e: Expr, rest: seq<Token>): seq<Token>
    requires e.Node?
  {
    [Sym(e.op)] + (Parens(FormatExpr(e.right)) + rest)
  }

  lemma TextOfNode(e: Expr, rest: seq<Token>)
    requires e.Node?
    ensures e.left.Missing? ==> FormatExpr(e) + rest == Tail(e, rest)
    ensures !e.left.Missing? ==> FormatExpr(e) + rest == Parens(FormatExpr(e.left)) + Tail(e, rest)
    ensures Tail(e, rest)[1..] == Parens(FormatExpr(e.right)) + rest
  {}

  /** Reading on from a first operand, when the second one is read or fails. */
  lemma RestAfterOperand(left: CExpr, e: Expr, rest: seq<Token>)
    requires e.Node? && Closed(rest)
    ensures Prec(e.op) == 0 ==> ParseRest(left, Tail(e, rest), 1) == Some((left, Tail(e, rest)))
    ensures var right := ParseUnary(Parens(FormatExpr(e.right)) + rest);
            Prec(e.op) != 0 ==>
              && (right.None? ==> ParseRest(left, Tail(e, rest), 1).None?)
              && (right.Some? && right.value.1 == rest ==>
                    ParseRest(left, Tail(e, rest), 1) == Some((CBinary(e.op, left, right.value.0), rest)))
  {
    hide FormatExpr, Parens;
    var ts := Parens(FormatExpr(e.right)) + rest;
    assert Tail(e, rest)[1..] == ts;
    if Prec(e.op) != 0 {
      var right := ParseUnary(ts);
      if right.Some? && right.value.1 == rest {
        assert ParseBinary(ts, Prec(e.op) + 1) == Some((right.value.0, rest));
      }
    }
  }

  lemma {:induction false} AtomsParseBack(e: Expr, rest: seq<Token>)
    requires WellFormed(e) && !e.Node? && Closed(rest)
    ensures ParseBinary(FormatExpr(e) + rest, 1) == Some((Meant(e), rest))
  {
    var ts := FormatExpr(e) + rest;
    match e
    case Bool(_) | Field(_) => assert ts[1..] == rest;
    case Int(n) =>
      if n < 0 {
        assert ts[1..] == [Num(-n)] + rest && ts[1..][1..] == rest;
        assert ParseUnary(ts[1..]) == Some((CNum(-n), rest));
      } else {
        assert ts[1..] == rest;
      }
    case Valid(header) =>
      var tail := [Sym(Ne), Null] + rest;
      assert ts[1..] == tail && tail[1..] == [Null] + rest && ([Null] + rest)[1..] == rest;
      assert ParseUnary([Null] + rest) == Some((CNull, rest));
      assert ParseBinary([Null] + rest, 7) == Some((CNull, rest));
      assert ParseRest(CPointer(header), tail, 1) == Some((CBinary(Ne, CPointer(header), CNull), rest));
  }

  lemma {:induction false} ParsesBack(e: Expr, rest: seq<Token>)
    requires WellFormed(e) && Closed(rest)
    ensures ParseBinary(FormatExpr(e) + rest, 1) == Some((Meant(e), rest))
    decreases e, 0
  {
    if !e.Node? {
      AtomsParseBack(e, rest);
    } else {
      hide FormatExpr, Parens, ParseRest;
      TextOfNode(e, rest);
      OperandParsesBack(e.right, rest);
      if e.left.Missing? {
        ClosedEnds(CUnary(e.op, Meant(e.right)), rest);
      } else {
        OperandParsesBack(e.left, Tail(e, rest));
        RestAfterOperand(Meant(e.left), e, rest);
      }
    }
  }

  lemma ClosedEnds(left: CExpr, rest: seq<Token>)
    requires Closed(rest)
    ensures ParseRest(left, rest, 1) == Some((left, rest))
  {}

  /** An operand in parentheses, whatever follows it. */
  lemma {:induction false} OperandParsesBack(e: Expr, rest: seq<Token>)
    requires WellFormed(e)
    ensures ParseUnary(Parens(FormatExpr(e)) + rest) == Some((Meant(e), rest))
    decreases e, 1
  {
    var ts := Parens(FormatExpr(e)) + rest;
    ParsesBack(e, [RParen] + rest);
    assert ts[1..] == FormatExpr(e) + ([RParen] + rest);
    assert ([RParen] + rest)[1..] == rest;
  }

  /** An expression that is not well formed is not read to its end. */
  lemma {:induction false} IllFormedFails(e: Expr, rest: seq<Token>)
    requires !WellFormed(e) && (rest == [] || rest[0] == RParen)
    ensures var r := ParseBinary(FormatExpr(e) + rest, 1);
            r.None? || (r.value.1 != [] && r.value.1[0].Sym?)
    decreases e, 0
  {
    if e.Node? {
      hide FormatExpr, Parens, ParseRest;
      TextOfNode(e, rest);
      if WellFormed(e.right) {
        OperandParsesBack(e.right, rest);
      } else {
        IllFormedOperandFails(e.right, rest);
      }
      if !e.left.Missing? {
        if WellFormed(e.left) {
          OperandParsesBack(e.left, Tail(e, rest));
          RestAfterOperand(Meant(e.left), e, rest);
        } else {
          IllFormedOperandFails(e.left, Tail(e, rest));
        }
      }
    }
  }

  lemma {:induction false} IllFormedOperandFails(e: Expr, rest: seq<Token>)
    requires !WellFormed(e)
    ensures ParseUnary(Parens(FormatExpr(e)) + rest).None?
    decreases e, 1
  {
    var ts := Parens(FormatExpr(e)) + rest;
    IllFormedFails(e, [RParen] + rest);
    assert ts[1..] == FormatExpr(e) + ([RParen] + rest);
  }

  /** The printed text reads as the tree meant, exactly for the well-formed ones. */
  lemma PrintedTextParses(e: Expr)
    ensures Parse(FormatExpr(e)) == if WellFormed(e) then Some(Meant(e)) else None
  {
    assert FormatExpr(e) + [] == FormatExpr(e);
    if WellFormed(e) {
      ParsesBack(e, []);
    } else {
      IllFormedFails(e, []);
    }
  }

  // ------------------------------------------------------------- meaning

  /** A packet state and the operators' meanings, over any set of values. */
  datatype Env<!V> = Env(
    num: int -> V, field: nat -> V, pointer: nat -> V, nullPointer: V, valid: nat -> V,
    unary: (Op, V) -> V, binary: (Op, V, V) -> V, truth: V -> bool)
  {
    /** Negative numbers are negated ones, and validity is a non-null pointer. */
    ghost predicate Consistent() {
      && (forall n: int | n >= 0 :: unary(Minus, num(n)) == num(-n))
      && (forall h: nat :: binary(Ne, pointer(h), nullPointer) == valid(h))
    }
  }

  /** The value of a P4 expression. */
  function ValueOf<V>(e: Expr, env: Env<V>): V
    requires WellFormed(e)
  {
    match e
    case Bool(b) => env.num(if b then 1 else 0)
    case Int(n) => env.num(n)
    case Field(id) => env.field(id)
    case Valid(header) => env.valid(header)
    case Node(op, left, right) =>
      if left.Missing? then env.unary(op, ValueOf(right, env))
      else env.binary(op, ValueOf(left, env), ValueOf(right, env))
  }

  /** The value of a C expression. */
  function CValue<V>(c: CExpr, env: Env<V>): V {
    match c
    case CNum(n) => env.num(n)
    case CGet(id) => env.field(id)
    case CPointer(header) => env.pointer(header)
    case CNull => env.nullPointer
    case CUnary(op, arg) => env.unary(op, CValue(arg, env))
    case CBinary(op, left, right) => env.binary(op, CValue(left, env), CValue(right, env))
  }

  lemma {:induction false} MeantHasTheValue<V>(e: Expr, env: Env<V>)
    requires WellFormed(e) && env.Consistent()
    ensures CValue(Meant(e), env) == ValueOf(e, env)
  {
    match e
    case Int(n) =>
      if n < 0 {
        assert env.unary(Minus, env.num(-n)) == env.num(-(-n));
      }
    case Node(op, left, right) =>
      MeantHasTheValue(right, env);
      if !left.Missing? { MeantHasTheValue(left, env); }
    case _ =>
  }

  /** The printed text is read as C with the value of the expression, in every state. */
  lemma PrintedTextMeansTheSame<V>(e: Expr, env: Env<V>)
    requires WellFormed(e) && env.Consistent()
    ensures var c := Parse(FormatExpr(e)); c.Some? && CValue(c.value, env) == ValueOf(e, env)
  {
    PrintedTextParses(e);
    MeantHasTheValue(e, env);
  }

  // ------------------------------------------------------ control graphs

  /** A control graph from a node on; a shared node is written out at each use. */
  datatype Graph = End | Table(name: nat) | Cond(condition: Expr, onTrue: Graph, onFalse: Graph)

  predicate Printable(g: Graph) {
    g.Cond? ==> WellFormed(g.condition) && Printable(g.onTrue) && Printable(g.onFalse)
  }

  /** format_p4_node */
  function FormatNode(g: Graph): seq<Token> {
    match g
    case End => []
    case Table(name) => [Return, Apply(name), Semi]
    case Cond(condition, onTrue, onFalse) =>
      [If, LParen] + FormatExpr(condition) + [RParen, LBrace] + FormatNode(onTrue)
      + [RBrace, Else, LBrace] + FormatNode(onFalse) + [RBrace]
  }

  /** The table a packet goes to, or none. */
  function Walk<V>(g: Graph, env: Env<V>): Option<nat>
    requires Printable(g)
  {
    match g
    case End => None
    case Table(name) => Some(name)
    case Cond(condition, onTrue, onFalse) =>
      if env.truth(ValueOf(condition, env)) then Walk(onTrue, env) else Walk(onFalse, env)
  }

  datatype Stmt = ReturnApply(table: nat) | IfElse(c: CExpr, onTrue: seq<Stmt>, onFalse: seq<Stmt>)

  /** The table called by statements before they return, if any. */
  function Exec<V>(stmts: seq<Stmt>, env: Env<V>): Option<nat> {
    if stmts == [] then None
    else
      match stmts[0]
      case ReturnApply(table) => Some(table)
      case IfElse(c, onTrue, onFalse) =>
        var r := if env.truth(CValue(c, env)) then Exec(onTrue, env) else Exec(onFalse, env);
        if r.Some? then r else Exec(stmts[1..], env)
  }

  /** Statements and the tokens after them. */
  type ParsedStmts = Option<(seq<Stmt>, seq<Token>)>

  /** The statements up to a closing brace or the end. */
  function ParseStmts(ts: seq<Token>): (r: ParsedStmts)
    ensures r.Some? ==> |r.value.1| <= |ts|
    decreases |ts|, 1
  {
    if ts == [] || ts[0] == RBrace then Some(([], ts))
    else
      var first := ParseStmt(ts);
      if first.None? then None
      else
        var more := ParseStmts(first.value.1);
        if more.None? then None else Some(([first.value.0] + more.value.0, more.value.1))
  }

  function ParseStmt(ts: seq<Token>): (r: Option<(Stmt, seq<Token>)>)
    ensures r.Some? ==> |r.value.1| < |ts|
    decreases |ts|, 0
  {
    if |ts| >= 3 && ts[0] == Return && ts[1].Apply? && ts[2] == Semi then
      Some((ReturnApply(ts[1].table), ts[3..]))
    else if [If, LParen] <= ts then
      var c := ParseBinary(ts[2..], 1);
      if c.None? || !([RParen, LBrace] <= c.value.1) then None
      else
        var onTrue := ParseStmts(c.value.1[2..]);
        if onTrue.None? || !([RBrace, Else, LBrace] <= onTrue.value.1) then None
        else
          var onFalse := ParseStmts(onTrue.value.1[3..]);
          if onFalse.None? || !([RBrace] <= onFalse.value.1) then None
          else Some((IfElse(c.value.0, onTrue.value.0, onFalse.value.0), onFalse.value.1[1..]))
    else None
  }

  /** The statements meant by a graph. */
  function MeantBy(g: Graph): seq<Stmt>
    requires Printable(g)
  {
    match g
    case End => []
    case Table(name) => [ReturnApply(name)]
    case Cond(condition, onTrue, onFalse) => [IfElse(Meant(condition), MeantBy(onTrue), MeantBy(onFalse))]
  }

  lemma Regroup<T>(a: seq<T>, b: seq<T>, c: seq<T>, d: seq<T>, e: seq<T>, f: seq<T>, g: seq<T>, h: seq<T>)
    ensures a + b + c + d + e + f + g + h == a + (b + (c + (d + (e + (f + (g + h))))))
  {
    Group(a + b + c + d + e + f, g, h);
    Group(a + b + c + d + e, f, g + h);
    Group(a + b + c + d, e, f + (g + h));
    Group(a + b + c, d, e + (f + (g + h)));
    Group(a + b, c, d + (e + (f + (g + h))));
    Group(a, b, c + (d + (e + (f + (g + h)))));
  }

  lemma Group<T>(a: seq<T>, b: seq<T>, c: seq<T>)
    ensures (a + b) + c == a + (b + c)
  {}

  /** Reading an if statement whose parts are read. */
  lemma IfParses(cond: seq<Token>, onTrue: seq<Token>, onFalse: seq<Token>, rest: seq<Token>, stmt: Stmt)
    requires stmt.IfElse?
    requires var afterFalse := [RBrace] + rest;
             var afterTrue := [RBrace, Else, LBrace] + (onFalse + afterFalse);
             var afterCond := [RParen, LBrace] + (onTrue + afterTrue);
             && ParseBinary(cond + afterCond, 1) == Some((stmt.c, afterCond))
             && ParseStmts(onTrue + afterTrue) == Some((stmt.onTrue, afterTrue))
             && ParseStmts(onFalse + afterFalse) == Some((stmt.onFalse, afterFalse))
    ensures ParseStmt([If, LParen] + cond + [RParen, LBrace] + onTrue + [RBrace, Else, LBrace]
                      + onFalse + [RBrace] + rest)
            == Some((stmt, rest))
  {
    hide ParseBinary, ParseStmts;
    var afterFalse := [RBrace] + rest;
    var afterTrue := [RBrace, Else, LBrace] + (onFalse + afterFalse);
    var afterCond := [RParen, LBrace] + (onTrue + afterTrue);
    var ts := [If, LParen] + (cond + afterCond);
    Regroup([If, LParen], cond, [RParen, LBrace], onTrue, [RBrace, Else, LBrace], onFalse, [RBrace], rest);
    assert ts[2..] == cond + afterCond && afterCond[2..] == onTrue + afterTrue;
    assert afterTrue[3..] == onFalse + afterFalse && afterFalse[1..] == rest;
  }

  lemma OneStatement(ts: seq<Token>, stmt: Stmt, rest: seq<Token>)
    requires ParseStmt(ts) == Some((stmt, rest)) && ts[0] != RBrace
    requires rest == [] || rest[0] == RBrace
    ensures ParseStmts(ts) == Some(([stmt], rest))
  {
    hide ParseStmt;
    assert ParseStmts(rest) == Some(([], rest));
    assert [stmt] + [] == [stmt];
  }

  lemma {:induction false} NodeParsesBack(g: Graph, rest: seq<Token>)
    requires Printable(g) && (rest == [] || rest[0] == RBrace)
    ensures ParseStmts(FormatNode(g) + rest) == Some((MeantBy(g), rest))
    decreases g, 1
  {
    var ts := FormatNode(g) + rest;
    if g.End? {
      assert ts == rest;
    } else {
      assert ParseStmt(ts) == Some((MeantBy(g)[0], rest)) && ts[0] != RBrace by {
        if g.Table? {
          assert ts[3..] == rest;
        } else {
          CondParsesBack(g, rest);
        }
      }
      OneStatement(ts, MeantBy(g)[0], rest);
    }
  }

  lemma {:induction false} CondParsesBack(g: Graph, rest: seq<Token>)
    requires Printable(g) && g.Cond?
    ensures ParseStmt(FormatNode(g) + rest) == Some((MeantBy(g)[0], rest)) && FormatNode(g)[0] == If
    decreases g, 0
  {
    hide FormatExpr, ParseBinary, Meant, ParseStmt, ParseStmts;
    var condition, onTrue, onFalse := g.condition, FormatNode(g.onTrue), FormatNode(g.onFalse);
    var falsePart := onFalse + ([RBrace] + rest);
    var truePart := onTrue + ([RBrace, Else, LBrace] + falsePart);
    ParsesBack(condition, [RParen, LBrace] + truePart);
    NodeParsesBack(g.onTrue, [RBrace, Else, LBrace] + falsePart);
    NodeParsesBack(g.onFalse, [RBrace] + rest);
    IfParses(FormatExpr(condition), onTrue, onFalse, rest, MeantBy(g)[0]);
  }

  lemma {:induction false} MeantByWalks<V>(g: Graph, env: Env<V>)
    requires Printable(g) && env.Consistent()
    ensures Exec(MeantBy(g), env) == Walk(g, env)
  {
    if g.Cond? {
      MeantHasTheValue(g.condition, env);
      MeantByWalks(g.onTrue, env);
      MeantByWalks(g.onFalse, env);
      assert MeantBy(g)[1..] == [];
    }
  }

  /** Running the text printed for a control graph calls the table that the walk reaches,
      or none where the walk ends. */
  lemma PrintedGraphCallsTheSameTable<V>(g: Graph, env: Env<V>)
    requires Printable(g) && env.Consistent()
    ensures var r := ParseStmts(FormatNode(g));
            r.Some? && r.value.1 == [] && Exec(r.value.0, env) == Walk(g, env)
  {
    assert FormatNode(g) + [] == FormatNode(g);
    NodeParsesBack(g, []);
    MeantByWalks(g, env);
  }
}
