/** P4 expressions over unbounded integers, and their printed text over the int and uint32_t
    values of C: when the two agree. Literals too wide for int, shifts, and the bitwise
    operators of two operands are not covered. */
module ExpressionValues {
  import opened Bytes
  import opened Expressions

  const WORD := 0x1_0000_0000
  const INT_LIMIT := 0x8000_0000

  /** A packet: the fields read, and the headers that are valid. */
  datatype Packet = Packet(field: nat -> nat, valid: nat -> bool)

  predicate IsWord(n: int) { 0 <= n < WORD }

  predicate IsInt(n: int) { -INT_LIMIT <= n < INT_LIMIT }

  ghost predicate WordFields(p: Packet) {
    forall id: nat :: IsWord(p.field(id))
  }

  function Truth(b: bool): int { if b then 1 else 0 }

  function Word(n: int): int { n % WORD }

  /** What the operators that give 0 or 1 make of two numbers. */
  function Compare(op: Op, x: int, y: int): int {
    match op
    case Lt => Truth(x < y)
    case Gt => Truth(x > y)
    case Le => Truth(x <= y)
    case Ge => Truth(x >= y)
    case Eq => Truth(x == y)
    case Ne => Truth(x != y)
    case And => Truth(x != 0 && y != 0)
    case Or => Truth(x != 0 || y != 0)
    case _ => 0
  }

  function UnboundedUnary(op: Op, x: int): int {
    match op
    case Minus => -x
    case Plus => x
    case BitNot => -x - 1
    case Not => Truth(x == 0)
    case _ => 0
  }

  function UnboundedBinary(op: Op, x: int, y: int): int {
    match op
    case Plus => x + y
    case Minus => x - y
    case Times => x * y
    case _ => Compare(op, x, y)
  }

  /** P4's integers. */
  function Unbounded(p: Packet): Env<int> {
    Env(n => n, id => p.field(id), h => Truth(p.valid(h)), 0, h => Truth(p.valid(h)),
        UnboundedUnary, UnboundedBinary, v => v != 0)
  }

  /** C's values: literals and truth values are int, GET_INT32_AUTO is uint32_t. There is no
      value where a signed result overflows, and none here for a literal too wide for int. */
  datatype CVal = NoValue | Signed(n: int) | Unsigned(n: int)

  function SignedResult(n: int): CVal { if IsInt(n) then Signed(n) else NoValue }

  function Literal(n: int): CVal { if -INT_LIMIT < n < INT_LIMIT then Signed(n) else NoValue }

  /** Signed(1) for true. */
  function CTruth(b: bool): CVal { Signed(if b then 1 else 0) }

  function CUnaryValue(op: Op, x: CVal): CVal {
    if x.NoValue? then NoValue
    else
      match op
      case Not => CTruth(x.n == 0)
      case Plus => x
      case Minus => if x.Signed? then SignedResult(-x.n) else Unsigned(Word(-x.n))
      case BitNot => if x.Signed? then SignedResult(-x.n - 1) else Unsigned(WORD - 1 - x.n)
      case _ => CTruth(false)
  }

  /** Two ints stay ints; next to a uint32_t an int is converted to one. */
  function CBinaryValue(op: Op, x: CVal, y: CVal): CVal {
    if x.NoValue? || y.NoValue? then NoValue
    else if x.Signed? && y.Signed? then CInts(op, x.n, y.n)
    else CWords(op, Word(x.n), Word(y.n))
  }

  function CInts(op: Op, x: int, y: int): CVal {
    match op
    case Plus => SignedResult(x + y)
    case Minus => SignedResult(x - y)
    case Times => SignedResult(x * y)
    case _ => CTest(op, x, y)
  }

  function CWords(op: Op, x: int, y: int): CVal {
    match op
    case Plus => Unsigned(Word(x + y))
    case Minus => Unsigned(Word(x - y))
    case Times => Unsigned(Word(x * y))
    case _ => CTest(op, x, y)
  }

  function CTest(op: Op, x: int, y: int): CVal {
    match op
    case Lt => CTruth(x < y)
    case Gt => CTruth(x > y)
    case Le => CTruth(x <= y)
    case Ge => CTruth(x >= y)
    case Eq => CTruth(x == y)
    case Ne => CTruth(x != y)
    case And => CTruth(x != 0 && y != 0)
    case Or => CTruth(x != 0 || y != 0)
    case _ => CTruth(false)
  }

  function InC(p: Packet): Env<CVal> {
    Env(Literal, id => Unsigned(p.field(id)), h => Signed(Truth(p.valid(h))), Signed(0),
        h => Signed(Truth(p.valid(h))), CUnaryValue, CBinaryValue, (v: CVal) => !v.NoValue? && v.n != 0)
  }

  lemma InCIsConsistent(p: Packet)
    ensures InC(p).Consistent()
  {
    forall n: int | n >= 0
      ensures InC(p).unary(Minus, InC(p).num(n)) == InC(p).num(-n)
    {
      assert CUnaryValue(Minus, Literal(n)) == Literal(-n);
    }
    forall h: nat
      ensures InC(p).binary(Ne, InC(p).pointer(h), InC(p).nullPointer) == InC(p).valid(h)
    {
      var t := Truth(p.valid(h));
      assert CBinaryValue(Ne, Signed(t), Signed(0)) == Signed(t);
    }
  }

  // ----------------------------------------------------------- residues

  lemma WordFixes(n: int)
    ensures Word(n) == n <==> IsWord(n)
  {}

  lemma WordTwice(n: int)
    ensures Word(Word(n)) == Word(n)
  {}

  lemma SameResidue(x: int, y: int, k: int)
    requires x - y == -k * WORD
    ensures Word(x) == Word(y)
  {
    var q := y / WORD;
    assert x == (q - k) * WORD + Word(y);
    ResidueIsUnique(x, q - k, Word(y));
  }

  lemma ResidueIsUnique(x: int, q: int, r: int)
    requires x == q * WORD + r && IsWord(r)
    ensures Word(x) == r
  {}

  lemma ResidueOfUnary(op: Op, x: int)
    requires op in {Minus, Plus, BitNot}
    ensures Word(UnboundedUnary(op, Word(x))) == Word(UnboundedUnary(op, x))
  {
    var k := x / WORD;
    SameResidue(-Word(x), -x, -k);
    SameResidue(Word(x), x, k);
    SameResidue(-Word(x) - 1, -x - 1, -k);
  }

  lemma ResidueOfBinary(op: Op, x: int, y: int)
    requires op in {Plus, Minus, Times}
    ensures Word(UnboundedBinary(op, Word(x), Word(y))) == Word(UnboundedBinary(op, x, y))
  {
    var j, k := x / WORD, y / WORD;
    var u, v := Word(x), Word(y);
    SameResidue(u + v, x + y, j + k);
    SameResidue(u - v, x - y, j - k);
    assert x == j * WORD + u && y == k * WORD + v;
    ResidueOfProduct(j, k, u, v);
  }

  lemma ResidueOfProduct(j: int, k: int, u: int, v: int)
    ensures Word(u * v) == Word((j * WORD + u) * (k * WORD + v))
  {
    var m := j * k * WORD + j * v + k * u;
    assert (j * WORD + u) * (k * WORD + v) == m * WORD + u * v;
    SameResidue(u * v, m * WORD + u * v, m);
  }

  // -------------------------------------------------------- arithmetic

  /** Numbers, fields, and sums, differences, products, negations and complements. */
  predicate Arithmetic(e: Expr) {
    match e
    case Bool(_) | Int(_) | Field(_) | Valid(_) => true
    case Node(op, left, right) =>
      && Arithmetic(right)
      && if left.Missing? then op in {Minus, Plus, BitNot} else op in {Plus, Minus, Times} && Arithmetic(left)
    case Missing | Other => false
  }

  /** Some field is read in it, which makes it unsigned in C. */
  predicate ReadsField(e: Expr) {
    match e
    case Field(_) => true
    case Node(_, left, right) => ReadsField(left) || ReadsField(right)
    case _ => false
  }

  /** What the P4 program means. */
  function Value(e: Expr, p: Packet): int
    requires Arithmetic(e)
  {
    ArithmeticIsWellFormed(e);
    ValueOf(e, Unbounded(p))
  }

  /** Where no field is read, literals and results stay within int. */
  predicate IntsFit(e: Expr, p: Packet)
    requires Arithmetic(e)
  {
    && (e.Int? ==> Literal(e.n) != NoValue)
    && (e.Node? ==>
          && (!e.left.Missing? ==> IntsFit(e.left, p)) && IntsFit(e.right, p)
          && (ReadsField(e) || IsInt(Value(e, p))))
  }

  lemma {:induction false} ArithmeticIsWellFormed(e: Expr)
    requires Arithmetic(e)
    ensures WellFormed(e)
  {
    if e.Node? {
      ArithmeticIsWellFormed(e.right);
      if !e.left.Missing? { ArithmeticIsWellFormed(e.left); }
    }
  }

  /** An int where no field is read, and the residue of the value where one is. */
  function Expected(unsigned: bool, v: int): CVal {
    if unsigned then Unsigned(Word(v)) else Signed(v)
  }

  lemma UnaryAsExpected(op: Op, unsigned: bool, x: int)
    requires op in {Minus, Plus, BitNot} && (unsigned || IsInt(UnboundedUnary(op, x)))
    ensures CUnaryValue(op, Expected(unsigned, x)) == Expected(unsigned, UnboundedUnary(op, x))
  {
    hide Word;
    ResidueOfUnary(op, x);
    ComplementOfWord(x);
  }

  lemma ComplementOfWord(x: int)
    ensures Word(-Word(x) - 1) == WORD - 1 - Word(x)
  {}

  lemma BinaryAsExpected(op: Op, u1: bool, x: int, u2: bool, y: int)
    requires op in {Plus, Minus, Times} && (u1 || u2 || IsInt(UnboundedBinary(op, x, y)))
    ensures CBinaryValue(op, Expected(u1, x), Expected(u2, y)) == Expected(u1 || u2, UnboundedBinary(op, x, y))
  {
    hide Word;
    WordTwice(x);
    WordTwice(y);
    ResidueOfBinary(op, x, y);
  }

  lemma AtomAsExpected(e: Expr, p: Packet)
    requires !e.Node? && Arithmetic(e) && WordFields(p) && IntsFit(e, p) && WellFormed(e)
    ensures ValueOf(e, InC(p)) == Expected(ReadsField(e), Value(e, p))
  {
    hide Word;
    if e.Field? { WordFixes(p.field(e.id)); }
  }

  lemma NodeValue(e: Expr, p: Packet)
    requires e.Node? && Arithmetic(e) && WellFormed(e)
    ensures e.left.Missing? ==>
              && Value(e, p) == UnboundedUnary(e.op, Value(e.right, p))
              && ValueOf(e, InC(p)) == CUnaryValue(e.op, ValueOf(e.right, InC(p)))
    ensures !e.left.Missing? ==>
              && Value(e, p) == UnboundedBinary(e.op, Value(e.left, p), Value(e.right, p))
              && ValueOf(e, InC(p)) == CBinaryValue(e.op, ValueOf(e.left, InC(p)), ValueOf(e.right, InC(p)))
  {
    hide UnboundedUnary, UnboundedBinary, CUnaryValue, CBinaryValue;
  }

  /** In C an arithmetic expression that reads a field has the residue of its value, and one
      that reads none its value. */
  lemma {:induction false} WordIsResidue(e: Expr, p: Packet)
    requires Arithmetic(e) && WordFields(p) && IntsFit(e, p) && WellFormed(e)
    ensures ValueOf(e, InC(p)) == Expected(ReadsField(e), Value(e, p))
  {
    hide WordFields, Expected, UnboundedUnary, UnboundedBinary, CUnaryValue, CBinaryValue, Value, ValueOf, InC;
    if !e.Node? {
      AtomAsExpected(e, p);
    } else {
      NodeValue(e, p);
      WordIsResidue(e.right, p);
      if e.left.Missing? {
        assert !ReadsField(e.left);
        UnaryAsExpected(e.op, ReadsField(e.right), Value(e.right, p));
      } else {
        WordIsResidue(e.left, p);
        BinaryAsExpected(e.op, ReadsField(e.left), Value(e.left, p), ReadsField(e.right), Value(e.right, p));
      }
    }
  }

  lemma NoValueOfNode(e: Expr, p: Packet)
    requires e.Node? && Arithmetic(e) && WellFormed(e) && WordFields(p)
    requires e.left.Missing? || IntsFit(e.left, p)
    requires IntsFit(e.right, p)
    ensures ValueOf(e, InC(p)) == NoValue <==> !ReadsField(e) && !IsInt(Value(e, p))
  {
    hide WordFields, Word, Value, ValueOf, InC, IntsFit;
    NodeValue(e, p);
    WordIsResidue(e.right, p);
    if e.left.Missing? {
      assert !ReadsField(e.left);
      if !ReadsField(e.right) { FittingIsInt(e.right, p); }
    } else {
      WordIsResidue(e.left, p);
    }
  }

  lemma FittingIsInt(e: Expr, p: Packet)
    requires Arithmetic(e) && IntsFit(e, p) && !ReadsField(e)
    ensures IsInt(Value(e, p))
  {
    hide ValueOf, Unbounded, Value;
    if !e.Node? { AtomIsInt(e, p); }
  }

  lemma AtomIsInt(e: Expr, p: Packet)
    requires e.Bool? || e.Valid? || (e.Int? && -INT_LIMIT < e.n < INT_LIMIT)
    ensures IsInt(Value(e, p))
  {
    ArithmeticIsWellFormed(e);
    var v := ValueOf(e, Unbounded(p));
    match e {
      case Bool(b) => assert v == if b then 1 else 0;
      case Int(n) => assert v == n;
      case Valid(h) => assert v == Truth(p.valid(h));
    }
  }

  /** It has no value in C exactly when a literal or a result without a field leaves int. */
  lemma {:induction false} NoValueExactly(e: Expr, p: Packet)
    requires Arithmetic(e) && WordFields(p) && WellFormed(e)
    ensures ValueOf(e, InC(p)) == NoValue <==> !IntsFit(e, p)
  {
    hide WordFields, Value, InC, UnboundedUnary, UnboundedBinary;
    if !e.Node? {
      NoValueOfAtom(e, p);
    } else {
      NoValueExactly(e.right, p);
      if !e.left.Missing? { NoValueExactly(e.left, p); }
      if IntsFit(e.right, p) && (e.left.Missing? || IntsFit(e.left, p)) {
        NoValueOfNode(e, p);
      } else {
        NoValueSpreads(e, p);
      }
    }
  }

  /** The first numbers past int, on either side. */
  lemma OverflowHasNoValue(p: Packet)
    ensures ValueOf(Node(Plus, Int(0x7FFF_FFFE), Int(1)), InC(p)) == Signed(0x7FFF_FFFF)
    ensures ValueOf(Node(Plus, Int(0x7FFF_FFFF), Int(1)), InC(p)) == NoValue
    ensures ValueOf(Node(Minus, Int(-0x7FFF_FFFF), Int(1)), InC(p)) == Signed(-0x8000_0000)
    ensures ValueOf(Node(Minus, Int(-0x7FFF_FFFF), Int(2)), InC(p)) == NoValue
  {
    assert ValueOf(Int(1), InC(p)) == Signed(1) && ValueOf(Int(2), InC(p)) == Signed(2);
    assert ValueOf(Int(-0x7FFF_FFFF), InC(p)) == Signed(-0x7FFF_FFFF);
    assert ValueOf(Int(0x7FFF_FFFE), InC(p)) == Signed(0x7FFF_FFFE);
    assert ValueOf(Int(0x7FFF_FFFF), InC(p)) == Signed(0x7FFF_FFFF);
  }

  lemma NoValueOfAtom(e: Expr, p: Packet)
    requires !e.Node? && Arithmetic(e) && WellFormed(e)
    ensures ValueOf(e, InC(p)) == NoValue <==> !IntsFit(e, p)
  {}

  lemma NoValueSpreads(e: Expr, p: Packet)
    requires e.Node? && Arithmetic(e) && WellFormed(e)
    requires ValueOf(e.right, InC(p)) == NoValue || (!e.left.Missing? && ValueOf(e.left, InC(p)) == NoValue)
    ensures ValueOf(e, InC(p)) == NoValue
  {
    NodeValue(e, p);
  }

  /** The printed text of an arithmetic expression has its value in C exactly when it reads
      no field or the value fits a word, whatever happens on the way. */
  lemma ArithmeticExactly(e: Expr, p: Packet)
    requires Arithmetic(e) && WordFields(p) && IntsFit(e, p)
    ensures Parse(FormatExpr(e)).Some?
    ensures var c := CValue(Parse(FormatExpr(e)).value, InC(p));
            !c.NoValue? && (c.n == Value(e, p) <==> !ReadsField(e) || IsWord(Value(e, p)))
  {
    hide Arithmetic, IntsFit, WellFormed, Parse, FormatExpr, ValueOf, CValue, InC, Word, Env.Consistent, Value;
    ArithmeticIsWellFormed(e);
    InCIsConsistent(p);
    PrintedTextMeansTheSame(e, InC(p));
    WordIsResidue(e, p);
    WordFixes(Value(e, p));
  }

  // --------------------------------------------------------- conditions

  predicate Comparison(e: Expr) {
    && e.Node? && e.op in {Lt, Gt, Le, Ge, Eq, Ne}
    && Arithmetic(e.left) && Arithmetic(e.right)
  }

  /** Comparisons of arithmetic expressions, joined by and, or and not. */
  predicate Condition(e: Expr) {
    match e
    case Bool(_) | Valid(_) => true
    case Node(op, left, right) =>
      if left.Missing? then op.Not? && Condition(right)
      else if op in {And, Or} then Condition(left) && Condition(right)
      else Comparison(e)
    case _ => false
  }

  lemma {:induction false} ConditionIsWellFormed(e: Expr)
    requires Condition(e)
    ensures WellFormed(e)
  {
    if e.Node? {
      if e.left.Missing? {
        ConditionIsWellFormed(e.right);
      } else if e.op in {And, Or} {
        ConditionIsWellFormed(e.left);
        ConditionIsWellFormed(e.right);
      } else {
        ArithmeticIsWellFormed(e.left);
        ArithmeticIsWellFormed(e.right);
      }
    }
  }

  /** The comparison comes out the same on the residues of its operands, or compares ints. */
  predicate ResiduesAlike(e: Expr, p: Packet)
    requires Comparison(e)
  {
    var x, y := Value(e.left, p), Value(e.right, p);
    || (!ReadsField(e.left) && !ReadsField(e.right))
    || Compare(e.op, Word(x), Word(y)) == Compare(e.op, x, y)
  }

  /** A single comparison: its meaning, and what C makes of it. */
  lemma ComparisonInC(e: Expr, p: Packet)
    requires Comparison(e) && WellFormed(e) && WordFields(p) && IntsFit(e.left, p) && IntsFit(e.right, p)
    ensures ValueOf(e, Unbounded(p)) in {0, 1} && ValueOf(e, InC(p)) in {Signed(0), Signed(1)}
    ensures ValueOf(e, InC(p)) == Signed(ValueOf(e, Unbounded(p))) <==> ResiduesAlike(e, p)
  {
    hide WordFields, Arithmetic, IntsFit, Word, Value, Expected;
    ArithmeticIsPresent(e.left);
    ArithmeticIsWellFormed(e.left);
    ArithmeticIsWellFormed(e.right);
    WordIsResidue(e.left, p);
    WordIsResidue(e.right, p);
    ComparedValues(e, p);
    ComparedInC(e.op, ReadsField(e.left), Value(e.left, p), ReadsField(e.right), Value(e.right, p));
  }

  lemma ArithmeticIsPresent(e: Expr)
    requires Arithmetic(e)
    ensures !e.Missing?
  {}

  lemma ComparedValues(e: Expr, p: Packet)
    requires Comparison(e) && WellFormed(e) && WellFormed(e.left) && WellFormed(e.right) && !e.left.Missing?
    ensures ValueOf(e, Unbounded(p)) == Compare(e.op, Value(e.left, p), Value(e.right, p))
    ensures ValueOf(e, InC(p)) == CBinaryValue(e.op, ValueOf(e.left, InC(p)), ValueOf(e.right, InC(p)))
  {
    hide Compare, CBinaryValue;
  }

  lemma ComparedInC(op: Op, u1: bool, x: int, u2: bool, y: int)
    requires op in {Lt, Gt, Le, Ge, Eq, Ne}
    ensures Compare(op, x, y) in {0, 1}
    ensures CBinaryValue(op, Expected(u1, x), Expected(u2, y))
            == Signed(if u1 || u2 then Compare(op, Word(x), Word(y)) else Compare(op, x, y))
    ensures Compare(op, Word(x), Word(y)) in {0, 1}
  {
    hide Word;
    WordTwice(x);
    WordTwice(y);
  }

  /** The text of a single comparison has its truth value in C exactly when it compares ints,
      or comes out the same on the residues of its operands. */
  lemma ComparisonExactly(e: Expr, p: Packet)
    requires Comparison(e) && WordFields(p) && IntsFit(e.left, p) && IntsFit(e.right, p)
    ensures WellFormed(e) && Parse(FormatExpr(e)).Some?
    ensures CValue(Parse(FormatExpr(e)).value, InC(p)) == Signed(ValueOf(e, Unbounded(p))) <==> ResiduesAlike(e, p)
  {
    hide Arithmetic, IntsFit, Parse, FormatExpr, ValueOf, CValue, InC, Unbounded, WordFields, Env.Consistent,
         ResiduesAlike;
    ArithmeticIsPresent(e.left);
    ArithmeticIsWellFormed(e.left);
    ArithmeticIsWellFormed(e.right);
    InCIsConsistent(p);
    PrintedTextMeansTheSame(e, InC(p));
    ComparisonInC(e, p);
  }

  /** Operands that fit a word always compare alike. */
  lemma WordsCompareAlike(e: Expr, p: Packet)
    requires Comparison(e) && IsWord(Value(e.left, p)) && IsWord(Value(e.right, p))
    ensures ResiduesAlike(e, p)
  {
    hide Word;
    WordFixes(Value(e.left, p));
    WordFixes(Value(e.right, p));
  }

  /** A negative number and a field do not: -1 < f fails in C for every f. */
  lemma NegativeLiteral(p: Packet, id: nat)
    requires WordFields(p)
    ensures var e := Node(Lt, Int(-1), Field(id));
            && WellFormed(e) && Parse(FormatExpr(e)).Some?
            && ValueOf(e, Unbounded(p)) == 1 && CValue(Parse(FormatExpr(e)).value, InC(p)) == Signed(0)
  {
    hide ValueOf, CValue, Parse, FormatExpr, InC, Unbounded, Env.Consistent;
    var e := Node(Lt, Int(-1), Field(id));
    ConditionIsWellFormed(e);
    InCIsConsistent(p);
    PrintedTextMeansTheSame(e, InC(p));
    MinusOneIsLess(e, p);
  }

  lemma MinusOneIsLess(e: Expr, p: Packet)
    requires e.Node? && e.op.Lt? && e.left == Int(-1) && e.right.Field? && WordFields(p) && WellFormed(e)
    ensures ValueOf(e, Unbounded(p)) == 1 && ValueOf(e, InC(p)) == Signed(0)
  {
    assert ValueOf(e.left, Unbounded(p)) == -1 && ValueOf(e.left, InC(p)) == Signed(-1);
    assert Word(-1) == WORD - 1 && IsWord(p.field(e.right.id));
  }

  /** Every comparison in a condition comes out alike. */
  predicate ComparesAlike(e: Expr, p: Packet)
    requires Condition(e)
  {
    e.Node? ==>
      if e.left.Missing? then ComparesAlike(e.right, p)
      else if e.op in {And, Or} then ComparesAlike(e.left, p) && ComparesAlike(e.right, p)
      else IntsFit(e.left, p) && IntsFit(e.right, p) && ResiduesAlike(e, p)
  }

  /** The same 0 or 1 either way. */
  ghost predicate Agree(e: Expr, p: Packet)
    requires WellFormed(e)
  {
    ValueOf(e, InC(p)) == Signed(ValueOf(e, Unbounded(p))) && ValueOf(e, Unbounded(p)) in {0, 1}
  }

  lemma NegationAgrees(e: Expr, p: Packet)
    requires e.Node? && e.op.Not? && e.left.Missing? && WellFormed(e) && Agree(e.right, p)
    ensures Agree(e, p)
  {
    hide CUnaryValue;
    var x := ValueOf(e.right, Unbounded(p));
    NegatedInC(x);
    assert ValueOf(e, Unbounded(p)) == UnboundedUnary(Not, x);
    assert ValueOf(e, InC(p)) == CUnaryValue(Not, Signed(x));
  }

  lemma NegatedInC(x: int)
    ensures CUnaryValue(Not, Signed(x)) == Signed(UnboundedUnary(Not, x)) && UnboundedUnary(Not, x) in {0, 1}
  {}

  lemma JoinAgrees(e: Expr, p: Packet)
    requires e.Node? && e.op in {And, Or} && !e.left.Missing? && WellFormed(e) && Agree(e.left, p) && Agree(e.right, p)
    ensures Agree(e, p)
  {
    hide CBinaryValue, Compare;
    var x, y := ValueOf(e.left, Unbounded(p)), ValueOf(e.right, Unbounded(p));
    JoinedInC(e.op, x, y);
    assert ValueOf(e, InC(p)) == CBinaryValue(e.op, Signed(x), Signed(y));
  }

  lemma JoinedInC(op: Op, x: int, y: int)
    requires op in {And, Or}
    ensures CBinaryValue(op, Signed(x), Signed(y)) == Signed(Compare(op, x, y)) && Compare(op, x, y) in {0, 1}
  {}

  lemma AtomAgrees(e: Expr, p: Packet)
    requires e.Bool? || e.Valid?
    ensures Agree(e, p)
  {}

  lemma {:induction false} ConditionsAgree(e: Expr, p: Packet)
    requires Condition(e) && WellFormed(e) && WordFields(p) && ComparesAlike(e, p)
    ensures Agree(e, p)
  {
    hide Agree, WordFields, Arithmetic, IntsFit, ResiduesAlike;
    if !e.Node? {
      AtomAgrees(e, p);
    } else if e.left.Missing? {
      ConditionsAgree(e.right, p);
      NegationAgrees(e, p);
    } else if e.op in {And, Or} {
      ConditionsAgree(e.left, p);
      ConditionsAgree(e.right, p);
      JoinAgrees(e, p);
    } else {
      ComparisonInC(e, p);
      ComparisonAgrees(e, p);
    }
  }

  lemma ComparisonAgrees(e: Expr, p: Packet)
    requires WellFormed(e) && ValueOf(e, Unbounded(p)) in {0, 1}
    requires ValueOf(e, InC(p)) == Signed(ValueOf(e, Unbounded(p)))
    ensures Agree(e, p)
  {}

  // ------------------------------------------------------ control graphs

  predicate BranchesAlike(g: Graph, p: Packet) {
    g.Cond? ==>
      && Condition(g.condition) && ComparesAlike(g.condition, p)
      && BranchesAlike(g.onTrue, p) && BranchesAlike(g.onFalse, p)
  }

  lemma {:induction false} WalksAgree(g: Graph, p: Packet)
    requires BranchesAlike(g, p) && WordFields(p)
    ensures Printable(g) && Walk(g, InC(p)) == Walk(g, Unbounded(p))
  {
    if g.Cond? {
      ConditionIsWellFormed(g.condition);
      ConditionsAgree(g.condition, p);
      WalksAgree(g.onTrue, p);
      WalksAgree(g.onFalse, p);
    }
  }

  /** Where every comparison comes out alike, the printed graph run in C calls the table
      that the P4 program means. */
  lemma GraphInWords(g: Graph, p: Packet)
    requires BranchesAlike(g, p) && WordFields(p)
    ensures var r := ParseStmts(FormatNode(g));
            Printable(g) && r.Some? && r.value.1 == [] && Exec(r.value.0, InC(p)) == Walk(g, Unbounded(p))
  {
    WalksAgree(g, p);
    InCIsConsistent(p);
    PrintedGraphCallsTheSameTable(g, InC(p));
  }

  // ---------------------------------------------------- plain conditions

  /** A field, or a number that is not negative and fits int. */
  predicate PlainOperand(e: Expr) {
    e.Field? || (e.Int? && 0 <= e.n < INT_LIMIT)
  }

  /** Fields compared with each other and with such numbers. */
  predicate PlainCondition(e: Expr) {
    match e
    case Bool(_) | Valid(_) => true
    case Node(op, left, right) =>
      if left.Missing? then op.Not? && PlainCondition(right)
      else if op in {And, Or} then PlainCondition(left) && PlainCondition(right)
      else op in {Lt, Gt, Le, Ge, Eq, Ne} && PlainOperand(left) && PlainOperand(right)
    case _ => false
  }

  predicate PlainGraph(g: Graph) {
    g.Cond? ==> PlainCondition(g.condition) && PlainGraph(g.onTrue) && PlainGraph(g.onFalse)
  }

  lemma PlainOperandFits(e: Expr, p: Packet)
    requires PlainOperand(e) && WordFields(p)
    ensures Arithmetic(e) && IntsFit(e, p) && IsWord(Value(e, p))
  {}

  lemma {:induction false} PlainComparesAlike(e: Expr, p: Packet)
    requires PlainCondition(e) && WordFields(p)
    ensures Condition(e) && ComparesAlike(e, p)
  {
    hide PlainOperand, WordFields, IntsFit, ResiduesAlike;
    if e.Node? {
      if e.left.Missing? {
        PlainComparesAlike(e.right, p);
      } else if e.op in {And, Or} {
        PlainComparesAlike(e.left, p);
        PlainComparesAlike(e.right, p);
      } else {
        PlainOperandFits(e.left, p);
        PlainOperandFits(e.right, p);
        WordsCompareAlike(e, p);
      }
    }
  }

  lemma {:induction false} PlainBranchesAlike(g: Graph, p: Packet)
    requires PlainGraph(g) && WordFields(p)
    ensures BranchesAlike(g, p)
  {
    if g.Cond? {
      PlainComparesAlike(g.condition, p);
      PlainBranchesAlike(g.onTrue, p);
      PlainBranchesAlike(g.onFalse, p);
    }
  }

  /** So a control graph that compares fields with fields and with such numbers runs in C as
      the P4 program means, whatever the packet. */
  lemma PlainGraphRuns(g: Graph, p: Packet)
    requires PlainGraph(g) && WordFields(p)
    ensures var r := ParseStmts(FormatNode(g));
            Printable(g) && r.Some? && r.value.1 == [] && Exec(r.value.0, InC(p)) == Walk(g, Unbounded(p))
  {
    PlainBranchesAlike(g, p);
    GraphInWords(g, p);
  }
}
