/** What the integer operations of both atomic paths compute, said in arithmetic
    (crates/engine-memory, crates/server). */
module IntegerArithmetic {
  import opened Arithmetic
  import opened AtomicPath
  import opened Base
  import opened ContainerValues
  import opened DataModel
  import opened Engine
  import opened Protocol
  import opened Wire

  // --------------------------------------------------------------------- bits

  /** Bit `i` of a number in two's complement, which goes on to the left with
      copies of its sign. */
  function BitAt(x: int, i: nat): (b: int)
    ensures 0 <= b <= 1
  {
    PowerIsPositive(i);
    x / Pow2(i) % 2
  }

  lemma {:induction false} PowerIsPositive(i: nat)
    ensures Pow2(i) > 0
  {
    if i > 0 { PowerIsPositive(i - 1); }
  }

  lemma DivideTwice(x: int, d: int)
    requires d > 0
    ensures x / (2 * d) == x / 2 / d
  {
    var h := x / 2;
    var q := h / d;
    assert h == d * q + h % d && x == 2 * h + x % 2;
    var r := 2 * (h % d) + x % 2;
    assert x == (2 * d) * q + r && 0 <= r < 2 * d;
    QuotientIs(x, 2 * d, q, r);
  }

  predicate BitMeans(op: NumericOp, a: int, b: int, r: int)
    requires op.And? || op.Or? || op.Xor?
  {
    match op
    case And => r == 1 <==> a == 1 && b == 1
    case Or => r == 1 <==> a == 1 || b == 1
    case _ => r == 1 <==> a != b
  }

  /** Every bit of the result is the conjunction, disjunction or exclusive or of
      that bit of the operands, negative numbers included. */
  lemma {:induction false} BitwiseBits(op: NumericOp, x: int, y: int, i: nat)
    requires op.And? || op.Or? || op.Xor?
    ensures BitMeans(op, BitAt(x, i), BitAt(y, i), BitAt(Bitwise(op, x, y), i))
    decreases i
  {
    BitwiseHalves(op, x, y);
    if i > 0 {
      var d := Pow2(i - 1);
      PowerIsPositive(i - 1);
      DivideTwice(x, d);
      DivideTwice(y, d);
      DivideTwice(Bitwise(op, x, y), d);
      BitwiseBits(op, x / 2, y / 2, i - 1);
    }
  }

  lemma BitwiseHalves(op: NumericOp, x: int, y: int)
    requires op.And? || op.Or? || op.Xor?
    ensures Bitwise(op, x, y) / 2 == Bitwise(op, x / 2, y / 2)
    ensures BitMeans(op, x % 2, y % 2, Bitwise(op, x, y) % 2)
  {
  }

  /** On both paths, and for all 64 bits. */
  lemma BothPathsWorkOnBits(current: i64, operand: i64, i: nat)
    requires i < 64
    ensures var and, or, xor :=
              IntegerFuncall(9, current, operand), IntegerFuncall(10, current, operand), IntegerFuncall(11, current, operand);
      && and.Some? && or.Some? && xor.Some?
      && (BitAt(and.value, i) == 1 <==> BitAt(current, i) == 1 && BitAt(operand, i) == 1)
      && (BitAt(or.value, i) == 1 <==> BitAt(current, i) == 1 || BitAt(operand, i) == 1)
      && (BitAt(xor.value, i) == 1 <==> BitAt(current, i) != BitAt(operand, i))
      && ApplyNumeric(current, And, operand) == Ok(and.value)
      && ApplyNumeric(current, Or, operand) == Ok(or.value)
      && ApplyNumeric(current, Xor, operand) == Ok(xor.value)
  {
    hide Bitwise, BitAt;
    BitwiseBits(And, current, operand, i);
    BitwiseBits(Or, current, operand, i);
    BitwiseBits(Xor, current, operand, i);
  }

  // ----------------------------------------------------------------- division

  predicate Overflows(current: i64, operand: i64) {
    current == -TWO_63 && operand == -1
  }

  /** Quotient and remainder, the remainder smaller than the divisor. */
  predicate Divides(current: int, operand: int, q: int, r: int) {
    current == q * operand + r && Magnitude(r) < Magnitude(operand)
  }

  predicate SignOf(r: int, x: int) { r == 0 || (r > 0 <==> x > 0) }

  lemma QuotientDivides(x: int, y: int)
    requires y != 0
    ensures var q := Quotient(x, y); Divides(x, y, q, x - y * q) && SignOf(x - y * q, x)
  {
    QuotientOfMagnitudes(x, y);
    hide Quotient;
    var q := Quotient(x, y);
    assert q * y == y * q;
  }

  lemma StepDown(x: int, y: int, q: int, r: int)
    requires Divides(x, y, q, r) && r != 0 && Sign(r) != Sign(y)
    ensures Divides(x, y, q - 1, r + y) && SignOf(r + y, y)
  {
    assert (q - 1) * y == q * y - y;
  }

  /** Division on the direct path: the remainder takes the divisor's sign. */
  lemma DirectDivision(current: i64, operand: i64)
    requires operand != 0 && !Overflows(current, operand)
    ensures var div, mod := IntegerFuncall(7, current, operand), IntegerFuncall(8, current, operand);
      div.Some? && mod.Some? && Divides(current, operand, div.value, mod.value) && SignOf(mod.value, operand)
  {
    QuotientDivides(current, operand);
    hide Quotient, Divides, Sign;
    var q := Quotient(current, operand);
    var r := current - operand * q;
    if r != 0 && Sign(r) != Sign(operand) {
      StepDown(current, operand, q, r);
    } else {
      SameSign(r, operand);
    }
  }

  lemma SameSign(r: int, y: int)
    requires r == 0 || Sign(r) == Sign(y)
    ensures SignOf(r, y)
  {
  }

  /** Division in the engine: the remainder takes the dividend's sign. */
  lemma EngineDivision(current: i64, operand: i64)
    requires operand != 0 && !Overflows(current, operand)
    ensures var div, mod := ApplyNumeric(current, Div, operand), ApplyNumeric(current, Mod, operand);
      div.Ok? && mod.Ok? && Divides(current, operand, div.value, mod.value) && SignOf(mod.value, current)
  {
    QuotientDivides(current, operand);
    QuotientInRange(current, operand);
    hide Quotient, Divides, Sign;
  }

  /** Quotient and remainder are determined by the remainder's sign. */
  lemma DivisionIsUnique(current: int, operand: int, q: int, r: int, p: int, s: int)
    requires Divides(current, operand, q, r) && Divides(current, operand, p, s)
    requires (r >= 0 && s >= 0) || (r <= 0 && s <= 0)
    ensures q == p && r == s
  {
    NoSmallMultiple(q - p, operand) by {
      assert (q - p) * operand == q * operand - p * operand == s - r;
    }
  }

  lemma NoSmallMultiple(d: int, y: int)
    requires Magnitude(d * y) < Magnitude(y)
    ensures d == 0
  {
    if d != 0 {
      assert Magnitude(d * y) == Magnitude(d) * Magnitude(y);
      MulMono(1, Magnitude(d), Magnitude(y));
    }
  }

  /** What the source does where there is no quotient. */
  lemma UndefinedDivision(current: i64, operand: i64)
    requires operand == 0 || Overflows(current, operand)
    ensures ApplyNumeric(current, Div, operand) == Err(Panicked)
    ensures ApplyNumeric(current, Mod, operand) == Err(Panicked)
    ensures IntegerFuncall(7, current, operand) == if operand == 0 then None else Some(-TWO_63)
    ensures IntegerFuncall(8, current, operand) == if operand == 0 then None else Some(0)
  {
  }

  // ------------------------------------------------- sums, products and extremes

  function Distance(a: int, b: int): nat { if a >= b then a - b else b - a }

  /** `r` is the 64-bit number nearest to `exact`: itself if it is one. */
  ghost predicate Nearest(r: i64, exact: int) {
    forall z: i64 :: Distance(r, exact) <= Distance(z, exact)
  }

  lemma SaturatedIsNearest(exact: int)
    ensures Nearest(SaturateI64(exact), exact)
  {
  }

  lemma NearestIsExact(r: i64, exact: i64)
    requires Nearest(r, exact)
    ensures r == exact
  {
    assert Distance(r, exact) <= Distance(exact, exact);
  }

  /** Addition, subtraction and multiplication stop at the ends of the 64-bit
      range, alike on both paths. */
  lemma BothPathsSaturate(current: i64, operand: i64)
    ensures var sum, difference, product :=
              IntegerFuncall(4, current, operand), IntegerFuncall(5, current, operand), IntegerFuncall(6, current, operand);
      && sum.Some? && difference.Some? && product.Some?
      && Nearest(sum.value, current + operand)
      && Nearest(difference.value, current - operand)
      && Nearest(product.value, current * operand)
      && ApplyNumeric(current, Add, operand) == Ok(sum.value)
      && ApplyNumeric(current, Sub, operand) == Ok(difference.value)
      && ApplyNumeric(current, Mul, operand) == Ok(product.value)
  {
    hide SaturateI64, Nearest;
    SaturatedIsNearest(current + operand);
    SaturatedIsNearest(current - operand);
    SaturatedIsNearest(current * operand);
  }

  lemma Extremes(current: i64, operand: i64)
    ensures var max, min := IntegerFuncall(12, current, operand), IntegerFuncall(13, current, operand);
      && max.Some? && min.Some?
      && max.value >= current && max.value >= operand && (max.value == current || max.value == operand)
      && min.value <= current && min.value <= operand && (min.value == current || min.value == operand)
  {
  }

  // ------------------------------------------------------------ one call, end to end

  /** The attribute a call names: the key under 0, the schema's under 1 and up. */
  function NamedBy(space: Space, attr: nat): Name
    requires attr <= |space.attributes|
  {
    ([space.keyAttribute] + seq(|space.attributes|, i requires 0 <= i < |space.attributes| => space.attributes[i].name))[attr]
  }

  /** A call with an integer operand puts the result of its operation into the
      attribute it names, a missing one counting as zero, and nothing else. */
  lemma IntegerCallStores(round: Rounding, space: Space, attributes: Attributes, attr: u16, name: byte, operand: i64)
    requires 0 < attr <= |space.attributes| && space.attributes[attr - 1].kind.KInt? && 4 <= name <= 13
    ensures var f, at := Funcall(attr, name, LeI64(operand), 9218, [], 0), NamedBy(space, attr);
      var current := if at in attributes then attributes[at] else Int(0);
      && IntegerCall(space, f)
      && ApplyFuncall(round, space, attributes, f)
         == if !current.Int? || IntegerFuncall(name, current.i, operand).None? then None
            else Some(attributes[at := Int(IntegerFuncall(name, current.i, operand).value)])
  {
    hide LeI64, DecodeI64, IntegerFuncall;
    I64RoundTrip(operand, []);
    assert LeI64(operand) + [] == LeI64(operand);
  }

  /** An operand tagged as a float is rounded; any other tag is no operand. */
  lemma TaggedOperands(round: Rounding, attr: u16, name: byte, bits: u64, tag: u16, arg: Bytes)
    ensures DirectOperand(round, Funcall(attr, name, Le(bits, 8), 9219, [], 0)) == Some(round(bits))
    ensures tag != 9218 && tag != 9219 ==> DirectOperand(round, Funcall(attr, name, arg, tag, [], 0)) == None
  {
    hide Le, DecodeF64, DecodeI64;
    F64RoundTrip(bits, []);
    assert Le(bits, 8) + [] == Le(bits, 8);
  }

  /** Function 1 assigns what its operand's bytes are under their tag; here an
      integer and a byte string in a list. */
  lemma AssignmentStores(round: Rounding, space: Space, attributes: Attributes, attr: u16, i: i64)
    requires attr <= |space.attributes|
    ensures var f := Funcall(attr, 1, LeI64(i), 9218, [], 0);
      IntegerCall(space, f) && ApplyFuncall(round, space, attributes, f) == Some(attributes[NamedBy(space, attr) := Int(i)])
    ensures var f := Funcall(attr, 1, [], 9280, [], 0);
      IntegerCall(space, f) && ApplyFuncall(round, space, attributes, f) == Some(attributes[NamedBy(space, attr) := List([])])
  {
    hide LeI64, DecodeI64;
    I64RoundTrip(i, []);
    assert LeI64(i) + [] == LeI64(i);
    assert OperandValue(9280, []) == Some(List([]));
  }

  /** The key is attribute 0 and a plain byte string to the calls. */
  lemma KeyIsAttributeZero(space: Space, attr: u16)
    ensures AttributeAt(space, 0).Some? && AttributeAt(space, 0).value == AttributeDefinition(NamedBy(space, 0), KBytes)
    ensures AttributeAt(space, attr).Some? <==> attr <= |space.attributes|
    ensures 0 < attr <= |space.attributes| ==> AttributeAt(space, attr).value.name == NamedBy(space, attr)
  {
  }
}
