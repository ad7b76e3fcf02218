// Fixed-width integers and sizes of the VM, and the arithmetic of its binary and
// unary opcodes.
module Arith {
  import opened Bits

  datatype Option<+T> = None | Some(value: T) {
    function GetOr(default: T): T { if Some? then value else default }
  }

  const M8: int := 0x100
  const M16: int := 0x1_0000
  const M24: int := 0x100_0000
  const M32: int := 0x1_0000_0000

  type Byte = x: int | 0 <= x < 0x100
  type U16 = x: int | 0 <= x < 0x1_0000
  type U32 = x: int | 0 <= x < 0x1_0000_0000
  /** v4_i32: one stack cell. */
  type Cell = x: int | -0x8000_0000 <= x < 0x8000_0000

  /** Cells in the data-stack and return-stack arrays. */
  const DS_SIZE := 256
  const RS_SIZE := 64

  /** Slots of the task table. */
  const MAX_TASKS := 8

  const TRUE: Cell := -1
  const FALSE: Cell := 0

  /** The cell congruent to x modulo 2^32 (two's complement wrap-around). */
  function Wrap(x: int): (r: Cell)
    ensures (r - x) % M32 == 0
  {
    var u := x % M32;
    if u >= 0x8000_0000 then u - M32 else u
  }

  function ToU32(x: Cell): (u: U32)
    ensures (u - x) % M32 == 0
  {
    if x < 0 then x + M32 else x
  }

  /** The value of the low `bits` bits of x read as a signed number (8, 16 or 32 bits). */
  function SignExtend(x: int, modulus: int): (r: int)
    requires modulus > 0 && modulus % 2 == 0 && 0 <= x < modulus
    ensures -(modulus / 2) <= r < modulus / 2
    ensures r == x || r == x - modulus
  {
    if x >= modulus / 2 then x - modulus else x
  }

  /** C++ integer division truncates toward zero. */
  function TruncDiv(a: int, b: int): int
    requires b != 0
  {
    var q := Abs(a) / Abs(b);
    if (a < 0) == (b < 0) then q else -q
  }

  function TruncMod(a: int, b: int): int
    requires b != 0
  {
    var m := Abs(a) % Abs(b);
    if a < 0 then -m else m
  }

  function Abs(x: int): nat { if x < 0 then -x else x }

  function Truth(b: bool): Cell { if b then TRUE else FALSE }

  datatype BinOp =
    | Add | Sub | Mul | Div | Mod | DivU | ModU
    | Eq | Ne | Lt | Le | Gt | Ge | LtU | LeU
    | BitAnd | BitOr | BitXor | Shl | Shr | Sar

  datatype UnOp = Inc | Dec | Invert

  /** a OP b, where b was on top of the stack; None is a division by zero. */
  function Alu(op: BinOp, a: Cell, b: Cell): Option<Cell>
  {
    match op
    case Add => Some(Wrap(a + b))
    case Sub => Some(Wrap(a - b))
    case Mul => Some(Wrap(a * b))
    case Div => if b == 0 then None else Some(Wrap(TruncDiv(a, b)))
    case Mod => if b == 0 then None else Some(Wrap(TruncMod(a, b)))
    case DivU => if b == 0 then None else Some(Wrap(ToU32(a) / ToU32(b)))
    case ModU => if b == 0 then None else Some(Wrap(ToU32(a) % ToU32(b)))
    case Eq => Some(Truth(a == b))
    case Ne => Some(Truth(a != b))
    case Lt => Some(Truth(a < b))
    case Le => Some(Truth(a <= b))
    case Gt => Some(Truth(a > b))
    case Ge => Some(Truth(a >= b))
    case LtU => Some(Truth(ToU32(a) < ToU32(b)))
    case LeU => Some(Truth(ToU32(a) <= ToU32(b)))
    case BitAnd => Some(Wrap(And(ToU32(a), ToU32(b))))
    case BitOr => Some(Wrap(Or(ToU32(a), ToU32(b))))
    case BitXor => Some(Wrap(Xor(ToU32(a), ToU32(b))))
    case Shl => Some(Wrap(a * Pow2(b % 32)))
    case Shr => Some(Wrap(ToU32(a) / Pow2(b % 32)))
    case Sar => Some(Wrap(a / Pow2(b % 32)))
  }

  function Unary(op: UnOp, a: Cell): Cell
  {
    match op
    case Inc => Wrap(a + 1)
    case Dec => Wrap(a - 1)
    case Invert => Wrap(-1 - a)
  }

  /** Truncating division: the division equation, a remainder smaller than the
      divisor, and a remainder that never has the opposite sign of the dividend. */
  lemma TruncDivision(a: int, b: int)
    requires b != 0
    ensures a == b * TruncDiv(a, b) + TruncMod(a, b)
    ensures Abs(TruncMod(a, b)) < Abs(b)
    ensures TruncMod(a, b) == 0 || (TruncMod(a, b) < 0) == (a < 0)
  {
    var q, m := Abs(a) / Abs(b), Abs(a) % Abs(b);
    assert Abs(a) == Abs(b) * q + m;
    if b < 0 {
      assert b * -q == Abs(b) * q;
    } else {
      assert b * -q == -(Abs(b) * q);
    }
  }

  lemma WrapFits(x: int)
    ensures Wrap(x) == x <==> -0x8000_0000 <= x < 0x8000_0000
  {}

  /** On cells, DIV overflows for one pair of operands only. */
  lemma DivisionFits(a: Cell, b: Cell)
    requires b != 0
    ensures Wrap(TruncMod(a, b)) == TruncMod(a, b)
    ensures Wrap(TruncDiv(a, b)) == TruncDiv(a, b) <==> !(a == -0x8000_0000 && b == -1)
  {
    hide Wrap;
    QuotientShrinks(Abs(a), Abs(b));
    WrapFits(TruncDiv(a, b));
    WrapFits(TruncMod(a, b));
  }

  lemma QuotientShrinks(x: nat, d: nat)
    requires d > 0
    ensures x % d <= x && x / d <= x
    ensures d >= 2 ==> 2 * (x / d) <= x
    ensures d == 1 ==> x / d == x
  {
    Division(x, d);
    ProductGrows(x / d, d);
  }

  lemma {:induction false} ProductGrows(q: nat, d: nat)
    requires d > 0
    ensures q * d >= q
    ensures d >= 2 ==> q * d >= 2 * q
  {
    if q > 0 {
      ProductGrows(q - 1, d);
      assert q * d == (q - 1) * d + d;
    }
  }
}
