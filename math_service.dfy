/**
  The arithmetic problem generator of server/services/mathService.js.
  Each `Math.random()` draw is a fraction num/den in [0, 1), so that
  `Math.floor(Math.random() * n)` is the integer `num * n / den`.
*/
module MathService {
  import opened Wrappers

  datatype Kind = Addition | Subtraction | Multiplication | Division

  /** The four kinds, in the order the generator indexes them. */
  const Kinds: seq<Kind> := [Addition, Subtraction, Multiplication, Division]

  datatype Problem = Problem(kind: Kind, operand1: int, operand2: int, answer: int)

  /** A value of Math.random(): num/den with 0 <= num < den. */
  datatype Ratio = Ratio(num: nat, den: nat)
  type Fraction = f: Ratio | f.num < f.den witness Ratio(0, 1)

  /** The three draws one call makes: the kind, then the two operand draws. */
  datatype Draws = Draws(kind: Fraction, first: Fraction, second: Fraction)

  /** The sign of a product with a positive factor follows the other factor. */
  lemma MulSign(b: int, k: int)
    requires b > 0
    ensures k >= 1 ==> b * k >= b
    ensures k >= 0 ==> b * k >= 0
    ensures k <= -1 ==> b * k <= -b
  {
  }

  /** Multiplying by b and dividing by b again is exact. */
  lemma MulDivCancel(b: int, q: int)
    requires b > 0
    ensures (b * q) / b == q && (b * q) % b == 0
  {
    var t, r := (b * q) / b, (b * q) % b;
    assert b * q == b * t + r && 0 <= r < b;
    assert b * (q - t) == r;
    MulSign(b, q - t);
  }

  lemma ScaledBelow(a: nat, d: nat, n: nat)
    requires a < d
    ensures n > 0 ==> a * n / d < n
  {
    if n > 0 {
      var q := a * n / d;
      assert a * n == d * q + a * n % d;
      MulSign(n, d - a);
      assert d * (q - n) == d * q - d * n;
      MulSign(d, q - n);
    }
  }

  /** Math.floor(Math.random() * n): a uniform choice among 0 .. n-1. */
  function Pick(f: Fraction, n: nat): (k: nat)
    ensures n == 0 ==> k == 0
    ensures n > 0 ==> k < n
  {
    ScaledBelow(f.num, f.den, n);
    f.num * n / f.den
  }

  /** The operand and answer ranges the generator guarantees for each kind. */
  predicate WellFormed(p: Problem) {
    match p.kind
    case Addition =>
      1 <= p.operand1 <= 50 && 1 <= p.operand2 <= 50 && p.answer == p.operand1 + p.operand2
    case Subtraction =>
      50 <= p.operand1 <= 99 && 0 <= p.operand2 < p.operand1 && p.answer == p.operand1 - p.operand2
    case Multiplication =>
      1 <= p.operand1 <= 12 && 1 <= p.operand2 <= 12 && p.answer == p.operand1 * p.operand2
    case Division =>
      1 <= p.operand2 <= 10 && 1 <= p.answer <= 10 && p.operand1 == p.operand2 * p.answer
  }

  /** What the problem's operation gives on its operands; a division only when it is exact. */
  function Evaluate(kind: Kind, a: int, b: int): Option<int> {
    match kind
    case Addition => Some(a + b)
    case Subtraction => Some(a - b)
    case Multiplication => Some(a * b)
    case Division => if b != 0 && a % b == 0 then Some(a / b) else None
  }

  /** generateProblem(): choose a kind, then draw operands so that the answer is exact. */
  function GenerateProblem(d: Draws): (p: Problem)
    ensures p.kind == Kinds[Pick(d.kind, |Kinds|)]
    ensures WellFormed(p)
  {
    match Kinds[Pick(d.kind, |Kinds|)]
    case Addition =>
      var a := Pick(d.first, 50) + 1;
      var b := Pick(d.second, 50) + 1;
      Problem(Addition, a, b, a + b)
    case Subtraction =>
      var a := Pick(d.first, 50) + 50;
      var b := Pick(d.second, a);
      Problem(Subtraction, a, b, a - b)
    case Multiplication =>
      var a := Pick(d.first, 12) + 1;
      var b := Pick(d.second, 12) + 1;
      Problem(Multiplication, a, b, a * b)
    case Division =>
      var divisor := Pick(d.first, 10) + 1;
      var quotient := Pick(d.second, 10) + 1;
      Problem(Division, divisor * quotient, divisor, quotient)
  }

  /** A division problem divides exactly, and its quotient is the answer. */
  lemma {:induction false} DivisionExact(p: Problem)
    requires WellFormed(p) && p.kind == Division
    ensures p.operand1 % p.operand2 == 0 && p.operand1 / p.operand2 == p.answer
  {
    MulDivCancel(p.operand2, p.answer);
  }

  /** Applying a well-formed problem's operation to its operands gives exactly its answer. */
  lemma {:induction false} WellFormedIsExact(p: Problem)
    requires WellFormed(p)
    ensures Evaluate(p.kind, p.operand1, p.operand2) == Some(p.answer)
  {
    if p.kind == Division {
      DivisionExact(p);
    }
  }

  /** Every generated problem is exact. */
  lemma GeneratedIsExact(d: Draws)
    ensures var p := GenerateProblem(d); Evaluate(p.kind, p.operand1, p.operand2) == Some(p.answer)
  {
    WellFormedIsExact(GenerateProblem(d));
  }

  lemma {:induction false} PickAt(i: nat, n: nat)
    requires i < n
    ensures Pick(Ratio(i, n), n) == i
  {
    assert i * n == n * i;
    MulDivCancel(n, i);
  }

  /** The ranges of WellFormed are tight: every well-formed problem is generated by some draws. */
  lemma {:induction false} WellFormedIsReachable(p: Problem)
    requires WellFormed(p)
    ensures exists d: Draws :: GenerateProblem(d) == p
  {
    var k := match p.kind
      case Addition => 0
      case Subtraction => 1
      case Multiplication => 2
      case Division => 3;
    PickAt(k, 4);
    var kind: Fraction := Ratio(k, 4);
    match p.kind
    case Addition =>
      PickAt(p.operand1 - 1, 50);
      PickAt(p.operand2 - 1, 50);
      var d := Draws(kind, Ratio(p.operand1 - 1, 50), Ratio(p.operand2 - 1, 50));
      assert GenerateProblem(d) == p;
    case Subtraction =>
      PickAt(p.operand1 - 50, 50);
      PickAt(p.operand2, p.operand1);
      var d := Draws(kind, Ratio(p.operand1 - 50, 50), Ratio(p.operand2, p.operand1));
      assert GenerateProblem(d) == p;
    case Multiplication =>
      PickAt(p.operand1 - 1, 12);
      PickAt(p.operand2 - 1, 12);
      var d := Draws(kind, Ratio(p.operand1 - 1, 12), Ratio(p.operand2 - 1, 12));
      assert GenerateProblem(d) == p;
    case Division =>
      PickAt(p.operand2 - 1, 10);
      PickAt(p.answer - 1, 10);
      var d := Draws(kind, Ratio(p.operand2 - 1, 10), Ratio(p.answer - 1, 10));
      assert GenerateProblem(d) == p;
  }
}
