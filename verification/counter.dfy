/**
 * The counter: a 32-bit signed count with an Increase and a Reset button.
 * Increasing past the largest value wraps around to the smallest, as the
 * platform's 32-bit integers do.
 */
module Counter {

  const MinInt: int := -0x8000_0000
  const MaxInt: int := 0x7fff_ffff
  const Modulus: int := 0x1_0000_0000

  type Int32 = x: int | MinInt <= x <= MaxInt

  /** The 32-bit two's-complement value congruent to `x`. */
  function Wrap(x: int): (r: Int32)
    ensures (r - x) % Modulus == 0
  {
    var m := x % Modulus;
    if m > MaxInt then m - Modulus else m
  }

  /** The Increase button. */
  function Increase(c: Int32): (r: Int32)
    ensures c < MaxInt ==> r == c + 1
    ensures c == MaxInt ==> r == MinInt
  {
    if c == MaxInt then MinInt else c + 1
  }

  /** The Reset button: the count goes back to 0 whatever it was. */
  function Reset(c: Int32): (r: Int32)
    ensures r == 0
  {
    0
  }

  /** The count after `n` presses of Increase starting from `c`. */
  function Presses(c: Int32, n: nat): Int32
    decreases n
  {
    if n == 0 then c else Increase(Presses(c, n - 1))
  }

  /** Increase is addition of one in 32-bit two's-complement arithmetic. */
  lemma IncreaseIsWrappedAdd(c: Int32)
    ensures Increase(c) == Wrap(c + 1)
  {
  }

  /** After a reset, the count shows how many times Increase was pressed, as
      long as that number fits in 32 bits. */
  lemma {:induction false} CountsPresses(c: Int32, n: nat)
    requires n <= MaxInt
    ensures Presses(Reset(c), n) == n
    decreases n
  {
    if n != 0 {
      CountsPresses(c, n - 1);
    }
  }

  /** In general, `n` presses add `n` modulo 2^32. */
  lemma {:induction false} PressesAreWrappedAdd(c: Int32, n: nat)
    ensures Presses(c, n) == Wrap(c + n)
    decreases n
  {
    if n != 0 {
      PressesAreWrappedAdd(c, n - 1);
      var p := Presses(c, n - 1);
      assert p == Wrap(c + n - 1);
      WrapSucc(c + n - 1);
    }
  }

  lemma WrapSucc(x: int)
    ensures Increase(Wrap(x)) == Wrap(x + 1)
  {
    var m := x % Modulus;
    if m == Modulus - 1 {
      assert (x + 1) % Modulus == 0;
    } else {
      assert (x + 1) % Modulus == m + 1;
    }
  }
}
