module JavaInt {

  newtype int32 = x: int | -0x8000_0000 <= x < 0x8000_0000

  const MinInt: int := -0x8000_0000
  const MaxInt: int := 0x7fff_ffff

  /** Java's `x++` on an `int`: one more, reduced into the `int` range modulo 2^32. */
  function Inc(x: int32): (r: int32)
    ensures r as int == (x as int + 1 - MinInt) % 0x1_0000_0000 + MinInt
  {
    if x as int == MaxInt then MinInt as int32 else x + 1
  }

  /** The value an `int` counter holds after `n` increments from zero. */
  function Wrap(n: nat): (r: int32)
    ensures n <= MaxInt ==> r as int == n
  {
    if n == 0 then 0 else Inc(Wrap(n - 1))
  }

  /** The counter's value is `n` reduced into the `int` range modulo 2^32. */
  lemma {:induction false} WrapModulo(n: nat)
    ensures Wrap(n) as int == (n - MinInt) % 0x1_0000_0000 + MinInt
  {
    if n > 0 {
      WrapModulo(n - 1);
      var k := (n - 1 - MinInt) % 0x1_0000_0000;
      var q := (n - 1 - MinInt) / 0x1_0000_0000;
      assert n - 1 - MinInt == q * 0x1_0000_0000 + k;
      if k == 0xffff_ffff {
        assert n - MinInt == (q + 1) * 0x1_0000_0000;
      } else {
        assert n - MinInt == q * 0x1_0000_0000 + (k + 1);
      }
    }
  }
}
