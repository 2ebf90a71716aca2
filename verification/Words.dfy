/** Numbers of the widths that the machine has. */
module Words {

  const TwoTo64: int := 0x1_0000_0000_0000_0000

  type u32 = x: int | 0 <= x < 0x1_0000_0000
  type u64 = x: int | 0 <= x < 0x1_0000_0000_0000_0000

  type Addr = u64

  /** Addresses and 64-bit registers wrap around. */
  function Wrap(x: int): (a: u64) { x % TwoTo64 }

  /** One of `m` values read as a signed number. */
  function Signed(x: int, m: int): int { if x < m / 2 then x else x - m }

  lemma WrapAdd(a: int, b: int)
    ensures Wrap(Wrap(a) + b) == Wrap(a + b)
  {
    var q := a / TwoTo64;
    assert a == q * TwoTo64 + Wrap(a);
    WrapTimes(Wrap(a) + b, q);
  }

  lemma WrapTimes(x: int, q: int)
    ensures Wrap(x + q * TwoTo64) == Wrap(x)
  {
  }

  /** The LONG64 difference of two pointers. */
  function Delta(to: Addr, from: Addr): int { Signed(Wrap(to - from), TwoTo64) }

  lemma DeltaReaches(to: Addr, from: Addr)
    ensures Wrap(from + Delta(to, from)) == to
    ensures to % 4 == 0 && from % 4 == 0 ==> Delta(to, from) % 4 == 0
    ensures -TwoTo64 / 2 <= Delta(to, from) < TwoTo64 / 2
  {
    if to >= from {
      assert Wrap(to - from) == to - from;
    } else {
      assert Wrap(to - from) == to - from + TwoTo64;
    }
  }

  lemma DeltaOf(from: Addr, d: int)
    requires -TwoTo64 / 2 <= d < TwoTo64 / 2
    ensures Delta(Wrap(from + d), from) == d
  {
    var to := Wrap(from + d);
    var k := (from + d) / TwoTo64;
    assert to - from == d - k * TwoTo64;
    WrapTimes(d, -k);
    if d < 0 { assert Wrap(d) == d + TwoTo64; } else { assert Wrap(d) == d; }
  }

  lemma Remainder(x: int, m: int, q: int, r: int)
    requires m > 0 && x == q * m + r && 0 <= r < m
    ensures x % m == r
  {
    var k := x / m - q;
    assert k * m == r - x % m;
    MultipleGrows(k, m);
  }

  lemma MultipleGrows(k: int, m: int)
    requires m > 0
    ensures (k >= 1 ==> k * m >= m) && (k <= -1 ==> k * m <= -m)
  {
  }
}
