/** The integer widths of the driver: every C operation that can wrap is written with one of these. */
module Machine {

  /** `int` positions and sizes of the driver stay below this. */
  const LIMIT: int := 0x8000_0000

  function U8(x: int): (r: nat)
    ensures r < 0x100
    ensures 0 <= x < 0x100 ==> r == x
  {
    x % 0x100
  }

  function U32(x: int): (r: nat)
    ensures r < 0x1_0000_0000
    ensures 0 <= x < 0x1_0000_0000 ==> r == x
  {
    x % 0x1_0000_0000
  }

  function S32(x: int): (r: int)
    ensures -LIMIT <= r < LIMIT
    ensures -LIMIT <= x < LIMIT ==> r == x
  {
    (x + LIMIT) % 0x1_0000_0000 - LIMIT
  }

  function U64(x: int): (r: nat)
    ensures r < 0x1_0000_0000_0000_0000
    ensures 0 <= x < 0x1_0000_0000_0000_0000 ==> r == x
    ensures -LIMIT <= x < 0 ==> r == x + 0x1_0000_0000_0000_0000
  {
    x % 0x1_0000_0000_0000_0000
  }

  /** `w_abs` (32 bits, wrapping) and `in_offs` (reset at ten) after n commits, from the driver's own updates. */
  function Counters(n: nat): (nat, nat) {
    if n == 0 then (0, 0)
    else
      var (wAbs, inOffs) := Counters(n - 1);
      (U32(wAbs + 1), if U8(inOffs + 1) >= 10 then 0 else U8(inOffs + 1))
  }

  lemma {:induction false} CountersValue(n: nat)
    ensures Counters(n).0 == n % 0x1_0000_0000
    ensures Counters(n).1 == n % 10
  {
    if n > 0 {
      CountersValue(n - 1);
      NextMod32(n - 1);
      NextMod10(n - 1);
    }
  }

  lemma {:induction false} NextMod32(n: nat)
    ensures U32(n % 0x1_0000_0000 + 1) == (n + 1) % 0x1_0000_0000
  {
  }

  lemma {:induction false} NextMod10(n: nat)
    ensures (n + 1) % 10 == if n % 10 + 1 >= 10 then 0 else n % 10 + 1
    ensures U8(n % 10 + 1) == n % 10 + 1
  {
  }

  /** 2^32 leaves 6 when divided by ten, so q wraps shift the slot by 6q. */
  lemma {:induction false} WrapShift(q: nat, r: nat)
    ensures (q * 0x1_0000_0000 + r) % 10 == (6 * q + r) % 10
  {
    assert q * 0x1_0000_0000 + r == 10 * (q * 429496729) + (6 * q + r);
  }

  /** The slot the driver writes (`w_abs % 10`) is the slot `in_offs` names, except that every
      32-bit wrap of `w_abs` shifts one against the other by six, and five wraps make it good. */
  lemma {:induction false} CountersInStepIff(n: nat)
    ensures Counters(n).0 % 10 == Counters(n).1 <==> (n / 0x1_0000_0000) % 5 == 0
  {
    CountersValue(n);
    var q, r := n / 0x1_0000_0000, n % 0x1_0000_0000;
    assert n % 10 == (6 * q + r) % 10 by { WrapShift(q, r); }
    SixTimes(q, r);
  }

  lemma {:induction false} SixTimes(q: nat, r: nat)
    ensures r % 10 == (6 * q + r) % 10 <==> q % 5 == 0
  {
    var t, u := q / 5, q % 5;
    assert 6 * q + r == 10 * (3 * t) + (6 * u + r);
    assert (6 * q + r) % 10 == (6 * u + r) % 10;
  }
}
