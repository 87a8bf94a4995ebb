/** Machine words shared by the driver model, and the option type. */
module Words {

  const TWO_32: int := 0x1_0000_0000

  const UINT_MAX: int := 0xFFFF_FFFF

  /** An unsigned 32-bit value; every wrap-around is written out with `Wrap`. */
  type u32 = x: int | 0 <= x < TWO_32

  type byte = x: int | 0 <= x < 256

  datatype Option<+T> = None | Some(value: T)

  /** Reduction of an exact integer result to 32 bits. */
  function Wrap(x: int): (r: u32) {
    x % TWO_32
  }

  /** Wrapping a summand first makes no difference. */
  lemma WrapAdd(a: nat, b: nat)
    ensures Wrap(Wrap(a) + b) == Wrap(a + b)
  {
    var m := a / TWO_32;
    assert a == TWO_32 * m + Wrap(a);
    WrapOff(Wrap(a) + b, m);
  }

  lemma {:induction false} WrapOff(x: nat, m: nat)
    ensures Wrap(x + TWO_32 * m) == Wrap(x)
  {
    if m == 0 {
    } else {
      WrapOff(x, m - 1);
    }
  }

  lemma WrapSmall(x: int)
    requires 0 <= x < TWO_32
    ensures Wrap(x) == x
  {
  }
}
