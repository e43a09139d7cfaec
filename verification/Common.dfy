/** Types shared by the other modules. */
module Common {

  datatype Option<+T> = None | Some(value: T)

  datatype Result<+T, +E> = Ok(value: T) | Err(error: E)

  /** Java's byte */
  newtype int8 = x: int | -0x80 <= x < 0x80

  /** `b & 0xff` */
  function Octet(b: int8): (o: nat)
    ensures o < 0x100
    ensures o == if b < 0 then b as int + 0x100 else b as int
  {
    b as int % 0x100
  }

  /** Java's int */
  newtype int32 = x: int | -0x8000_0000 <= x < 0x8000_0000

  /** An int by its bits, read without a sign. */
  type Word = x: int | 0 <= x < 0x1_0000_0000

  /** The bits of an int. */
  function Unsigned(x: int32): (w: Word)
    ensures w == x as int % 0x1_0000_0000
  {
    if x < 0 then x as int + 0x1_0000_0000 else x as int
  }

  /** The low 32 bits of an integer, read as a signed int: overflow of int arithmetic, and casts from long. */
  function Wrap(x: int): (w: int32)
    ensures -0x8000_0000 <= x < 0x8000_0000 ==> w as int == x
    ensures Unsigned(w) == x % 0x1_0000_0000
  {
    var low := x % 0x1_0000_0000;
    (if low < 0x8000_0000 then low else low - 0x1_0000_0000) as int32
  }

  lemma WrapAdds(n: int, k: int)
    ensures Wrap(Wrap(n) as int + k) == Wrap(n + k)
  {
    var w := Wrap(n) as int;
    assert w % 0x1_0000_0000 == n % 0x1_0000_0000;
    assert (w + k) % 0x1_0000_0000 == (n + k) % 0x1_0000_0000;
  }
}
