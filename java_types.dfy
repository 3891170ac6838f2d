/** Java's primitive value semantics as the legacy loader and the game helpers use them:
    unsigned bytes, 32-bit two's-complement ints with wrap-around, truncating division,
    and the three outcomes of a Java call (a value, null, or an exception). */
module JavaTypes {

  /** A Java `byte` after `& 0xFF`. The source only ever masks bytes or compares them
      with byte constants, so the unsigned reading loses nothing. */
  type byte = b: int | 0 <= b < 256

  const TWO_32: int := 0x1_0000_0000
  const MIN: int := -0x8000_0000
  const MAX: int := 0x7fff_ffff

  /** A Java `int`. */
  type int32 = x: int | MIN <= x <= MAX

  /** A Java `byte[]`: its length is itself an `int`. */
  type ByteArray = s: seq<byte> | |s| <= MAX

  datatype Option<+T> = None | Some(value: T)

  /** What a Java call can end with: a value, `null`, or a thrown exception. */
  datatype JResult<+T> = Ok(value: T) | Null | Raised

  function Min(a: int, b: int): int { if a <= b then a else b }

  function Abs(a: int): nat { if a < 0 then -a else a }

  /** The `int` Java computes for the mathematical value `x`: two's-complement wrap-around. */
  function Wrap(x: int): (r: int32)
    ensures (x - r) % TWO_32 == 0
    ensures MIN <= x <= MAX ==> r == x
  {
    if MIN <= x <= MAX then x else (x - MIN) % TWO_32 + MIN
  }

  /** Java's `a / b` on ints: rounds toward zero (Dafny's `/` is Euclidean), and
      `MIN / -1` wraps back to `MIN`. */
  function JDiv(a: int32, b: int32): (r: int32)
    requires b != 0
    ensures b > 0 && a >= 0 ==> r == a / b
    ensures b > 0 && a < 0 ==> r == -(Abs(a) / b)
  {
    var q := Abs(a) / Abs(b);
    QuotientBound(Abs(a), Abs(b));
    if (a < 0) == (b < 0) then Wrap(q) else -q
  }

  lemma QuotientBound(x: nat, y: nat)
    requires y > 0
    ensures 0 <= x / y <= x
  {
    var q := x / y;
    assert q >= 0;
    assert q * y + x % y == x;
    MulAtLeast(q, y);
  }

  lemma MulAtLeast(q: nat, y: nat)
    requires y > 0
    ensures q * y >= q
  {
    assert q * y - q == q * (y - 1);
  }

  /** Two int32 values congruent modulo 2^32 are equal. */
  lemma WrapUnique(x: int, r: int32)
    requires (x - r) % TWO_32 == 0
    ensures Wrap(x) == r
  {
    var w := Wrap(x);
    var a := (x - w) / TWO_32;
    var b := (x - r) / TWO_32;
    assert x - w == TWO_32 * a;
    assert x - r == TWO_32 * b;
    assert r - w == TWO_32 * (a - b);
  }

  /** Adding to an already wrapped value wraps like adding to the original one:
      Java's int arithmetic is arithmetic modulo 2^32. */
  lemma WrapAdd(a: int, b: int)
    ensures Wrap(Wrap(a) + b) == Wrap(a + b)
  {
    var r := Wrap(a + b);
    var i := (a - Wrap(a)) / TWO_32;
    var j := (a + b - r) / TWO_32;
    assert a - Wrap(a) == TWO_32 * i;
    assert a + b - r == TWO_32 * j;
    assert Wrap(a) + b - r == TWO_32 * (j - i);
    WrapUnique(Wrap(a) + b, r);
  }

  /** The value of `v` read as an unsigned 32-bit pattern. */
  function Unsigned(v: int32): (u: int)
    ensures 0 <= u < TWO_32 && Wrap(u) == v
  {
    if v < 0 then
      WrapUnique(v + TWO_32, v);
      v + TWO_32
    else v
  }

  /** The int whose four bytes, least significant first, are `b0`, `b1`, `b2`, `b3`:
      `b0 | b1 << 8 | b2 << 16 | b3 << 24`. The fields do not overlap, so the ORs are sums. */
  function Word(b0: byte, b1: byte, b2: byte, b3: byte): int32
  {
    var u := b0 as int + 0x100 * (b1 as int) + 0x1_0000 * (b2 as int) + 0x100_0000 * (b3 as int);
    if b3 < 0x80 then u else u - TWO_32
  }

  /** `Word` is the wrapped sum of its shifted bytes. */
  lemma WordIsWrappedSum(b0: byte, b1: byte, b2: byte, b3: byte)
    ensures Word(b0, b1, b2, b3) ==
      Wrap(b0 as int + 0x100 * (b1 as int) + 0x1_0000 * (b2 as int) + 0x100_0000 * (b3 as int))
  {
    var u := b0 as int + 0x100 * (b1 as int) + 0x1_0000 * (b2 as int) + 0x100_0000 * (b3 as int);
    if b3 >= 0x80 {
      assert (u - (u - TWO_32)) % TWO_32 == 0;
      WrapUnique(u, u - TWO_32);
    }
  }

  /** Byte `k` (0 = least significant) of `v`: `(v >>> 8k) & 0xFF`. */
  function ByteOf(v: int32, k: nat): byte
    requires k < 4
  {
    var u := Unsigned(v);
    if k == 0 then u % 0x100
    else if k == 1 then (u / 0x100) % 0x100
    else if k == 2 then (u / 0x1_0000) % 0x100
    else (u / 0x100_0000) % 0x100
  }

  lemma {:induction false} DigitsOfSum(u: int, b0: byte, b1: byte, b2: byte, b3: byte)
    requires u == b0 as int + 0x100 * (b1 as int) + 0x1_0000 * (b2 as int) + 0x100_0000 * (b3 as int)
    ensures u % 0x100 == b0 && (u / 0x100) % 0x100 == b1
    ensures (u / 0x1_0000) % 0x100 == b2 && (u / 0x100_0000) % 0x100 == b3
  {
    var q1 := b1 as int + 0x100 * (b2 as int) + 0x1_0000 * (b3 as int);
    assert u == b0 + 0x100 * q1;
    assert u / 0x100 == q1;
    var q2 := b2 as int + 0x100 * (b3 as int);
    assert q1 == b1 + 0x100 * q2;
    assert u / 0x1_0000 == q2 by {
      assert u == (b0 as int + 0x100 * (b1 as int)) + 0x1_0000 * q2;
    }
    assert u / 0x100_0000 == b3 by {
      assert u == (b0 as int + 0x100 * (b1 as int) + 0x1_0000 * (b2 as int)) + 0x100_0000 * (b3 as int);
    }
  }

  lemma {:induction false} SumOfDigits(u: int)
    requires 0 <= u < TWO_32
    ensures u == u % 0x100 + 0x100 * ((u / 0x100) % 0x100)
               + 0x1_0000 * ((u / 0x1_0000) % 0x100) + 0x100_0000 * ((u / 0x100_0000) % 0x100)
  {
    var q1 := u / 0x100;
    var q2 := q1 / 0x100;
    var q3 := q2 / 0x100;
    assert u == u % 0x100 + 0x100 * q1;
    assert q1 == q1 % 0x100 + 0x100 * q2;
    assert q2 == q2 % 0x100 + 0x100 * q3;
    assert u / 0x1_0000 == q2;
    assert u / 0x100_0000 == q3;
    assert q3 < 0x100;
  }

  /** Taking a word apart gives back the bytes it was built from. */
  lemma {:induction false} WordBytes(b0: byte, b1: byte, b2: byte, b3: byte)
    ensures var w := Word(b0, b1, b2, b3);
      ByteOf(w, 0) == b0 && ByteOf(w, 1) == b1 && ByteOf(w, 2) == b2 && ByteOf(w, 3) == b3
  {
    var sum := b0 as int + 0x100 * (b1 as int) + 0x1_0000 * (b2 as int) + 0x100_0000 * (b3 as int);
    var w := Word(b0, b1, b2, b3);
    assert Unsigned(w) == sum;
    DigitsOfSum(sum, b0, b1, b2, b3);
  }

  /** Building a word from the bytes of `v` gives back `v`. */
  lemma {:induction false} BytesWord(v: int32)
    ensures Word(ByteOf(v, 0), ByteOf(v, 1), ByteOf(v, 2), ByteOf(v, 3)) == v
  {
    SumOfDigits(Unsigned(v));
  }
}
