/**
 Go's built-in types and operators as the decoder uses them: the unsigned
 8-bit `byte`, `string` as an immutable sequence of bytes, and the integer
 quotient and remainder, which Go truncates toward zero (Dafny's `/` and `%`
 are Euclidean).
 */
module GoTypes {

  /** Go's `byte` (`uint8`). */
  newtype byte = b: int | 0 <= b < 256

  /** Go's `string`: an immutable sequence of bytes. */
  type GoString = seq<byte>

  predicate IsAscii(s: string) {
    forall i :: 0 <= i < |s| ==> s[i] as int < 128
  }

  /** The bytes of an ASCII Go string literal. */
  function Text(s: string): (r: GoString)
    requires IsAscii(s)
    ensures |r| == |s|
    ensures forall i :: 0 <= i < |s| ==> r[i] as int == s[i] as int
  {
    if s == [] then [] else [s[0] as int as byte] + Text(s[1..])
  }

  function Abs(x: int): nat {
    if x < 0 then -x else x
  }

  /** Go's `a / b` on `int`: the quotient truncated toward zero. */
  function Quo(a: int, b: int): (q: int)
    requires b != 0
    ensures Abs(q) * Abs(b) <= Abs(a) < (Abs(q) + 1) * Abs(b)
    ensures q == 0 || ((q < 0) <==> ((a < 0) != (b < 0)))
  {
    var m := Abs(a) / Abs(b);
    var q := if (a < 0) == (b < 0) then m else -m;
    QuoBounds(a, b, q);
    q
  }

  lemma QuoBounds(a: int, b: int, q: int)
    requires b != 0 && Abs(q) == Abs(a) / Abs(b)
    ensures Abs(q) * Abs(b) <= Abs(a) < (Abs(q) + 1) * Abs(b)
  {
  }

  /**
   Go's `a % b` on `int`. The Go language specification defines it by
   `a == (a / b) * b + a % b` with `/` truncating, so the remainder takes
   the sign of the dividend.
   */
  function Rem(a: int, b: int): (r: int)
    requires b != 0
    ensures a == Quo(a, b) * b + r
    ensures Abs(r) < Abs(b)
    ensures r != 0 ==> ((r < 0) <==> (a < 0))
  {
    var m := Abs(a) % Abs(b);
    QuoRemIdentity(a, b);
    if a < 0 then -m else m
  }

  lemma QuoRemIdentity(a: int, b: int)
    requires b != 0
    ensures a == Quo(a, b) * b + (if a < 0 then -(Abs(a) % Abs(b)) else Abs(a) % Abs(b))
  {
  }

  /** Go's remainder is zero exactly when Dafny's Euclidean one is: both say `d` divides `n`. */
  lemma RemZeroIffEuclideanModZero(n: int, d: int)
    requires d != 0
    ensures Rem(n, d) == 0 <==> n % d == 0
  {
    if Abs(n) % Abs(d) == 0 {
      TruncatedZeroToEuclidean(n, d);
    }
    if n % d == 0 {
      EuclideanZeroToTruncated(n, d);
    }
  }

  lemma TruncatedZeroToEuclidean(n: int, d: int)
    requires d != 0 && Abs(n) % Abs(d) == 0
    ensures n % d == 0
  {
    var j := Abs(n) / Abs(d);
    assert Abs(n) == j * Abs(d);
    SignedMultiple(n, d, j);
    MultipleHasZeroMod(if (n < 0) == (d < 0) then j else -j, d);
  }

  lemma EuclideanZeroToTruncated(n: int, d: int)
    requires d != 0 && n % d == 0
    ensures Abs(n) % Abs(d) == 0
  {
    var k := n / d;
    assert n == k * d;
    AbsMul(k, d);
    MultipleHasZeroMod(Abs(k), Abs(d));
  }

  lemma SignedMultiple(n: int, d: int, j: int)
    requires d != 0 && Abs(n) == j * Abs(d)
    ensures n == (if (n < 0) == (d < 0) then j else -j) * d
  {
  }

  lemma AbsMul(a: int, b: int)
    ensures Abs(a * b) == Abs(a) * Abs(b)
  {
  }

  lemma MultipleHasZeroMod(k: int, d: int)
    requires d != 0
    ensures (k * d) % d == 0
  {
    var q, m := (k * d) / d, (k * d) % d;
    assert k * d == q * d + m;
    Distribute(k, q, d);
    assert m == (k - q) * d;
    AbsMul(k - q, d);
    AtLeastOneTimes(Abs(k - q), Abs(d));
    assert k - q == 0;
  }

  lemma Distribute(a: int, b: int, c: int)
    ensures (a - b) * c == a * c - b * c
  {
  }

  lemma AtLeastOneTimes(x: nat, y: nat)
    ensures x == 0 || x * y >= y
  {
  }
}
