/** Shared vocabulary of the game core: bytes, optional values, the random
    source and decimal rendering of numbers. */
module Common {

  /** One cell of a `Uint8Array`. */
  type Byte = x: int | 0 <= x < 256

  datatype Option<+T> = None | Some(value: T)

  function Max(a: int, b: int): int { if a < b then b else a }
  function Min(a: int, b: int): int { if a < b then a else b }
  function Abs(v: real): real { if v < 0.0 then -v else v }

  /** `Math.ceil`. */
  function Ceil(v: real): (c: int)
    ensures v <= c as real < v + 1.0
  {
    -((-v).Floor)
  }

  /** The host's `Math.random`: the k-th value the core draws.  Values the
      cosmetic particle system draws in between are not part of the stream. */
  type Random = nat -> real

  ghost predicate IsRandom(rand: Random) {
    forall k :: 0.0 <= rand(k) < 1.0
  }

  /** `Math.floor(u * n)` for a draw `u` in [0,1): a uniform index below `n`. */
  function Draw(u: real, n: nat): (j: nat)
    requires 0.0 <= u < 1.0 && n > 0
    ensures j < n
  {
    var v := u * n as real;
    ScaleBelow(u, n as real);
    FloorBelow(v, n);
    v.Floor
  }

  /** The index is the floor of the scaled draw. */
  lemma DrawIsFloor(u: real, n: nat)
    requires 0.0 <= u < 1.0 && n > 0
    ensures var j := Draw(u, n); j as real <= u * n as real < j as real + 1.0
  {
  }

  lemma FloorBelow(v: real, n: nat)
    requires 0.0 <= v < n as real
    ensures 0 <= v.Floor < n
  {
  }

  lemma ScaleBelow(u: real, m: real)
    requires 0.0 <= u < 1.0 && m > 0.0
    ensures 0.0 <= u * m < m
  {
    assert (1.0 - u) * m > 0.0;
  }

  /** `String(n)` for a non-negative integer. */
  function NatToString(n: nat): (s: string)
    ensures |s| >= 1
    ensures forall i :: 0 <= i < |s| ==> '0' <= s[i] <= '9'
    ensures n >= 10 <==> |s| > 1
    decreases n
  {
    var digit := [('0' as int + n % 10) as char];
    if n < 10 then digit else NatToString(n / 10) + digit
  }

  /** `String(v)` for any integer. */
  function IntToString(v: int): string
  {
    if v < 0 then "-" + NatToString(-v) else NatToString(v)
  }

  /** Reading the digits back gives the number: the rendering loses nothing. */
  function DigitsValue(s: string): int
  {
    if s == [] then 0 else DigitsValue(s[..|s| - 1]) * 10 + (s[|s| - 1] as int - '0' as int)
  }

  lemma {:induction false} NatToStringRoundTrip(n: nat)
    ensures DigitsValue(NatToString(n)) == n
    decreases n
  {
    var s := NatToString(n);
    if n >= 10 {
      NatToStringRoundTrip(n / 10);
      assert s[..|s| - 1] == NatToString(n / 10);
    }
  }

  lemma NatToStringInjective(m: nat, n: nat)
    requires NatToString(m) == NatToString(n)
    ensures m == n
  {
    NatToStringRoundTrip(m);
    NatToStringRoundTrip(n);
  }
}
