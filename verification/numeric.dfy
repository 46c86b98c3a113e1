/** Fixed-width integers and byte strings as Go and go-ethereum see them.
    Dafny integers are unbounded, so every narrowing and reinterpretation the
    Go code performs is written out here. */
module Numeric {

  /** One byte of a Go `[]byte`. */
  type byte = x: int | 0 <= x < 256

  const TWO_63: nat := 0x8000_0000_0000_0000
  const TWO_64: nat := 0x1_0000_0000_0000_0000

  /** Go's `int64`. */
  type int64 = x: int | -0x8000_0000_0000_0000 <= x < 0x8000_0000_0000_0000

  /** Go's `uint64`. */
  type uint64 = x: int | 0 <= x < 0x1_0000_0000_0000_0000

  /** `a` and `b` have the same low 64 bits (agree modulo 2^64). */
  predicate SameLow64(a: int, b: int) {
    (a - b) % TWO_64 == 0
  }

  function Pow256(n: nat): (r: nat)
    ensures r >= 1
  {
    if n == 0 then 1 else 256 * Pow256(n - 1)
  }

  /** The unsigned value of a big-endian byte string, most significant byte
      first: what `new(big.Int).SetBytes(b)` produces. */
  function BigEndianValue(s: seq<byte>): (v: nat)
    ensures v < Pow256(|s|)
  {
    if |s| == 0 then 0
    else
      var p := Pow256(|s| - 1);
      var lead: nat := s[0];
      var rest := BigEndianValue(s[1..]);
      LemmaValueBound(lead, rest, p);
      lead * p + rest
  }

  /** The `width`-byte big-endian encoding of `n`, most significant byte first:
      `binary.BigEndian.PutUint64` for width 8, a 32-byte log topic for width 32. */
  function BigEndianBytes(n: nat, width: nat): (s: seq<byte>)
    requires n < Pow256(width)
    ensures |s| == width
    ensures BigEndianValue(s) == n
  {
    if width == 0 then []
    else
      var p := Pow256(width - 1);
      LemmaLeadBound(n, p);
      var lead: byte := n / p;
      var tail := BigEndianBytes(n % p, width - 1);
      var s := [lead] + tail;
      assert s[1..] == tail;
      assert BigEndianValue(s) == lead * p + n % p;
      s
  }

  /** Encoding the value of a byte string at its own width gives the string
      back: with BigEndianBytes' contract, the two are inverse bijections. */
  lemma {:induction false} BigEndianBytesOfValue(s: seq<byte>)
    ensures BigEndianBytes(BigEndianValue(s), |s|) == s
  {
    if |s| > 0 {
      var p := Pow256(|s| - 1);
      var lead: nat := s[0];
      var rest := BigEndianValue(s[1..]);
      LemmaDivModUnique(lead, rest, p);
      BigEndianBytesOfValue(s[1..]);
      assert s == [s[0]] + s[1..];
    }
  }

  /** `(*big.Int).Int64()` on a non-negative value: Go keeps the low 64 bits
      and reads them as a two's-complement `int64`. */
  function Int64Of(x: nat): (r: int64)
    ensures x < TWO_63 ==> r == x
    ensures SameLow64(x, r)
  {
    var low := x % TWO_64;
    var q := x / TWO_64;
    assert x == q * TWO_64 + low;
    if low < TWO_63 then
      LemmaMultipleMod(q);
      low
    else
      LemmaMultipleMod(q + 1);
      low - TWO_64
  }

  /** The Go conversion `uint64(i)` of an `int64`: the same 64 bits read as
      unsigned. */
  function Uint64Of(i: int64): (r: uint64)
    ensures i >= 0 ==> r == i
    ensures i < 0 ==> r >= TWO_63
    ensures SameLow64(r, i)
  {
    if i < 0 then i + TWO_64 else i
  }

  /** Reading the bits of `uint64(i)` back as a signed value gives `i` again. */
  lemma Int64OfUint64(i: int64)
    ensures Int64Of(Uint64Of(i)) == i
  {
  }

  /** Two values that agree modulo 2^64 narrow to the same `int64`; with the
      congruence in Int64Of's contract this makes the narrowing the unique
      `int64` congruent to its input. */
  lemma Int64OfUnique(x: nat, r: int64)
    requires SameLow64(x, r)
    ensures Int64Of(x) == r
  {
    var q := (x - r) / TWO_64;
    assert x == r + q * TWO_64;
    var low := x % TWO_64;
    if r >= 0 {
      assert x % TWO_64 == r by { LemmaModShift(r, q); }
    } else {
      assert x == (r + TWO_64) + (q - 1) * TWO_64;
      assert x % TWO_64 == r + TWO_64 by { LemmaModShift(r + TWO_64, q - 1); }
    }
  }

  lemma LemmaValueBound(lead: nat, rest: nat, p: nat)
    requires lead < 256 && rest < p
    ensures lead * p + rest < 256 * p
  {
    LemmaMulMono(lead + 1, 256, p);
    assert (lead + 1) * p == lead * p + p;
  }

  lemma LemmaLeadBound(n: nat, p: nat)
    requires 1 <= p && n < 256 * p
    ensures n / p < 256
  {
  }

  /** The first byte of an encoding is the value's leading base-256 digit. */
  lemma LeadingByte(n: nat, width: nat)
    requires 1 <= width && n < Pow256(width)
    ensures BigEndianBytes(n, width)[0] == n / Pow256(width - 1)
  {
  }

  lemma LemmaMulMono(a: nat, b: nat, p: nat)
    requires a <= b
    ensures a * p <= b * p
  {
  }

  lemma LemmaDivModUnique(a: nat, b: nat, p: nat)
    requires b < p
    ensures (a * p + b) / p == a
    ensures (a * p + b) % p == b
  {
    var n := a * p + b;
    var q, r := n / p, n % p;
    assert q * p + r == a * p + b;
    if q > a {
      LemmaMulMono(a + 1, q, p);
    } else if q < a {
      LemmaMulMono(q + 1, a, p);
    }
  }

  lemma LemmaMultipleMod(k: int)
    ensures (k * TWO_64) % TWO_64 == 0
  {
  }

  lemma LemmaModShift(a: nat, q: int)
    requires a < TWO_64
    requires a + q * TWO_64 >= 0
    ensures (a + q * TWO_64) % TWO_64 == a
  {
  }
}
