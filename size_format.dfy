/** The unit selection of `formatSize` (`internal/visualize/html.go`): a size
    below 1024 is shown in bytes, a larger one divided by the largest power
    of 1024 that fits, with the matching unit letter. The one-decimal
    floating-point text is outside this model. */
module SizeFormat {

  const Unit: int := 1024

  /** The range of Go's `int64`, the type of the size. */
  const MinInt64: int := -0x8000_0000_0000_0000
  const MaxInt64: int := 0x7FFF_FFFF_FFFF_FFFF

  /** The unit letters for 1024, 1024², ... 1024⁶. */
  const UnitLetters: string := "KMGTPE"

  function Pow(b: nat, e: nat): nat
  {
    if e == 0 then 1 else b * Pow(b, e - 1)
  }

  /** What `formatSize` prints: the size in bytes, or the size over `div`
      (a power of 1024) with the unit letter of exponent `exp`. */
  datatype SizeText =
    | InBytes(bytes: int)
    | Scaled(bytes: int, div: int, exp: nat, unit: char)

  /** `formatSize`: sizes below 1024, negative ones included, in bytes;
      otherwise `div = 1024^(exp + 1)` is the largest power of 1024 not above
      the size, and its letter is the unit. No `int64` size overflows `div`
      or runs past the end of the letters. */
  method FormatSize(bytes: int) returns (r: SizeText)
    requires MinInt64 <= bytes <= MaxInt64
    ensures bytes < Unit ==> r == InBytes(bytes)
    ensures bytes >= Unit ==>
      && r.Scaled? && r.bytes == bytes
      && r.exp <= 5
      && r.div == Pow(Unit, r.exp + 1)
      && r.div <= bytes < Unit * r.div
      && r.unit == UnitLetters[r.exp]
  {
    if bytes < Unit {
      return InBytes(bytes);
    }
    var div, exp := Unit, 0;
    var n := bytes / Unit;
    while n >= Unit
      invariant div == Pow(Unit, exp + 1)
      invariant 1 <= n && n * div <= bytes < (n + 1) * div
      invariant div <= bytes
      decreases n
    {
      DivideStep(bytes, n, div);
      div := Unit * div;
      exp := exp + 1;
      n := n / Unit;
    }
    LoopExit(bytes, n, div);
    ExponentBound(exp);
    r := Scaled(bytes, div, exp, UnitLetters[exp]);
  }

  lemma MulMono(a: int, b: int, c: int)
    requires a <= b && c >= 0
    ensures a * c <= b * c
  {
    assert b * c - a * c == (b - a) * c;
  }

  lemma MulAssoc(a: int, b: int, c: int)
    ensures (a * b) * c == a * (c * b)
  {
  }

  /** Dividing the quotient by 1024 keeps it the quotient for the next power. */
  lemma DivideStep(bytes: int, n: int, div: int)
    requires n >= Unit && div > 0 && n * div <= bytes < (n + 1) * div
    ensures 1 <= n / Unit
    ensures (n / Unit) * (Unit * div) <= bytes < (n / Unit + 1) * (Unit * div)
    ensures Unit * div <= bytes
  {
    var q := n / Unit;
    assert q * Unit <= n && n + 1 <= (q + 1) * Unit;
    MulMono(q * Unit, n, div);
    MulAssoc(q, Unit, div);
    MulMono(n + 1, (q + 1) * Unit, div);
    MulAssoc(q + 1, Unit, div);
    MulMono(Unit, n, div);
  }

  /** When the quotient drops below 1024, `div` is the largest power that fits. */
  lemma LoopExit(bytes: int, n: int, div: int)
    requires 1 <= n < Unit && div > 0 && n * div <= bytes < (n + 1) * div
    ensures div <= bytes < Unit * div
  {
    MulMono(1, n, div);
    MulMono(n + 1, Unit, div);
  }

  /** Powers of 1024 grow with the exponent. */
  lemma {:induction false} PowGrows(a: nat, b: nat)
    requires a <= b
    ensures Pow(Unit, a) <= Pow(Unit, b)
    decreases b - a
  {
    if a < b {
      PowGrows(a, b - 1);
    }
  }

  /** 1024⁷ is beyond `int64`. */
  lemma PowSeven()
    ensures Pow(Unit, 7) > MaxInt64
  {
    assert Pow(Unit, 1) == 0x400;
    assert Pow(Unit, 2) == 0x10_0000;
    assert Pow(Unit, 3) == 0x4000_0000;
    assert Pow(Unit, 4) == 0x100_0000_0000;
    assert Pow(Unit, 5) == 0x4_0000_0000_0000;
    assert Pow(Unit, 6) == 0x1000_0000_0000_0000;
  }

  /** A power of 1024 within `int64` has exponent at most six. */
  lemma ExponentBound(exp: nat)
    requires Pow(Unit, exp + 1) <= MaxInt64
    ensures exp <= 5
  {
    PowSeven();
    if exp > 5 {
      PowGrows(7, exp + 1);
      assert false;
    }
  }

  /** The exponent is fixed by the size: only one power band of 1024 holds
      it, so each size has exactly one unit letter (K for [1024, 1024²), M
      for the next band, and so on). */
  lemma {:induction false} BandUnique(bytes: int, a: nat, b: nat)
    requires Pow(Unit, a + 1) <= bytes < Pow(Unit, a + 2)
    requires Pow(Unit, b + 1) <= bytes < Pow(Unit, b + 2)
    ensures a == b
  {
    if a < b {
      PowGrows(a + 2, b + 1);
    } else if b < a {
      PowGrows(b + 2, a + 1);
    }
  }
}
