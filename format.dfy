/** `DiskQuota::format_bytes`: a byte count as a mantissa and a unit suffix.
    The source finds the magnitude with `log` and `pow` on floats; this model
    uses its exact integer meaning, the largest `k` with `1024^k <= size`. */
module Format {
  import opened Rounding

  /** The suffix table, indexed by the power of 1024. */
  const Suffixes: seq<string> := ["", "kb", "MB", "GB", "TB"]

  function Pow(b: nat, e: nat): nat {
    if e == 0 then 1 else b * Pow(b, e - 1)
  }

  lemma {:induction false} PowPositive(b: nat, e: nat)
    requires b > 0
    ensures Pow(b, e) > 0
  {
    if e > 0 {
      PowPositive(b, e - 1);
    }
  }

  lemma {:induction false} PowMonotone(b: nat, e1: nat, e2: nat)
    requires b > 0 && e1 <= e2
    ensures Pow(b, e1) <= Pow(b, e2)
    decreases e2
  {
    if e1 < e2 {
      PowMonotone(b, e1, e2 - 1);
      var x := Pow(b, e2 - 1);
      assert Pow(b, e2) == x + (b - 1) * x;
      PowPositive(b, e2 - 1);
      MulStrict(0, b - 1, x);
    }
  }

  /** The power of 1024 a size lies in: `floor(log(size) / log(1024))`. */
  function Magnitude(size: nat): (k: nat)
    requires size >= 1
    ensures Pow(1024, k) <= size < Pow(1024, k + 1)
    decreases size
  {
    if size < 1024 then 0 else 1 + Magnitude(size / 1024)
  }

  /** Magnitude is the only power that brackets the size. */
  lemma MagnitudeUnique(size: nat, j: nat)
    requires Pow(1024, j) <= size < Pow(1024, j + 1)
    ensures j == Magnitude(size)
  {
    PowPositive(1024, j);
    var k := Magnitude(size);
    if j < k {
      PowMonotone(1024, j + 1, k);
    } else if k < j {
      PowMonotone(1024, k + 1, j);
    }
  }

  /** A formatted size: the mantissa rounded to `precision` decimal digits,
      held exactly as `scaled / 10^precision`, followed by the suffix; or the
      string "NAN" PHP prints for a count below 1. The decimal rendering of the
      mantissa is not modelled. */
  datatype Formatted = Number(scaled: int, precision: nat, suffix: string) | NotANumber

  /** `format_bytes($size, $precision = 2)`. For a count of at least 1: the
      mantissa `size / 1024^k` rounded to `precision` digits, followed by the
      suffix of the magnitude `k`, or by nothing when `k` is past "TB" (PHP
      reads the missing key as null). For a count below 1 the logarithm is
      `-INF` or `NAN`, the mantissa `NAN`, the suffix key 0, so the result
      is "NAN". */
  function FormatBytes(size: int, precision: nat := 2): (r: Formatted)
    ensures r.NotANumber? <==> size < 1
    ensures size >= 1 ==>
      r.precision == precision &&
      r.suffix == (if Magnitude(size) < |Suffixes| then Suffixes[Magnitude(size)] else "") &&
      var unit := Pow(1024, Magnitude(size));
      0 < unit + 2 * (r.scaled * unit - size * Pow(10, precision)) <= 2 * unit
  {
    if size < 1 then NotANumber
    else
      var k := Magnitude(size);
      PowPositive(1024, k);
      var scaled := RoundHalfAway(size * Pow(10, precision), Pow(1024, k));
      Number(scaled, precision, if k < |Suffixes| then Suffixes[k] else "")
  }

  /** A count `sc / p` within half of `1 / p` of `s / unit`, where
      `unit <= s < 1024 * unit`, lies in [1, 1024]. */
  lemma RoundedMantissaBounds(sc: int, unit: nat, s: nat, p: nat)
    requires unit > 0 && p > 0 && unit <= s < 1024 * unit
    requires 0 < unit + 2 * (sc * unit - s * p) <= 2 * unit
    ensures p <= sc <= 1024 * p
  {
    MulStrict(s, unit, p);
    MulStrict(s, 1024 * unit, p);
    assert (p - 1) * unit == p * unit - unit;
    MulStrict(p - 1, sc, unit);
    assert (1024 * p + 1) * unit == 1024 * unit * p + unit;
    MulStrict(sc, 1024 * p + 1, unit);
  }

  /** The exact mantissa `size / 1024^k` lies in [1, 1024); rounded, it lies
      in [1, 1024], and 1024 itself is reachable (see FormatBytesShows1024). */
  lemma FormatBytesMantissaBounds(size: nat, precision: nat)
    requires size >= 1
    ensures var unit := Pow(1024, Magnitude(size));
      unit <= size < 1024 * unit
    ensures FormatBytes(size, precision).Number?
    ensures Pow(10, precision) <= FormatBytes(size, precision).scaled <= 1024 * Pow(10, precision)
  {
    var k := Magnitude(size);
    assert Pow(1024, k + 1) == 1024 * Pow(1024, k);
    PowPositive(1024, k);
    PowPositive(10, precision);
    RoundedMantissaBounds(FormatBytes(size, precision).scaled, Pow(1024, k), size, Pow(10, precision));
  }

  /** A size just under a unit boundary rounds up to a mantissa of 1024 in
      the lower unit: 1048575 bytes is shown as "1024kb", not "1MB". */
  lemma FormatBytesShows1024()
    ensures FormatBytes(1048575) == Number(102400, 2, "kb")
  {
    MagnitudeUnique(1048575, 1);
    RoundHalfAwayUnique(1048575 * 100, 1024, 102400);
  }

  /** From 1024^5 bytes up the magnitude is past the suffix table, and the
      mantissa is shown with no suffix at all. */
  lemma FormatBytesPastTable(size: nat)
    requires size >= Pow(1024, 5)
    ensures FormatBytes(size).suffix == ""
  {
    PowPositive(1024, 5);
    var k := Magnitude(size);
    if k < 5 {
      PowMonotone(1024, k + 1, 5);
    }
  }

  /** 1024^5 bytes, one petabyte, is shown as "1" with no suffix. */
  lemma FormatBytesPetabyte()
    ensures FormatBytes(Pow(1024, 5)) == Number(100, 2, "")
  {
    var p := Pow(1024, 5);
    PowPositive(1024, 5);
    assert Pow(1024, 6) == 1024 * p;
    MagnitudeUnique(p, 5);
    RoundHalfAwayUnique(p * 100, p, 100);
  }

  /** The examples of the format: 1536 bytes is "1.5kb", 1048576 is "1MB". */
  lemma FormatBytesExamples()
    ensures FormatBytes(1536) == Number(150, 2, "kb")
    ensures FormatBytes(1048576) == Number(100, 2, "MB")
  {
    MagnitudeUnique(1536, 1);
    RoundHalfAwayUnique(1536 * 100, 1024, 150);
    MagnitudeUnique(1048576, 2);
    RoundHalfAwayUnique(1048576 * 100, 1048576, 100);
  }
}
