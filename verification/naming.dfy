/**
 * Output file names: the decimal rendering of `f"{idx}"` and the names
 * `{base}-roi{idx}.png` and `{base}-roi{idx}.svs`.
 */
module Naming {

  function DigitChar(d: nat): char
    requires d < 10
  {
    "0123456789"[d]
  }

  predicate IsDigit(c: char) { '0' <= c <= '9' }

  function DigitValue(c: char): nat
    requires IsDigit(c)
  {
    c as int - '0' as int
  }

  predicate AllDigits(s: string) {
    forall i :: 0 <= i < |s| ==> IsDigit(s[i])
  }

  /** `f"{n}"` for a natural number: its decimal digits without leading zeros. */
  function Decimal(n: nat): (s: string)
    ensures |s| >= 1 && AllDigits(s)
    ensures s[0] == '0' ==> n == 0
    decreases n
  {
    if n < 10 then [DigitChar(n)] else Decimal(n / 10) + [DigitChar(n % 10)]
  }

  /** The value of a string of decimal digits. */
  function ParseDecimal(s: string): nat
    requires AllDigits(s)
    decreases |s|
  {
    if s == [] then 0 else ParseDecimal(s[..|s| - 1]) * 10 + DigitValue(s[|s| - 1])
  }

  /** Reading back a rendered number gives the number. */
  lemma {:induction false} ParseDecimalOfDecimal(n: nat)
    ensures ParseDecimal(Decimal(n)) == n
    decreases n
  {
    var s := Decimal(n);
    if n >= 10 {
      assert s[..|s| - 1] == Decimal(n / 10);
      ParseDecimalOfDecimal(n / 10);
    }
  }

  /** Distinct numbers render differently. */
  lemma DecimalInjective(m: nat, n: nat)
    requires m != n
    ensures Decimal(m) != Decimal(n)
  {
    ParseDecimalOfDecimal(m);
    ParseDecimalOfDecimal(n);
  }

  /** `f"{base}-roi{idx}"`, the stem of both output files of one crop. */
  function RoiName(base: string, idx: nat): string {
    base + "-roi" + Decimal(idx)
  }

  /** The number of decimal digits at the end of `s`. */
  function TrailingDigits(s: string): nat
    decreases |s|
  {
    if s == [] || !IsDigit(s[|s| - 1]) then 0 else 1 + TrailingDigits(s[..|s| - 1])
  }

  /** In an output name the index is exactly the trailing run of digits. */
  lemma {:induction false} TrailingDigitsOfRoiName(base: string, digits: string)
    requires AllDigits(digits)
    ensures TrailingDigits(base + "-roi" + digits) == |digits|
    decreases |digits|
  {
    var s := base + "-roi" + digits;
    if digits != [] {
      assert s[..|s| - 1] == base + "-roi" + digits[..|digits| - 1];
      TrailingDigitsOfRoiName(base, digits[..|digits| - 1]);
    }
  }

  /** The output names of two crops agree only for the same base and index. */
  lemma RoiNameInjective(b1: string, i: nat, b2: string, j: nat)
    requires RoiName(b1, i) == RoiName(b2, j)
    ensures b1 == b2 && i == j
  {
    var d1, d2 := Decimal(i), Decimal(j);
    var s := RoiName(b1, i);
    TrailingDigitsOfRoiName(b1, d1);
    TrailingDigitsOfRoiName(b2, d2);
    assert d1 == s[|s| - |d1|..] == d2;
    assert b1 == s[..|b1|] == b2;
    if i != j {
      DecimalInjective(i, j);
    }
  }

  /** The two formats each crop is saved in. */
  datatype Format = Png | Svs

  function Extension(f: Format): string {
    match f
    case Png => ".png"
    case Svs => ".svs"
  }

  /** An output file name, `f"{base}-roi{index}.png"` or `.svs`, kept in structured form. */
  datatype OutputFile = OutputFile(format: Format, base: string, index: nat)

  /** The file name as the scripts spell it. */
  function Text(o: OutputFile): string {
    RoiName(o.base, o.index) + Extension(o.format)
  }

  /** Distinct output files have distinct names. */
  lemma TextInjective(o1: OutputFile, o2: OutputFile)
    ensures o1 != o2 ==> Text(o1) != Text(o2)
  {
    var t1, t2 := Text(o1), Text(o2);
    if t1 == t2 {
      assert t1[|t1| - 3] == t2[|t2| - 3];
      assert o1.format == o2.format;
      assert RoiName(o1.base, o1.index) == t1[..|t1| - 4] == RoiName(o2.base, o2.index);
      RoiNameInjective(o1.base, o1.index, o2.base, o2.index);
    }
  }

  /** The file names of crop 1 of a slide. */
  lemma TextExample(base: string)
    ensures Text(OutputFile(Png, base, 1)) == base + "-roi1.png"
    ensures Text(OutputFile(Svs, base, 1)) == base + "-roi1.svs"
  {
    assert Decimal(1) == "1";
  }
}
