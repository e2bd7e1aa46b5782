/** `sizeFormat`: a byte count shown in B, KB, MB or GB (src/App.jsx). */
module Format {
  import opened Values

  function Pow1024(k: nat): (p: nat)
    ensures p >= 1
  {
    if k == 0 then 1 else 1024 * Pow1024(k - 1)
  }

  /** The unit `sizeFormat` picks, as a power of 1024: 0 for B, 1 for KB, 2 for MB, 3 for GB. */
  function SizeUnit(size: int): (k: nat)
    ensures k <= 3
  {
    if size < 1024 then 0
    else if size < 1024 * 1024 then 1
    else if size < 1024 * 1024 * 1024 then 2
    else 3
  }

  function UnitSuffix(k: nat): string
    requires k <= 3
  {
    if k == 0 then " B" else if k == 1 then " KB" else if k == 2 then " MB" else " GB"
  }

  /** `toFixed(2)` of `size / d` in hundredths: the nearest integer to `100 * size / d`, halves
      rounded up. */
  function Hundredths(size: nat, d: nat): nat
    requires d >= 1
  {
    (200 * size + d) / (2 * d)
  }

  /** The decimal text of `h / 100` with exactly two digits after the point. */
  function FixedText(h: nat): string
  {
    NatToString(h / 100) + "." + [DigitChar(h / 10 % 10), DigitChar(h % 10)]
  }

  /** The text `sizeFormat` returns: below 1024 the count itself with " B", otherwise the
      count in the largest unit it reaches, to two decimals. */
  function SizeFormat(size: int): string
  {
    var k := SizeUnit(size);
    if k == 0 then IntToString(size) + UnitSuffix(0)
    else FixedText(Hundredths(size, Pow1024(k))) + UnitSuffix(k)
  }

  /** The unit is the largest power of 1024 not above the size, capped at GB: below 1024 it is
      bytes; otherwise the size is at least one unit, and under 1024 units unless it is GB. */
  lemma UnitIsLargestPower(size: int)
    ensures SizeUnit(size) == 0 <==> size < 1024
    ensures SizeUnit(size) >= 1 ==> Pow1024(SizeUnit(size)) <= size
    ensures 1 <= SizeUnit(size) < 3 ==> size < 1024 * Pow1024(SizeUnit(size))
  {
    assert Pow1024(1) == 1024;
    assert Pow1024(2) == 1024 * 1024;
    assert Pow1024(3) == 1024 * 1024 * 1024;
  }

  /** `Hundredths` is the nearest integer to `100 * size / d`; a value exactly halfway is
      rounded up, as `toFixed` does. */
  lemma HundredthsRounds(size: nat, d: nat)
    requires d >= 1
    ensures 2 * d * Hundredths(size, d) <= 200 * size + d < 2 * d * Hundredths(size, d) + 2 * d
  {
    var h := Hundredths(size, d);
    var r := (200 * size + d) % (2 * d);
    assert 200 * size + d == 2 * d * h + r;
  }

  /** Above the byte range the number shown is at least 1.00, and at most 1024.00 in KB and MB
      (rounding can carry a size just under the next unit up to 1024.00). */
  lemma ShownValueRange(size: int)
    requires SizeUnit(size) >= 1
    ensures 100 <= Hundredths(size, Pow1024(SizeUnit(size)))
    ensures SizeUnit(size) < 3 ==> Hundredths(size, Pow1024(SizeUnit(size))) <= 102400
  {
    var k := SizeUnit(size);
    var d := Pow1024(k);
    UnitIsLargestPower(size);
    HundredthsRounds(size, d);
    var h := Hundredths(size, d);
    assert 2 * d * h + 2 * d > 200 * size + d >= 200 * d + d;
    if k < 3 {
      assert 200 * size + d < 200 * 1024 * d + d;
      assert 2 * d * h < 2 * d * 102401;
    }
  }

  function DigitValue(c: char): int
  {
    c as int - '0' as int
  }

  /** The fixed-point text reads back as the hundredths it was made from: digits, a point,
      and two digits. */
  lemma FixedTextReadsBack(h: nat)
    ensures |FixedText(h)| >= 4
    ensures IsDigits(FixedText(h)[..|FixedText(h)| - 3])
    ensures FixedText(h)[|FixedText(h)| - 3] == '.'
    ensures IsDigit(FixedText(h)[|FixedText(h)| - 2]) && IsDigit(FixedText(h)[|FixedText(h)| - 1])
    ensures DigitsValue(FixedText(h)[..|FixedText(h)| - 3]) * 100
      + DigitValue(FixedText(h)[|FixedText(h)| - 2]) * 10 + DigitValue(FixedText(h)[|FixedText(h)| - 1]) == h
  {
    var t := FixedText(h);
    var whole := NatToString(h / 100);
    assert t[..|t| - 3] == whole;
    DigitsValueOfNatToString(h / 100);
  }

  lemma NatToStringExamples()
    ensures NatToString(1) == "1" && NatToString(2) == "2" && NatToString(500) == "500"
    ensures NatToString(1024) == "1024"
  {
    assert NatToString(50) == "50";
    assert NatToString(10) == "10";
    assert NatToString(102) == "102";
  }

  /** Below 1024 the count itself is shown: 500 gives "500 B". */
  lemma SizeFormatBytes()
    ensures SizeFormat(500) == "500 B"
  {
    NatToStringExamples();
  }

  /** 2048 gives "2.00 KB" and 1536 gives "1.50 KB". */
  lemma SizeFormatKilobytes()
    ensures SizeFormat(2048) == "2.00 KB"
    ensures SizeFormat(1536) == "1.50 KB"
  {
    NatToStringExamples();
    assert Pow1024(1) == 1024;
    assert Hundredths(2048, 1024) == 200;
    assert Hundredths(1536, 1024) == 150;
  }

  /** One byte short of a megabyte rounds to "1024.00 KB". */
  lemma SizeFormatRoundsUpToUnit()
    ensures SizeFormat(1048575) == "1024.00 KB"
  {
    NatToStringExamples();
    assert Pow1024(1) == 1024;
    assert Hundredths(1048575, 1024) == 102400;
  }
}
