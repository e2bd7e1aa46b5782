/** The comparator the table sorts its rows with (src/App.jsx, the `sort` callback). */
module Ordering {
  import opened Values
  import StableSort

  /** The `order` state cell: `'asc'` or `'desc'`. */
  datatype Direction = Asc | Desc

  /** Compares two rows on the column `orderBy`. When both cells convert to numbers the
      difference of the numbers decides; otherwise the strings `String(a)` and `String(b)` are
      compared. Descending order swaps the operands. */
  function Compare(a: Row, b: Row, orderBy: string, order: Direction): int
  {
    var av, bv := Get(a, orderBy), Get(b, orderBy);
    var an, bn := ToNumber(av), ToNumber(bv);
    if an.Some? && bn.Some? then
      (if order == Asc then an.value - bn.value else bn.value - an.value)
    else if order == Asc then LexCompare(ToStr(av), ToStr(bv))
    else LexCompare(ToStr(bv), ToStr(av))
  }

  /** The comparator `sort` is called with. */
  function Comparator(orderBy: string, order: Direction): (Row, Row) -> int
  {
    (a: Row, b: Row) => Compare(a, b, orderBy, order)
  }

  /** The cell of `r` in column `f` converts to a number. */
  predicate Numeric(r: Row, f: string)
  {
    ToNumber(Get(r, f)).Some?
  }

  /** When both cells are numbers, ascending order is numeric order. */
  lemma AscendingIsNumeric(a: Row, b: Row, f: string)
    requires Numeric(a, f) && Numeric(b, f)
    ensures Compare(a, b, f, Asc) < 0 <==> ToNumber(Get(a, f)).value < ToNumber(Get(b, f)).value
    ensures Compare(a, b, f, Asc) == 0 <==> ToNumber(Get(a, f)).value == ToNumber(Get(b, f)).value
  {
  }

  /** When either cell is not a number, ascending order is string order, and rows compare
      equal exactly when their cells print the same. */
  lemma AscendingIsTextual(a: Row, b: Row, f: string)
    requires !Numeric(a, f) || !Numeric(b, f)
    ensures Compare(a, b, f, Asc) < 0 <==> LexCompare(ToStr(Get(a, f)), ToStr(Get(b, f))) < 0
    ensures Compare(a, b, f, Asc) == 0 <==> ToStr(Get(a, f)) == ToStr(Get(b, f))
  {
    LexCompareZeroIffEqual(ToStr(Get(a, f)), ToStr(Get(b, f)));
  }

  /** Descending order is ascending order reversed, in both the numeric and the string case. */
  lemma DescReversesAsc(a: Row, b: Row, f: string)
    ensures Compare(a, b, f, Desc) == -Compare(a, b, f, Asc)
    ensures Compare(a, b, f, Desc) == Compare(b, a, f, Asc)
  {
    LexCompareAntisymmetric(ToStr(Get(a, f)), ToStr(Get(b, f)));
  }

  /** Swapping the rows negates the comparison. */
  lemma CompareAntisymmetric(a: Row, b: Row, f: string, o: Direction)
    ensures Compare(b, a, f, o) == -Compare(a, b, f, o)
  {
    LexCompareAntisymmetric(ToStr(Get(a, f)), ToStr(Get(b, f)));
  }

  /** Every cell of the column takes the same branch of the comparator. */
  predicate UniformColumn(rows: seq<Row>, f: string)
  {
    (forall r :: r in rows ==> Numeric(r, f)) || (forall r :: r in rows ==> !Numeric(r, f))
  }

  lemma CompareTransitive(rows: seq<Row>, f: string, o: Direction, x: Row, y: Row, z: Row)
    requires UniformColumn(rows, f) && x in rows && y in rows && z in rows
    requires Compare(x, y, f, o) <= 0 && Compare(y, z, f, o) <= 0
    ensures Compare(x, z, f, o) <= 0
  {
    var sx, sy, sz := ToStr(Get(x, f)), ToStr(Get(y, f)), ToStr(Get(z, f));
    if !Numeric(x, f) {
      if o == Asc {
        LexCompareTransitive(sx, sy, sz);
      } else {
        LexCompareTransitive(sz, sy, sx);
      }
    }
  }

  /** On a column whose cells are all numbers, or all not numbers, the comparator is a total
      preorder, so the stable-sort lemmas apply to it. */
  lemma CompareTotalPreorder(rows: seq<Row>, f: string, o: Direction)
    requires UniformColumn(rows, f)
    ensures StableSort.TotalPreorder(rows, Comparator(f, o))
  {
    var cmp := Comparator(f, o);
    forall x, y | x in rows && y in rows
      ensures cmp(x, y) < 0 <==> cmp(y, x) > 0
    {
      CompareAntisymmetric(x, y, f, o);
    }
    forall x, y, z | x in rows && y in rows && z in rows && cmp(x, y) <= 0 && cmp(y, z) <= 0
      ensures cmp(x, z) <= 0
    {
      CompareTransitive(rows, f, o, x, y, z);
    }
  }

  /** Numeric cells sort by value: "9" comes before "10" ascending, although "10" comes first
      in string order. */
  lemma NineBeforeTen()
    ensures Compare(map["size" := Str("9")], map["size" := Str("10")], "size", Asc) < 0
    ensures Compare(map["size" := Str("10")], map["size" := Str("9")], "size", Desc) < 0
    ensures LexCompare("10", "9") < 0
  {
    var nine, ten := map["size" := Str("9")], map["size" := Str("10")];
    assert IsDigits("9") && IsDigits("10");
    assert DigitsValue("10") == 10 by { assert "10"[..1] == "1"; }
  }

  /** The three comparisons of the cycle 10, "1a", 9. */
  lemma MixedCycle()
    ensures Compare(map["v" := Num(10)], map["v" := Str("1a")], "v", Asc) < 0
    ensures Compare(map["v" := Str("1a")], map["v" := Num(9)], "v", Asc) < 0
    ensures Compare(map["v" := Num(10)], map["v" := Num(9)], "v", Asc) > 0
  {
    assert !IsDigits("1a") by { assert !IsDigit("1a"[1]); }
    assert ToStr(Num(10)) == "10" && ToStr(Num(9)) == "9";
  }

  /** When a column mixes numbers and other text the comparator is not transitive:
      10 < "1a" and "1a" < 9 in string order, but 9 < 10 numerically. */
  lemma MixedColumnNotTransitive()
    ensures !StableSort.TotalPreorder(
      [map["v" := Num(10)], map["v" := Str("1a")], map["v" := Num(9)]], Comparator("v", Asc))
  {
    var a, b, c := map["v" := Num(10)], map["v" := Str("1a")], map["v" := Num(9)];
    var rows := [a, b, c];
    MixedCycle();
    StableSort.NotPreorderOfCycle(rows, Comparator("v", Asc), a, b, c);
  }
}
