/** Cell values of the table and the JavaScript coercions the table code applies to them:
    `String(v)`, `Number(v)`, the falsy test `v || ''`, `toLowerCase()`, `includes` and
    `localeCompare`. */
module Values {

  datatype Option<T> = None | Some(value: T)

  /** A raw cell value as it comes out of the loaded JSON: a number, a string, or a key
      that the record does not have (`undefined`). Numbers are modelled as integers. */
  datatype Value = Num(n: int) | Str(s: string) | Missing

  /** A record: field id to raw value. */
  type Row = map<string, Value>

  /** `row[field]`: a field the record does not carry reads as `undefined`. */
  function Get(row: Row, field: string): Value
  {
    if field in row then row[field] else Missing
  }

  // ---------------------------------------------------------------------------
  // Decimal text of numbers (`String(n)`) and the inverse parse (`Number(s)`)
  // ---------------------------------------------------------------------------

  predicate IsDigit(c: char)
  {
    '0' <= c <= '9'
  }

  predicate IsDigits(s: string)
  {
    |s| > 0 && forall i :: 0 <= i < |s| ==> IsDigit(s[i])
  }

  function DigitChar(d: nat): (c: char)
    requires d < 10
    ensures IsDigit(c) && c as int - '0' as int == d
  {
    ('0' as int + d) as char
  }

  /** Decimal digits of `n`, most significant first, without leading zeros. */
  function NatToString(n: nat): (s: string)
    ensures IsDigits(s)
    ensures s[0] == '0' ==> n == 0
    decreases n
  {
    if n < 10 then [DigitChar(n)] else NatToString(n / 10) + [DigitChar(n % 10)]
  }

  /** `String(n)` for an integral number. */
  function IntToString(i: int): (s: string)
    ensures |s| > 0
    ensures s[0] == '-' <==> i < 0
  {
    if i < 0 then "-" + NatToString(-i) else NatToString(i)
  }

  /** The number a string of decimal digits denotes. */
  function DigitsValue(s: string): nat
    requires forall i :: 0 <= i < |s| ==> IsDigit(s[i])
  {
    if s == [] then 0
    else
      var last := s[|s| - 1];
      assert IsDigit(last);
      DigitsValue(s[..|s| - 1]) * 10 + (last as int - '0' as int)
  }

  /** `Number(s)` for strings: the empty string converts to 0, an optionally signed run of
      decimal digits converts to its value, anything else is NaN (`None`). */
  function ParseNumber(s: string): Option<int>
  {
    if s == "" then Some(0)
    else if IsDigits(s) then Some(DigitsValue(s))
    else if (s[0] == '-' || s[0] == '+') && IsDigits(s[1..]) then
      var m: int := DigitsValue(s[1..]);
      Some(if s[0] == '-' then -m else m)
    else None
  }

  /** `Number(v)`: `None` stands for NaN. `Number(undefined)` is NaN. */
  function ToNumber(v: Value): Option<int>
  {
    match v
    case Num(n) => Some(n)
    case Str(s) => ParseNumber(s)
    case Missing => None
  }

  /** `String(v)`. */
  function ToStr(v: Value): string
  {
    match v
    case Num(n) => IntToString(n)
    case Str(s) => s
    case Missing => "undefined"
  }

  /** JavaScript truthiness of a cell: 0, the empty string and `undefined` are falsy. */
  predicate Falsy(v: Value)
  {
    v == Num(0) || v == Str("") || v == Missing
  }

  /** `String(v || '')`, the text the search looks at. */
  function SearchText(v: Value): (s: string)
    ensures s == "" <==> Falsy(v)
    ensures s != "" ==> s == ToStr(v)
  {
    if Falsy(v) then "" else ToStr(v)
  }

  /** How `Array.prototype.join` renders one element: `undefined` becomes the empty string. */
  function JoinText(v: Value): (s: string)
    ensures s == "" <==> v.Missing? || v == Str("")
    ensures !v.Missing? ==> s == ToStr(v)
  {
    if v.Missing? then "" else ToStr(v)
  }

  lemma {:induction false} DigitsValueOfNatToString(n: nat)
    ensures DigitsValue(NatToString(n)) == n
    decreases n
  {
    if n >= 10 {
      var s := NatToString(n);
      assert s[..|s| - 1] == NatToString(n / 10);
      DigitsValueOfNatToString(n / 10);
    }
  }

  /** `Number(String(n)) == n` for every integral number: the two coercions are inverse. */
  lemma NumberOfString(i: int)
    ensures ParseNumber(IntToString(i)) == Some(i)
  {
    if i < 0 {
      var s := IntToString(i);
      assert s[1..] == NatToString(-i);
      assert !IsDigits(s);
      DigitsValueOfNatToString(-i);
    } else {
      DigitsValueOfNatToString(i);
    }
  }

  // ---------------------------------------------------------------------------
  // Lower-casing and substring search
  // ---------------------------------------------------------------------------

  /** `toLowerCase` on one character, restricted to the Latin capital letters. */
  function LowerChar(c: char): (d: char)
    ensures !('A' <= d <= 'Z')
    ensures 'A' <= c <= 'Z' ==> d == "abcdefghijklmnopqrstuvwxyz"[c as int - 'A' as int]
    ensures !('A' <= c <= 'Z') ==> d == c
  {
    if 'A' <= c <= 'Z' then (c as int - 'A' as int + 'a' as int) as char else c
  }

  /** `toLowerCase()`: no capital is left, a text without capitals is unchanged, and each
      character is lowered on its own, so positions are kept. */
  function ToLower(s: string): (r: string)
    ensures |r| == |s|
    ensures forall i :: 0 <= i < |r| ==> !('A' <= r[i] <= 'Z')
    ensures (forall i :: 0 <= i < |s| ==> !('A' <= s[i] <= 'Z')) ==> r == s
    ensures forall i :: 0 <= i < |s| ==> r[i] == LowerChar(s[i])
  {
    seq(|s|, i requires 0 <= i < |s| => LowerChar(s[i]))
  }

  lemma ToLowerIdempotent(s: string)
    ensures ToLower(ToLower(s)) == ToLower(s)
  {
  }

  /** `needle` occurs in `hay` starting at offset `k`. */
  predicate OccursAt(hay: string, needle: string, k: int)
  {
    0 <= k && k + |needle| <= |hay| && hay[k..k + |needle|] == needle
  }

  /** `hay.includes(needle)`, scanning from the left. */
  function Contains(hay: string, needle: string): bool
    decreases |hay|
  {
    if |needle| > |hay| then false
    else if hay[..|needle|] == needle then true
    else Contains(hay[1..], needle)
  }

  /** An occurrence past the first character is an occurrence in the rest of the text. */
  lemma OccursShift(hay: string, needle: string, k: int)
    requires hay != [] && k >= 1
    ensures OccursAt(hay, needle, k) <==> OccursAt(hay[1..], needle, k - 1)
  {
    if k + |needle| <= |hay| {
      forall j | k <= j < k + |needle|
        ensures hay[j] == hay[1..][j - 1]
      {
      }
      assert hay[k..k + |needle|] == hay[1..][k - 1..k - 1 + |needle|];
    }
  }

  /** `Contains` holds exactly when `needle` occurs at some offset of `hay`. */
  lemma {:induction false} ContainsIffOccurs(hay: string, needle: string)
    ensures Contains(hay, needle) <==> exists k :: OccursAt(hay, needle, k)
    decreases |hay|
  {
    if |needle| > |hay| {
    } else if hay[..|needle|] == needle {
      assert OccursAt(hay, needle, 0);
    } else {
      ContainsIffOccurs(hay[1..], needle);
      if Contains(hay, needle) {
        var k :| OccursAt(hay[1..], needle, k);
        OccursShift(hay, needle, k + 1);
      } else {
        forall k | OccursAt(hay, needle, k)
          ensures false
        {
          assert k != 0;
          OccursShift(hay, needle, k);
        }
      }
    }
  }

  // ---------------------------------------------------------------------------
  // String comparison (`localeCompare`, modelled as ordering by character code)
  // ---------------------------------------------------------------------------

  /** Negative, zero or positive as `a` sorts before, with or after `b`. */
  function LexCompare(a: string, b: string): (r: int)
    ensures -1 <= r <= 1
  {
    if a == [] && b == [] then 0
    else if a == [] then -1
    else if b == [] then 1
    else if a[0] < b[0] then -1
    else if a[0] > b[0] then 1
    else LexCompare(a[1..], b[1..])
  }

  /** Swapping the operands negates the result. */
  lemma {:induction false} LexCompareAntisymmetric(a: string, b: string)
    ensures LexCompare(b, a) == -LexCompare(a, b)
  {
    if a != [] && b != [] && a[0] == b[0] {
      LexCompareAntisymmetric(a[1..], b[1..]);
    }
  }

  /** Only equal strings compare equal. */
  lemma {:induction false} LexCompareZeroIffEqual(a: string, b: string)
    ensures LexCompare(a, b) == 0 <==> a == b
  {
    if a != [] && b != [] && a[0] == b[0] {
      LexCompareZeroIffEqual(a[1..], b[1..]);
      assert a == [a[0]] + a[1..] && b == [b[0]] + b[1..];
    }
  }

  lemma {:induction false} LexCompareTransitive(a: string, b: string, c: string)
    requires LexCompare(a, b) <= 0 && LexCompare(b, c) <= 0
    ensures LexCompare(a, c) <= 0
  {
    if a != [] && b != [] && c != [] && a[0] == b[0] == c[0] {
      LexCompareTransitive(a[1..], b[1..], c[1..]);
    }
  }

  /** `a` is a proper prefix of `b`. */
  predicate ProperPrefix(a: string, b: string)
  {
    |a| < |b| && a == b[..|a|]
  }

  /** `a` and `b` first differ at a position where `a` has the smaller character code. */
  predicate SmallerAtFirstDifference(a: string, b: string)
  {
    exists k :: 0 <= k < |a| && k < |b| && a[..k] == b[..k] && a[k] < b[k]
  }

  lemma ProperPrefixOfTails(a: string, b: string)
    requires a != [] && b != [] && a[0] == b[0]
    ensures ProperPrefix(a, b) <==> ProperPrefix(a[1..], b[1..])
  {
    if ProperPrefix(a[1..], b[1..]) {
      assert a == [a[0]] + a[1..];
      assert b[..|a|] == [b[0]] + b[1..][..|a| - 1];
    }
    if ProperPrefix(a, b) {
      assert b[..|a|][1..] == b[1..][..|a| - 1];
    }
  }

  lemma SmallerAtFirstDifferenceOfTails(a: string, b: string)
    requires a != [] && b != [] && a[0] == b[0]
    ensures SmallerAtFirstDifference(a, b) <==> SmallerAtFirstDifference(a[1..], b[1..])
  {
    if SmallerAtFirstDifference(a[1..], b[1..]) {
      var k :| 0 <= k < |a| - 1 && k < |b| - 1 && a[1..][..k] == b[1..][..k] && a[1..][k] < b[1..][k];
      assert a[..k + 1] == [a[0]] + a[1..][..k];
      assert b[..k + 1] == [b[0]] + b[1..][..k];
    }
    if SmallerAtFirstDifference(a, b) {
      var k :| 0 <= k < |a| && k < |b| && a[..k] == b[..k] && a[k] < b[k];
      assert k > 0;
      assert a[1..][..k - 1] == a[..k][1..];
      assert b[1..][..k - 1] == b[..k][1..];
    }
  }

  /** `a` sorts strictly before `b` exactly when `a` is a proper prefix of `b` or the two
      first differ at a position where `a` has the smaller character code. */
  lemma {:induction false} LexCompareNegativeIff(a: string, b: string)
    ensures LexCompare(a, b) < 0 <==> ProperPrefix(a, b) || SmallerAtFirstDifference(a, b)
  {
    if a == [] || b == [] {
    } else if a[0] < b[0] {
      assert a[..0] == b[..0];
    } else if a[0] > b[0] {
      forall k | 0 < k <= |a| && k <= |b|
        ensures a[..k] != b[..k]
      {
        assert a[..k][0] != b[..k][0];
      }
    } else {
      LexCompareNegativeIff(a[1..], b[1..]);
      ProperPrefixOfTails(a, b);
      SmallerAtFirstDifferenceOfTails(a, b);
    }
  }
}
