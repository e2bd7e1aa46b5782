/** The text a double click on a cell puts on the clipboard (src/App.jsx,
    `handleCellDoubleClick`). */
module Copy {
  import opened Values
  import opened Table

  /** The JavaScript string `'\\'`: one backslash. */
  const Separator: char := '\\'

  /** `parts.join(sep)`: the parts with one `sep` between neighbours; no parts join to "". */
  function Join(parts: seq<string>, sep: char): string
  {
    if |parts| == 0 then ""
    else if |parts| == 1 then parts[0]
    else parts[0] + [sep] + Join(parts[1..], sep)
  }

  /** `s.split(sep)`, the inverse reading of `Join`: the pieces between the separators. */
  function Split(s: string, sep: char): (parts: seq<string>)
    ensures |parts| >= 1
  {
    if s == [] then [""]
    else
      var rest := Split(s[1..], sep);
      if s[0] == sep then [""] + rest
      else [[s[0]] + rest[0]] + rest[1..]
  }

  /** `copyFields.map(field => row[field])` as `join` renders the values. */
  function FieldTexts(row: Row, fields: seq<string>): (texts: seq<string>)
    ensures |texts| == |fields|
    ensures forall i :: 0 <= i < |fields| ==> texts[i] == JoinText(Get(row, fields[i]))
  {
    seq(|fields|, i requires 0 <= i < |fields| => JoinText(Get(row, fields[i])))
  }

  /** The copied text: nothing for a column without `copyFields`, otherwise the listed fields'
      values in the listed order joined by single backslashes. */
  function CopyText(row: Row, header: Header): Option<string>
  {
    if header.copyFields.None? then None
    else Some(Join(FieldTexts(row, header.copyFields.value), Separator))
  }

  /** The parts contain no separator. */
  predicate Separable(parts: seq<string>, sep: char)
  {
    forall i :: 0 <= i < |parts| ==> sep !in parts[i]
  }

  /** Text without a separator is a single piece. */
  lemma {:induction false} SplitNoSeparator(p: string, sep: char)
    requires sep !in p
    ensures Split(p, sep) == [p]
  {
    if p != [] {
      assert sep !in p[1..] by { assert forall x :: x in p[1..] ==> x in p; }
      SplitNoSeparator(p[1..], sep);
      assert [p[0]] + p[1..] == p;
    }
  }

  /** A first piece without a separator, then a separator, then the rest. */
  lemma {:induction false} SplitAtSeparator(p: string, t: string, sep: char)
    requires sep !in p
    ensures Split(p + [sep] + t, sep) == [p] + Split(t, sep)
  {
    if p == [] {
      assert ([] + [sep] + t)[1..] == t;
    } else {
      assert sep !in p[1..] by { assert forall x :: x in p[1..] ==> x in p; }
      SplitAtSeparator(p[1..], t, sep);
      assert (p + [sep] + t)[1..] == p[1..] + [sep] + t;
      assert [p[0]] + p[1..] == p;
    }
  }

  /** Splitting a join gives the parts back when no part contains the separator (and there
      is at least one part: `[].join(sep)` and `[""].join(sep)` are both ""). */
  lemma {:induction false} SplitJoin(parts: seq<string>, sep: char)
    requires |parts| >= 1 && Separable(parts, sep)
    ensures Split(Join(parts, sep), sep) == parts
  {
    if |parts| == 1 {
      SplitNoSeparator(parts[0], sep);
    } else {
      assert Separable(parts[1..], sep);
      SplitJoin(parts[1..], sep);
      SplitAtSeparator(parts[0], Join(parts[1..], sep), sep);
      assert parts == [parts[0]] + parts[1..];
    }
  }

  /** A column without `copyFields` copies nothing; one with an empty list (which is truthy in
      JavaScript) copies the empty text. */
  lemma CopyTextCases(row: Row, header: Header)
    ensures header.copyFields.None? <==> CopyText(row, header).None?
    ensures header.copyFields == Some([]) ==> CopyText(row, header) == Some("")
  {
  }

  /** When no copied value contains a backslash, the copied text splits at its backslashes into
      exactly the listed fields' values, in the listed order. */
  lemma CopyTextSplits(row: Row, header: Header)
    requires header.copyFields.Some? && |header.copyFields.value| >= 1
    requires Separable(FieldTexts(row, header.copyFields.value), Separator)
    ensures CopyText(row, header).Some?
    ensures Split(CopyText(row, header).value, Separator) == FieldTexts(row, header.copyFields.value)
  {
    SplitJoin(FieldTexts(row, header.copyFields.value), Separator);
  }

  /** A field the record lacks contributes an empty piece of the copied text, not the text
      "undefined": when no copied value contains a backslash, its piece after splitting is "". */
  lemma MissingFieldEmptyPiece(row: Row, header: Header, i: nat)
    requires header.copyFields.Some? && i < |header.copyFields.value|
    requires header.copyFields.value[i] !in row
    requires Separable(FieldTexts(row, header.copyFields.value), Separator)
    ensures CopyText(row, header).Some?
    ensures |Split(CopyText(row, header).value, Separator)| == |header.copyFields.value|
    ensures Split(CopyText(row, header).value, Separator)[i] == ""
  {
    CopyTextSplits(row, header);
  }

  /** `{a: "x"}` with the fields `a`, `b`, `a` copies `x\\x`: the missing `b` gives an empty
      piece. */
  lemma MissingFieldCopiesEmpty()
    ensures CopyText(map["a" := Str("x")], Header("a", "A", None, Some(["a", "b", "a"]))) == Some("x\\\\x")
  {
    var row := map["a" := Str("x")];
    var texts := FieldTexts(row, ["a", "b", "a"]);
    assert texts == ["x", "", "x"];
    assert texts[1..] == ["", "x"] && texts[1..][1..] == ["x"];
    assert Join(["", "x"], Separator) == "\\x";
    assert Join(texts, Separator) == "x" + "\\" + "\\x" == "x\\\\x";
    assert CopyText(row, Header("a", "A", None, Some(["a", "b", "a"]))) == Some(Join(texts, Separator));
  }
}
