/** The loaded dataset: column headers and records. */
module Table {
  import opened Values

  /** A column (`caption` is its `label`). `format` names a formatter for its cells; `copyFields` lists the fields a
      double click on one of its cells copies (absent: the cell copies nothing). */
  datatype Header = Header(id: string, caption: string, format: Option<string>, copyFields: Option<seq<string>>)

  datatype Dataset = Dataset(headers: seq<Header>, data: seq<Row>)

  /** What the view falls back to when loading fails. */
  const EmptyDataset := Dataset([], [])

  /** `headers.map(h => h.id)`. */
  function HeaderIds(headers: seq<Header>): (ids: seq<string>)
    ensures |ids| == |headers|
    ensures forall i :: 0 <= i < |headers| ==> ids[i] == headers[i].id
  {
    if headers == [] then [] else HeaderIds(headers[..|headers| - 1]) + [headers[|headers| - 1].id]
  }
}
