/** What deserialize computes in both SerDe classes once the document is parsed: per column,
    the path read, the coercion of its text, and the write into the reused row buffer. */
module Extraction {
  import opened Wrappers
  import opened Coercion

  /** What JsonPath.read gives for one column: it throws InvalidPathException, returns null,
      or returns a value whose toString() is text. */
  datatype ReadOutcome = PathInvalid | NullValue | Found(text: string)

  /** The exceptions that escape deserialize. */
  datatype RecordError =
    | NumberFormat(input: string)   // valueOf of a numeric type rejected the text
    | ClassCast                     // the parsed document is not a JSONObject

  /** What deserialize returns: null for the whole record, the row buffer itself, or an
      exception. */
  datatype Deserialized = NullRecord | RowBuffer(buffer: array<Value>) | Thrown(error: RecordError)

  /** The slot value for one column: null when the read threw InvalidPathException or gave
      null, else the coerced text. */
  function ColumnValue(typeName: string, read: ReadOutcome): (r: Result<Value, RecordError>)
  {
    match read
    case PathInvalid => Success(Null)
    case NullValue => Success(Null)
    case Found(text) =>
      match Coerce(typeName, text)
      case Some(v) => Success(v)
      case None => Failure(NumberFormat(text))
  }

  /** The path read of every column against one document. */
  function ColumnReads<P, D>(names: seq<string>, paths: map<string, P>, read: (P, D) -> ReadOutcome, doc: D)
    : (r: seq<ReadOutcome>)
    requires forall c :: 0 <= c < |names| ==> names[c] in paths
    ensures |r| == |names|
    ensures forall c :: 0 <= c < |names| ==> r[c] == read(paths[names[c]], doc)
  {
    seq(|names|, c requires 0 <= c < |names| => read(paths[names[c]], doc))
  }

  /** The slot value (or escaping exception) of every column. */
  function Cells(types: seq<string>, outcomes: seq<ReadOutcome>): (r: seq<Result<Value, RecordError>>)
    requires |types| == |outcomes|
    ensures |r| == |outcomes|
    ensures forall c :: 0 <= c < |outcomes| ==> r[c] == ColumnValue(types[c], outcomes[c])
  {
    seq(|outcomes|, c requires 0 <= c < |outcomes| => ColumnValue(types[c], outcomes[c]))
  }

  /** The first column whose coercion throws, if any. */
  function FirstError(cells: seq<Result<Value, RecordError>>): (r: Option<nat>)
    ensures r.Some? ==> r.value < |cells| && cells[r.value].Failure?
    ensures r.Some? ==> forall j :: 0 <= j < r.value ==> cells[j].Success?
    ensures r.None? <==> forall j :: 0 <= j < |cells| ==> cells[j].Success?
  {
    if cells == [] then None
    else if cells[0].Failure? then Some(0)
    else match FirstError(cells[1..])
      case None => None
      case Some(k) => Some(k + 1)
  }

  /** The number of slots the loop writes before it stops. */
  function Written(cells: seq<Result<Value, RecordError>>): (r: nat)
  {
    if FirstError(cells).Some? then FirstError(cells).value else |cells|
  }

  /** The buffer after the loop: the written slots hold their column values, the others keep
      what the previous record left in them. */
  function RowAfter(previous: seq<Value>, cells: seq<Result<Value, RecordError>>): (r: seq<Value>)
    requires |previous| == |cells|
  {
    var k := Written(cells);
    seq(|previous|, c requires 0 <= c < |previous| => if c < k && cells[c].Success? then cells[c].value else previous[c])
  }

  /** What deserialize returns after the loop over columns. */
  function Returned(buffer: array<Value>, cells: seq<Result<Value, RecordError>>): (r: Deserialized)
  {
    match FirstError(cells)
    case None => RowBuffer(buffer)
    case Some(k) => Thrown(cells[k].error)
  }

  /** The empty row built at the end of initialize and reused by every deserialize: one
      null per column. */
  method NullRow(n: nat) returns (buffer: array<Value>)
    ensures fresh(buffer) && buffer.Length == n
    ensures forall c :: 0 <= c < n ==> buffer[c] == Null
  {
    buffer := new Value[n];
    for c := 0 to n
      invariant forall j :: 0 <= j < c ==> buffer[j] == Null
    {
      buffer[c] := Null;
    }
  }

  /** A column's cell throws exactly when its read found text that its type rejects, with that
      text in the exception; it is null exactly when the read threw or gave null; otherwise it
      holds the coerced text. */
  lemma CellOutcomes(types: seq<string>, outcomes: seq<ReadOutcome>, c: nat)
    requires |types| == |outcomes| && c < |outcomes|
    ensures Cells(types, outcomes)[c].Failure? <==> outcomes[c].Found? && Coerce(types[c], outcomes[c].text).None?
    ensures Cells(types, outcomes)[c].Failure? ==> Cells(types, outcomes)[c].error == NumberFormat(outcomes[c].text)
    ensures Cells(types, outcomes)[c] == Success(Null) <==> !outcomes[c].Found?
    ensures outcomes[c].Found? && Cells(types, outcomes)[c].Success? ==>
      Some(Cells(types, outcomes)[c].value) == Coerce(types[c], outcomes[c].text)
  {
  }

  /** The record fails exactly when some column read yields text its declared type cannot parse,
      and the exception is the first such column's. */
  lemma FailsIffUncoercible(types: seq<string>, outcomes: seq<ReadOutcome>)
    requires |types| == |outcomes|
    ensures FirstError(Cells(types, outcomes)).Some? <==>
      exists c :: 0 <= c < |outcomes| && outcomes[c].Found? && Coerce(types[c], outcomes[c].text).None?
    ensures FirstError(Cells(types, outcomes)).Some? ==>
      var k := FirstError(Cells(types, outcomes)).value;
      outcomes[k].Found? && Coerce(types[k], outcomes[k].text).None? &&
      Cells(types, outcomes)[k] == Failure(NumberFormat(outcomes[k].text))
  {
    var cells := Cells(types, outcomes);
    if FirstError(cells).None? {
      forall c | 0 <= c < |outcomes| && outcomes[c].Found? ensures Coerce(types[c], outcomes[c].text).Some? {
        assert cells[c].Success?;
      }
    } else {
      var k := FirstError(cells).value;
      assert cells[k].Failure?;
    }
  }

  /** When no column throws, every slot is rewritten: slot c is null exactly when its read
      threw InvalidPathException or gave null, and otherwise holds the coerced text. */
  lemma SlotsOfCompleteRow(previous: seq<Value>, types: seq<string>, outcomes: seq<ReadOutcome>, c: nat)
    requires |previous| == |types| == |outcomes|
    requires FirstError(Cells(types, outcomes)).None?
    requires c < |outcomes|
    ensures |RowAfter(previous, Cells(types, outcomes))| == |outcomes|
    ensures RowAfter(previous, Cells(types, outcomes))[c] == Null <==> outcomes[c].PathInvalid? || outcomes[c].NullValue?
    ensures outcomes[c].Found? ==> Some(RowAfter(previous, Cells(types, outcomes))[c]) == Coerce(types[c], outcomes[c].text)
  {
    var cells := Cells(types, outcomes);
    assert cells[c].Success?;
  }

  /** A completed row does not depend on what was in the buffer before: extracting the same
      document twice gives the same row. */
  lemma CompleteRowIgnoresPrevious(a: seq<Value>, b: seq<Value>, cells: seq<Result<Value, RecordError>>)
    requires |a| == |b| == |cells|
    requires FirstError(cells).None?
    ensures RowAfter(a, cells) == RowAfter(b, cells)
  {
    assert forall c :: 0 <= c < |cells| ==> cells[c].Success?;
  }

  /** When column k throws, the slots before it are rewritten and the rest keep their old values. */
  lemma PartialRowOnFailure(previous: seq<Value>, cells: seq<Result<Value, RecordError>>, k: nat)
    requires |previous| == |cells|
    requires FirstError(cells) == Some(k)
    ensures forall c :: 0 <= c < k ==> cells[c].Success?
    ensures forall c :: 0 <= c < k ==> RowAfter(previous, cells)[c] == cells[c].value
    ensures forall c :: k <= c < |cells| ==> RowAfter(previous, cells)[c] == previous[c]
  {
  }

  /** A document missing a field gives null in that column and the value in the others. */
  lemma MissingFieldExample(previous: seq<Value>)
    requires |previous| == 2
    ensures RowAfter(previous, Cells(["string", "int"], [Found("a1"), PathInvalid])) == [Str("a1"), Null]
  {
    var cells := Cells(["string", "int"], [Found("a1"), PathInvalid]);
    StringIsTextType();
    TextTypeKeepsText("string", "a1");
    assert cells == [Success(Str("a1")), Success(Null)];
    assert FirstError(cells) == None;
  }
}
