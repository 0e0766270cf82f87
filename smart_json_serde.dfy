/** JsonSerDe.java: the SerDe built on json-smart, whose parser keeps keys as written. */
module SmartJsonSerDe {
  import opened Wrappers
  import opened JavaStrings
  import opened Coercion
  import opened Binding
  import opened Extraction

  /** What (JSONObject) JSONValue.parseWithException(text) yields: a ParseException, an
      object with its top-level members in document order, the JSON literal null (the cast
      of null succeeds), or some other JSON value, whose cast throws ClassCastException. */
  datatype SmartParse<J> =
    | ParseException
    | ObjectValue(members: seq<(string, J)>)
    | JsonNull
    | NotAnObject

  /** The JSONObject json-smart builds: a HashMap filled member by member, a later member
      replacing an earlier one with exactly the same name. */
  function SmartObject<J>(members: seq<(string, J)>): (r: map<string, J>)
  {
    if members == [] then map[]
    else SmartObject(members[..|members| - 1])[members[|members| - 1].0 := members[|members| - 1].1]
  }

  /** The keys are the member names exactly as written. */
  lemma {:induction false} SmartObjectKeys<J>(members: seq<(string, J)>)
    ensures SmartObject(members).Keys == set i | 0 <= i < |members| :: members[i].0
  {
    if members != [] {
      var front := members[..|members| - 1];
      SmartObjectKeys(front);
      assert forall i :: 0 <= i < |front| ==> front[i] == members[i];
      assert (set i | 0 <= i < |members| :: members[i].0) ==
             (set i | 0 <= i < |front| :: front[i].0) + {members[|members| - 1].0};
    }
  }

  /** A member's value is stored under its name unless a later member has the same name. */
  lemma {:induction false} SmartObjectLookup<J>(members: seq<(string, J)>, i: nat)
    requires i < |members|
    requires forall j :: i < j < |members| ==> members[j].0 != members[i].0
    ensures members[i].0 in SmartObject(members)
    ensures SmartObject(members)[members[i].0] == members[i].1
  {
    var last := |members| - 1;
    if i < last {
      SmartObjectLookup(members[..last], i);
    }
  }

  /** Unlike the org.json SerDe, an upper-case key is not found under its lower-case name. */
  lemma UpperCaseKeyKept<J>(x: J)
    ensures SmartObject([("ID", x)]) == map["ID" := x]
    ensures "id" !in SmartObject([("ID", x)])
  {
  }

  /** The document handed to JsonPath.read: the parsed object, or None for Java null (the
      only other outcome that reaches the read). */
  function Document<J>(parsed: SmartParse<J>): (r: Option<map<string, J>>)
  {
    if parsed.ObjectValue? then Some(SmartObject(parsed.members)) else None
  }

  /** The SerDe object. P is the compiled JsonPath type; the fields are those of the Java class
      that the binding and extraction code read and write. */
  class JsonSerDe<P> {
    var columnNames: seq<string>
    var columnTypes: seq<string>
    var numberOfColumns: nat
    var columnNameJsonPathMap: map<string, P>
    var row: array?<Value>

    /** The state after a successful initialize. */
    ghost predicate Valid()
      reads this
    {
      && row != null
      && numberOfColumns == |columnNames| == |columnTypes| == row.Length
      && forall c :: 0 <= c < |columnNames| ==> columnNames[c] in columnNameJsonPathMap
    }

    /** A fresh SerDe: Java leaves every field null until initialize. */
    constructor ()
      ensures columnNames == [] && columnTypes == []
      ensures numberOfColumns == 0 && columnNameJsonPathMap == map[] && row == null
    {
      columnNames := [];
      columnTypes := [];
      numberOfColumns := 0;
      columnNameJsonPathMap := map[];
      row := null;
    }

    /** initialize(systemProperties, tableProperties). The declared type names stand for the
        parsed "columns.types" property; compile and isDefinite for JsonPath.compile and
        isPathDefinite. */
    method Initialize(props: Properties, columnTypeNames: seq<string>,
                      compile: string -> Option<P>, isDefinite: P -> bool)
      returns (outcome: Outcome<BindError>)
      requires props.GetProperty(LIST_COLUMNS).Some? ==>
        |Split(props.GetProperty(LIST_COLUMNS).value, ',')| == |columnTypeNames|
      modifies this
      ensures props.GetProperty(LIST_COLUMNS).None? ==>
        && outcome == Fail(MissingColumnList)
        && columnNames == old(columnNames) && columnTypes == old(columnTypes)
        && numberOfColumns == old(numberOfColumns)
        && columnNameJsonPathMap == old(columnNameJsonPathMap) && row == old(row)
      ensures props.GetProperty(LIST_COLUMNS).Some? ==>
        var bound := Bind(columnNames, ColumnBinder(props, compile, isDefinite));
        && columnNames == Split(props.GetProperty(LIST_COLUMNS).value, ',')
        && columnTypes == columnTypeNames
        && numberOfColumns == |columnNames|
        && columnNameJsonPathMap == bound.paths
        && (bound.Failed? ==> outcome == Fail(bound.error) && row == old(row))
        && (bound.Bound? ==>
              outcome == Pass && fresh(row) && Valid() && forall c :: 0 <= c < row.Length ==> row[c] == Null)
    {
      var columnNameProperty := props.GetProperty(LIST_COLUMNS);
      if columnNameProperty.None? {
        return Fail(MissingColumnList);
      }
      columnNames := Split(columnNameProperty.value, ',');
      columnTypes := columnTypeNames;
      numberOfColumns := |columnNames|;

      var paths, error := BindColumns(columnNames, props, compile, isDefinite);
      columnNameJsonPathMap := paths;
      if error.Some? {
        return Fail(error.value);
      }
      BoundCoversColumns(columnNames, ColumnBinder(props, compile, isDefinite));

      var buffer := NullRow(numberOfColumns);
      row := buffer;
      return Pass;
    }

    /** deserialize(blob). parse stands for the cast of JSONValue.parseWithException(text);
        read stands for columnPath.read(jsonObject). */
    method Deserialize<J>(rowText: string, parse: string -> SmartParse<J>,
                          read: (P, Option<map<string, J>>) -> ReadOutcome)
      returns (result: Deserialized)
      requires Valid()
      modifies row
      ensures Valid()
      ensures parse(rowText).ParseException? ==> result == NullRecord && row[..] == old(row[..])
      ensures parse(rowText).NotAnObject? ==> result == Thrown(ClassCast) && row[..] == old(row[..])
      ensures parse(rowText).ObjectValue? || parse(rowText).JsonNull? ==>
        var cells := Cells(columnTypes, ColumnReads(columnNames, columnNameJsonPathMap, read, Document(parse(rowText))));
        && row[..] == RowAfter(old(row[..]), cells)
        && result == Returned(row, cells)
    {
      var parsed := parse(rowText);
      if parsed.ParseException? {
        return NullRecord;
      }
      if parsed.NotAnObject? {
        return Thrown(ClassCast);
      }
      var jsonObject := Document(parsed);
      ghost var cells := Cells(columnTypes, ColumnReads(columnNames, columnNameJsonPathMap, read, jsonObject));

      for columnIndex := 0 to numberOfColumns
        invariant forall j :: 0 <= j < columnIndex ==> cells[j].Success? && row[j] == cells[j].value
        invariant forall j :: columnIndex <= j < numberOfColumns ==> row[j] == old(row[j])
      {
        var columnPath := columnNameJsonPathMap[columnNames[columnIndex]];
        var typeInfo := columnTypes[columnIndex];
        var temporaryValue: Option<string> :=
          match read(columnPath, jsonObject)
          case PathInvalid => None
          case NullValue => None
          case Found(text) => Some(text);
        var value: Value;
        if temporaryValue.None? {
          value := Null;
        } else {
          var columnValue := temporaryValue.value;
          var coerced := Coerce(typeInfo, columnValue);
          if coerced.None? {
            assert FirstError(cells) == Some(columnIndex);
            assert row[..] == RowAfter(old(row[..]), cells);
            return Thrown(NumberFormat(columnValue));
          }
          value := coerced.value;
        }
        row[columnIndex] := value;
      }
      assert FirstError(cells) == None;
      assert row[..] == RowAfter(old(row[..]), cells);
      return RowBuffer(row);
    }
  }
}
