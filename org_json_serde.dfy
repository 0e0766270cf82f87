/** JsonSerde.java: the SerDe built on org.json, whose parsed object lower-cases every key
    as it is inserted. */
module OrgJsonSerde {
  import opened Wrappers
  import opened JavaStrings
  import opened Coercion
  import opened Binding
  import opened Extraction

  /** The overridden JSONObject.put: the key is stored lower-cased, replacing any value
      already stored under it. */
  function Put<J>(obj: map<string, J>, key: string, value: J): (r: map<string, J>)
  {
    obj[ToLower(key) := value]
  }

  /** The object new JSONObject(text) builds: the parser calls put once per member of the
      top-level object, in document order. Nested objects are values of type J and are not
      lower-cased. */
  function ParsedObject<J>(members: seq<(string, J)>): (r: map<string, J>)
  {
    if members == [] then map[]
    else Put(ParsedObject(members[..|members| - 1]), members[|members| - 1].0, members[|members| - 1].1)
  }

  /** Every stored key is lower-case, and the keys are exactly the lower-cased member names. */
  lemma {:induction false} ParsedObjectKeys<J>(members: seq<(string, J)>)
    ensures ParsedObject(members).Keys == set i | 0 <= i < |members| :: ToLower(members[i].0)
    ensures forall k :: k in ParsedObject(members) ==> IsLowerCase(k)
  {
    if members != [] {
      var front := members[..|members| - 1];
      ParsedObjectKeys(front);
      ToLowerIsLowerCase(members[|members| - 1].0);
      assert forall i :: 0 <= i < |front| ==> front[i] == members[i];
      assert (set i | 0 <= i < |members| :: ToLower(members[i].0)) ==
             (set i | 0 <= i < |front| :: ToLower(front[i].0)) + {ToLower(members[|members| - 1].0)};
    }
  }

  /** A member's value is found under its lower-cased name unless a later member's name is
      the same ignoring case (then the later one wins). */
  lemma {:induction false} ParsedObjectLookup<J>(members: seq<(string, J)>, i: nat)
    requires i < |members|
    requires forall j :: i < j < |members| ==> !EqualsIgnoreCase(members[j].0, members[i].0)
    ensures ToLower(members[i].0) in ParsedObject(members)
    ensures ParsedObject(members)[ToLower(members[i].0)] == members[i].1
  {
    var last := |members| - 1;
    if i < last {
      var front := members[..last];
      ParsedObjectLookup(front, i);
      EqualsIgnoreCaseIffSameLower(members[last].0, members[i].0);
    }
  }

  /** A key written in upper case in the document is found under its lower-case name. */
  lemma UpperCaseKeyExample<J>(x: J)
    ensures ParsedObject([("ID", x)]) == map["id" := x]
  {
    assert ToLower("ID") == "id";
  }

  /** The SerDe object. P is the compiled JsonPath type; the fields are those of the Java class
      that the binding and extraction code read and write. */
  class JsonSerde<P> {
    var tableProperties: Option<Properties>
    var columnNames: seq<string>
    var columnTypes: seq<string>
    var numberOfColumns: nat
    var colNameJsonPathMap: map<string, P>
    var row: array?<Value>

    /** The state after a successful initialize. */
    ghost predicate Valid()
      reads this
    {
      && row != null
      && numberOfColumns == |columnNames| == |columnTypes| == row.Length
      && forall c :: 0 <= c < |columnNames| ==> columnNames[c] in colNameJsonPathMap
    }

    /** A fresh SerDe: Java leaves every field null until initialize. */
    constructor ()
      ensures tableProperties == None && columnNames == [] && columnTypes == []
      ensures numberOfColumns == 0 && colNameJsonPathMap == map[] && row == null
    {
      tableProperties := None;
      columnNames := [];
      columnTypes := [];
      numberOfColumns := 0;
      colNameJsonPathMap := map[];
      row := null;
    }

    /** initialize(sysProps, tableProperties). The declared type names stand for the parsed
        "columns.types" property; compile and isDefinite for JsonPath.compile and
        isPathDefinite. */
    method Initialize(props: Properties, columnTypeNames: seq<string>,
                      compile: string -> Option<P>, isDefinite: P -> bool)
      returns (outcome: Outcome<BindError>)
      requires props.GetProperty(LIST_COLUMNS).Some? ==>
        |Split(props.GetProperty(LIST_COLUMNS).value, ',')| == |columnTypeNames|
      modifies this
      ensures tableProperties == Some(props)
      ensures props.GetProperty(LIST_COLUMNS).None? ==>
        && outcome == Fail(MissingColumnList)
        && columnNames == old(columnNames) && columnTypes == old(columnTypes)
        && numberOfColumns == old(numberOfColumns)
        && colNameJsonPathMap == old(colNameJsonPathMap) && row == old(row)
      ensures props.GetProperty(LIST_COLUMNS).Some? ==>
        var bound := Bind(columnNames, ColumnBinder(props, compile, isDefinite));
        && columnNames == Split(props.GetProperty(LIST_COLUMNS).value, ',')
        && columnTypes == columnTypeNames
        && numberOfColumns == |columnNames|
        && colNameJsonPathMap == bound.paths
        && (bound.Failed? ==> outcome == Fail(bound.error) && row == old(row))
        && (bound.Bound? ==>
              outcome == Pass && fresh(row) && Valid() && forall c :: 0 <= c < row.Length ==> row[c] == Null)
    {
      this.tableProperties := Some(props);
      var columnNameProperty := props.GetProperty(LIST_COLUMNS);
      if columnNameProperty.None? {
        return Fail(MissingColumnList);
      }
      columnNames := Split(columnNameProperty.value, ',');
      columnTypes := columnTypeNames;
      numberOfColumns := |columnNames|;

      var paths, error := BindColumns(columnNames, props, compile, isDefinite);
      colNameJsonPathMap := paths;
      if error.Some? {
        return Fail(error.value);
      }
      BoundCoversColumns(columnNames, ColumnBinder(props, compile, isDefinite));

      var buffer := NullRow(numberOfColumns);
      row := buffer;
      return Pass;
    }

    /** deserialize(blob). parse stands for new JSONObject(text): the top-level members in
        document order, or None when it throws JSONException. read stands for
        columnPath.read(jsonObject.toString()). */
    method Deserialize<J>(rowText: string, parse: string -> Option<seq<(string, J)>>,
                          read: (P, map<string, J>) -> ReadOutcome)
      returns (result: Deserialized)
      requires Valid()
      modifies row
      ensures Valid()
      ensures parse(rowText).None? ==> result == NullRecord && row[..] == old(row[..])
      ensures parse(rowText).Some? ==>
        var cells := Cells(columnTypes, ColumnReads(columnNames, colNameJsonPathMap, read, ParsedObject(parse(rowText).value)));
        && row[..] == RowAfter(old(row[..]), cells)
        && result == Returned(row, cells)
    {
      var members := parse(rowText);
      if members.None? {
        return NullRecord;
      }
      var jsonObject := ParsedObject(members.value);
      ghost var cells := Cells(columnTypes, ColumnReads(columnNames, colNameJsonPathMap, read, jsonObject));

      for c := 0 to numberOfColumns
        invariant forall j :: 0 <= j < c ==> cells[j].Success? && row[j] == cells[j].value
        invariant forall j :: c <= j < numberOfColumns ==> row[j] == old(row[j])
      {
        var columnPath := colNameJsonPathMap[columnNames[c]];
        var typeInfo := columnTypes[c];
        var temporaryValue: Option<string> :=
          match read(columnPath, jsonObject)
          case PathInvalid => None
          case NullValue => None
          case Found(text) => Some(text);
        var value: Value;
        if temporaryValue.None? {
          value := Null;
        } else {
          var columnValue := temporaryValue.value;
          var coerced := Coerce(typeInfo, columnValue);
          if coerced.None? {
            assert FirstError(cells) == Some(c);
            assert row[..] == RowAfter(old(row[..]), cells);
            return Thrown(NumberFormat(columnValue));
          }
          value := coerced.value;
        }
        row[c] := value;
      }
      assert FirstError(cells) == None;
      assert row[..] == RowAfter(old(row[..]), cells);
      return RowBuffer(row);
    }
  }
}
