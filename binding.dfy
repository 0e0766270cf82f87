/** What initialize computes in both SerDe classes: for each column, in declared order, the
    path text of the first table property whose name equals the column name ignoring case,
    compiled and checked to be definite. */
module Binding {
  import opened Wrappers
  import opened JavaStrings

  /** Hive's serde Constants.LIST_COLUMNS: the property holding the comma-separated column names. */
  const LIST_COLUMNS: string := "columns"

  /** The table properties as the binding loop sees them: stringPropertyNames().toArray()
      in array order, each name with its value. */
  datatype Properties = Properties(entries: seq<(string, string)>) {

    function Names(): (r: seq<string>)
      ensures |r| == |entries|
      ensures forall i :: 0 <= i < |entries| ==> r[i] == entries[i].0
    {
      seq(|entries|, i requires 0 <= i < |entries| => entries[i].0)
    }

    /** Properties.getProperty: the value stored under exactly this name, null if none. */
    function GetProperty(key: string): (r: Option<string>)
    {
      Lookup(entries, key)
    }
  }

  /** The search behind getProperty: null exactly when no entry carries the name. */
  function Lookup(entries: seq<(string, string)>, key: string): (r: Option<string>)
    ensures r.None? <==> forall i :: 0 <= i < |entries| ==> entries[i].0 != key
  {
    if entries == [] then None
    else if entries[0].0 == key then Some(entries[0].1)
    else Lookup(entries[1..], key)
  }

  /** The position of the first key equal to name ignoring case (the inner loop with break). */
  function FirstMatch(keys: seq<string>, name: string): (r: Option<nat>)
    ensures r.Some? ==> r.value < |keys| && EqualsIgnoreCase(keys[r.value], name)
    ensures r.Some? ==> forall j :: 0 <= j < r.value ==> !EqualsIgnoreCase(keys[j], name)
    ensures r.None? <==> forall j :: 0 <= j < |keys| ==> !EqualsIgnoreCase(keys[j], name)
  {
    if keys == [] then None
    else if EqualsIgnoreCase(keys[0], name) then Some(0)
    else match FirstMatch(keys[1..], name)
      case None => None
      case Some(k) => Some(k + 1)
  }

  /** The path text bound to a column: getProperty of the first matching property name. */
  function PathProperty(props: Properties, column: string): (r: Option<string>)
    ensures r.None? <==> forall j :: 0 <= j < |props.entries| ==> !EqualsIgnoreCase(props.entries[j].0, column)
    ensures r.Some? ==>
      FirstMatch(props.Names(), column).Some? && r.value == props.entries[FirstMatch(props.Names(), column).value].1
  {
    var names := props.Names();
    match FirstMatch(names, column)
    case None => None
    case Some(i) =>
      FirstExactMatchIsFirstMatch(props, column, i);
      props.GetProperty(names[i])
  }

  /** Looking up the first case-insensitive match by its exact name finds that very entry:
      any earlier entry with the same exact name would have matched first. */
  lemma FirstExactMatchIsFirstMatch(props: Properties, column: string, i: nat)
    requires i < |props.entries| && EqualsIgnoreCase(props.entries[i].0, column)
    requires forall j :: 0 <= j < i ==> !EqualsIgnoreCase(props.entries[j].0, column)
    ensures props.GetProperty(props.entries[i].0) == Some(props.entries[i].1)
  {
    LookupFirst(props.entries, props.entries[i].0, i);
  }

  /** getProperty finds the first entry stored under the name. */
  lemma {:induction false} LookupFirst(entries: seq<(string, string)>, key: string, i: nat)
    requires i < |entries| && entries[i].0 == key
    requires forall j :: 0 <= j < i ==> entries[j].0 != key
    ensures Lookup(entries, key) == Some(entries[i].1)
  {
    if i > 0 {
      LookupFirst(entries[1..], key, i - 1);
    }
  }

  /** The ways initialize fails, each carrying what its message names: a SerDeException for
      a missing property or an ambiguous path, the unchecked exceptions otherwise. */
  datatype BindError =
    | MissingColumnList             // no "columns" property: NullPointerException
    | MissingProperty(column: string)
    | InvalidPath(path: string)     // JsonPath.compile throws InvalidPathException
    | AmbiguousPath(path: string)   // the compiled path is not definite

  /** Binding of one column; compile and isDefinite stand for JsonPath.compile and
      JsonPath.isPathDefinite. */
  function BindColumn<P>(props: Properties, column: string, compile: string -> Option<P>,
                         isDefinite: P -> bool): (r: Result<P, BindError>)
  {
    match PathProperty(props, column)
    case None => Failure(MissingProperty(column))
    case Some(path) =>
      match compile(path)
      case None => Failure(InvalidPath(path))
      case Some(p) => if isDefinite(p) then Success(p) else Failure(AmbiguousPath(path))
  }

  /** BindColumn for a fixed table and path library, as a function of the column name. */
  function ColumnBinder<P>(props: Properties, compile: string -> Option<P>, isDefinite: P -> bool)
    : (r: string -> Result<P, BindError>)
  {
    column => BindColumn(props, column, compile, isDefinite)
  }

  /** The column-to-path map and, if a column failed, the exception that stopped the loop;
      the map is what had been put into the HashMap when it was thrown. */
  datatype BindState<P> = Bound(paths: map<string, P>) | Failed(paths: map<string, P>, error: BindError)

  /** The binding loop over columns, as a fold over its prefix. */
  function Bind<P>(columns: seq<string>, bind: string -> Result<P, BindError>): (r: BindState<P>)
  {
    if columns == [] then Bound(map[])
    else
      var prior := Bind(columns[..|columns| - 1], bind);
      var column := columns[|columns| - 1];
      if prior.Failed? then prior
      else match bind(column)
        case Failure(e) => Failed(prior.paths, e)
        case Success(p) => Bound(prior.paths[column := p])
  }

  /** One more turn of the binding loop. */
  lemma BindStep<P>(columns: seq<string>, z: nat, bind: string -> Result<P, BindError>)
    requires z < |columns|
    requires Bind(columns[..z], bind).Bound?
    ensures Bind(columns[..z + 1], bind) ==
      match bind(columns[z])
      case Failure(e) => Failed(Bind(columns[..z], bind).paths, e)
      case Success(p) => Bound(Bind(columns[..z], bind).paths[columns[z] := p])
  {
    assert columns[..z + 1][..z] == columns[..z];
  }

  /** The inner loop of initialize: scan the property names in array order for the first
      one equal to the column name ignoring case, and take its value. */
  method FindPathProperty(props: Properties, column: string) returns (currentJsonPath: Option<string>)
    ensures currentJsonPath == PathProperty(props, column)
  {
    var propertiesSet := props.Names();
    currentJsonPath := None;
    var k := 0;
    while k < |propertiesSet|
      invariant 0 <= k <= |propertiesSet|
      invariant forall j :: 0 <= j < k ==> !EqualsIgnoreCase(propertiesSet[j], column)
    {
      if EqualsIgnoreCase(propertiesSet[k], column) {
        assert FirstMatch(propertiesSet, column) == Some(k);
        currentJsonPath := props.GetProperty(propertiesSet[k]);
        return;
      }
      k := k + 1;
    }
  }

  /** The outer loop of initialize: bind the columns in declared order, putting each path
      into the map, and stop at the first column that fails. On failure paths is what the
      HashMap held when the exception was thrown. */
  method BindColumns<P>(columns: seq<string>, props: Properties, compile: string -> Option<P>,
                        isDefinite: P -> bool)
    returns (paths: map<string, P>, error: Option<BindError>)
    ensures Bind(columns, ColumnBinder(props, compile, isDefinite)) ==
      if error.None? then Bound(paths) else Failed(paths, error.value)
  {
    ghost var bind := ColumnBinder(props, compile, isDefinite);
    paths := map[];
    var z := 0;
    while z < |columns|
      invariant 0 <= z <= |columns|
      invariant Bind(columns[..z], bind) == Bound(paths)
    {
      var colName := columns[z];
      var currentJsonPath := FindPathProperty(props, colName);
      BindStep(columns, z, bind);
      if currentJsonPath.None? {
        BindStopsAtFailure(columns, z + 1, bind);
        return paths, Some(MissingProperty(colName));
      }
      var compiledPath := compile(currentJsonPath.value);
      if compiledPath.None? {
        BindStopsAtFailure(columns, z + 1, bind);
        return paths, Some(InvalidPath(currentJsonPath.value));
      }
      if !isDefinite(compiledPath.value) {
        BindStopsAtFailure(columns, z + 1, bind);
        return paths, Some(AmbiguousPath(currentJsonPath.value));
      }
      paths := paths[colName := compiledPath.value];
      z := z + 1;
    }
    assert columns[..z] == columns;
    return paths, None;
  }

  /** On success every column has a path. */
  lemma BoundCoversColumns<P>(columns: seq<string>, bind: string -> Result<P, BindError>)
    requires Bind(columns, bind).Bound?
    ensures forall c :: 0 <= c < |columns| ==> columns[c] in Bind(columns, bind).paths
  {
    BoundPaths(columns, bind);
  }

  /** Binding succeeds exactly when every column binds. */
  lemma {:induction false} BindSucceedsIff<P>(columns: seq<string>, bind: string -> Result<P, BindError>)
    ensures Bind(columns, bind).Bound? <==> forall i :: 0 <= i < |columns| ==> bind(columns[i]).Success?
  {
    if columns != [] {
      var front := columns[..|columns| - 1];
      BindSucceedsIff(front, bind);
      assert forall i :: 0 <= i < |front| ==> front[i] == columns[i];
    }
  }

  /** On success every column name is a key, nothing else is, and each column's path is the
      one its own binding produced. */
  lemma {:induction false} BoundPaths<P>(columns: seq<string>, bind: string -> Result<P, BindError>)
    requires Bind(columns, bind).Bound?
    ensures Bind(columns, bind).paths.Keys == set i | 0 <= i < |columns| :: columns[i]
    ensures forall i :: 0 <= i < |columns| ==> bind(columns[i]) == Success(Bind(columns, bind).paths[columns[i]])
  {
    if columns != [] {
      var front := columns[..|columns| - 1];
      BoundPaths(front, bind);
      assert forall i :: 0 <= i < |front| ==> front[i] == columns[i];
      assert (set i | 0 <= i < |columns| :: columns[i]) == (set i | 0 <= i < |front| :: front[i]) + {columns[|columns| - 1]};
    }
  }

  /** Once some prefix has failed, the later columns are never looked at. */
  lemma {:induction false} BindStopsAtFailure<P>(columns: seq<string>, k: nat, bind: string -> Result<P, BindError>)
    requires k <= |columns|
    requires Bind(columns[..k], bind).Failed?
    ensures Bind(columns, bind) == Bind(columns[..k], bind)
    decreases |columns| - k
  {
    if k < |columns| {
      var front := columns[..|columns| - 1];
      assert front[..k] == columns[..k];
      BindStopsAtFailure(front, k, bind);
    } else {
      assert columns[..k] == columns;
    }
  }

  /** On failure the error is that of the first column that fails to bind, and the map holds
      exactly the columns before it. */
  lemma {:induction false} BindFailure<P>(columns: seq<string>, bind: string -> Result<P, BindError>)
    returns (i: nat)
    requires Bind(columns, bind).Failed?
    ensures i < |columns|
    ensures forall j :: 0 <= j < i ==> bind(columns[j]).Success?
    ensures bind(columns[i]) == Failure(Bind(columns, bind).error)
    ensures Bind(columns, bind).paths == Bind(columns[..i], bind).paths
    ensures Bind(columns, bind).paths.Keys == set j | 0 <= j < i :: columns[j]
  {
    var front := columns[..|columns| - 1];
    assert forall j :: 0 <= j < |front| ==> front[j] == columns[j];
    var prior := Bind(front, bind);
    if prior.Failed? {
      i := BindFailure(front, bind);
      assert front[..i] == columns[..i];
    } else {
      i := |columns| - 1;
      assert columns[..i] == front;
      BindSucceedsIff(front, bind);
      BoundPaths(front, bind);
    }
  }

  /** A column that matches no property name makes binding fail; when every earlier column
      binds, the error names that column. */
  lemma MissingPropertyFails<P>(columns: seq<string>, i: nat, props: Properties,
                                compile: string -> Option<P>, isDefinite: P -> bool)
    requires i < |columns|
    requires forall j :: 0 <= j < |props.entries| ==> !EqualsIgnoreCase(props.entries[j].0, columns[i])
    ensures Bind(columns, ColumnBinder(props, compile, isDefinite)).Failed?
    ensures (forall j :: 0 <= j < i ==> BindColumn(props, columns[j], compile, isDefinite).Success?) ==>
      Bind(columns, ColumnBinder(props, compile, isDefinite)).error == MissingProperty(columns[i])
  {
    var bind := ColumnBinder(props, compile, isDefinite);
    BindSucceedsIff(columns, bind);
    assert bind(columns[i]).Failure?;
    var k := BindFailure(columns, bind);
    if forall j :: 0 <= j < i ==> BindColumn(props, columns[j], compile, isDefinite).Success? {
      assert k == i;
    }
  }

  /** A column whose path compiles but is not definite makes binding fail; when every earlier
      column binds, the error names that path. */
  lemma AmbiguousPathFails<P>(columns: seq<string>, i: nat, props: Properties,
                              compile: string -> Option<P>, isDefinite: P -> bool)
    requires i < |columns|
    requires PathProperty(props, columns[i]).Some?
    requires compile(PathProperty(props, columns[i]).value).Some?
    requires !isDefinite(compile(PathProperty(props, columns[i]).value).value)
    ensures Bind(columns, ColumnBinder(props, compile, isDefinite)).Failed?
    ensures (forall j :: 0 <= j < i ==> BindColumn(props, columns[j], compile, isDefinite).Success?) ==>
      Bind(columns, ColumnBinder(props, compile, isDefinite)).error == AmbiguousPath(PathProperty(props, columns[i]).value)
  {
    var bind := ColumnBinder(props, compile, isDefinite);
    BindSucceedsIff(columns, bind);
    assert bind(columns[i]).Failure?;
    var k := BindFailure(columns, bind);
    if forall j :: 0 <= j < i ==> BindColumn(props, columns[j], compile, isDefinite).Success? {
      assert k == i;
    }
  }

  /** A column name in another case still finds its property. */
  lemma CaseInsensitiveKeyExample()
    ensures PathProperty(Properties([("columns", "field1"), ("Field1", "$.field1")]), "field1") == Some("$.field1")
  {
    var props := Properties([("columns", "field1"), ("Field1", "$.field1")]);
    assert !EqualsIgnoreCase("columns", "field1");
    assert EqualsIgnoreCase("Field1", "field1");
  }
}
