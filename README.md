# hive-json-serde in Dafny

A model of the two Hive SerDe classes of hive-json-serde. Each turns one line of JSON text into
a row of typed column values.

- `JsonSerde` is built on org.json. Its parser lower-cases every top-level key as the key is inserted.
- `JsonSerDe` is built on json-smart. Its parser keeps keys as written.

Both classes share two phases.

**initialize** reads the comma-separated `columns` table property and splits it the way
`String.split(",")` does. For each column, in order, it looks up a JSONPath:

- in `stringPropertyNames()` order, it takes the first table property whose name equals the
  column name ignoring case;
- it compiles that path and requires the compiled path to be definite;
- it puts the path into a column-to-path map.

It fails on the first column that has no property, on a path that does not compile, and on a
path that is not definite. On success it allocates a row buffer of one null per column, reused by
every later call.

**deserialize** parses the text. A parse error makes the whole record null. For each column it
then reads the column's path from the document:

- a read that throws `InvalidPathException` or returns null gives a null slot;
- otherwise the value's text goes through the type-name chain. That chain is `double`, `bigint`,
  `int`, `tinyint`, `float`, `boolean`, each compared ignoring case, and any other type
  keeps the text.

A number that does not parse throws `NumberFormatException` out of deserialize. By then the
earlier slots have already been overwritten.

## Modules

- `Wrappers`: `Option`, `Result` and `Outcome`.
- `JavaStrings`: Java's string operations used here.
  - `toLowerCase`;
  - `equalsIgnoreCase`, with the per-character test of `regionMatches`;
  - `split` on one character, which drops trailing empty pieces and returns the string itself
    when it contains no separator.
- `JavaNumbers`:
  - `Long`, `Integer` and `Byte.valueOf`: an optional sign, digits, and a range check. `Byte`
    parses as an `int` and then checks the 8-bit range.
  - `Boolean.valueOf`.
  - The syntax that `Double.valueOf` and `Float.valueOf` accept.
- `Coercion`: the type-name chain shared by both classes, and an equivalent form that matches on
  the declared type.
- `Binding`: table properties, the case-insensitive property scan, and the binding fold `Bind`
  that both `initialize` loops compute. Also the loops themselves: `FindPathProperty` and
  `BindColumns`.
- `Extraction`: what the column loop of `deserialize` computes.
  - `RowAfter` is the buffer after the loop, including the partial rewrite when a column throws.
    `Returned` is the value returned.
  - `NullRow` is the null-row allocation.
- `OrgJsonSerde`: class `JsonSerde` and the lower-casing object builder `ParsedObject`.
- `SmartJsonSerDe`: class `JsonSerDe`, the object builder `SmartObject` that keeps keys as
  written, and the possible parse outcomes `SmartParse`.

Each class keeps the fields of the Java class that the two methods update. The row
`ArrayList` is an `array<Value>` whose slots `Deserialize` overwrites in place.

The library calls are parameters of the methods:

- `JsonPath.compile`, a function `string -> Option<P>`, where `None` is
  `InvalidPathException`;
- `isPathDefinite`;
- the JSON parser;
- `JsonPath.read`, which returns a `ReadOutcome`.

The column types are passed as their type names, in place of the parsed `columns.types`
property.

## Model

| member | source | states |
|---|---|---|
| JavaStrings.ToLower | src/org/apache/hadoop/hive/contrib/serde2/JsonSerde.java:240 | the lower-cased key has the same length and each character folded to lower case |
| JavaStrings.EqualsIgnoreCase | src/org/apache/hadoop/hive/contrib/serde2/JsonSerde.java:161 | String.equalsIgnoreCase: same length and each position equal under the per-character test of regionMatches; see EqualsIgnoreCaseIffSameLower and EqualsIgnoreCaseIsEquivalence |
| JavaStrings.EqualsIgnoreCaseIffSameLower | src/org/apache/hadoop/hive/contrib/serde2/JsonSerde.java:161 | equalsIgnoreCase holds exactly when the two lower-case forms are equal |
| JavaStrings.EqualsIgnoreCaseIsEquivalence | src/org/apache/hadoop/hive/contrib/serde2/JsonSerde.java:161 | equalsIgnoreCase is reflexive, symmetric and transitive |
| JavaStrings.ToLowerIsLowerCase | src/org/apache/hadoop/hive/contrib/serde2/JsonSerde.java:240 | a lower-cased key contains no upper-case letter, and lower-casing again changes nothing |
| JavaStrings.LowerCaseIsFixed | src/org/apache/hadoop/hive/contrib/serde2/JsonSerde.java:240 | a key already in lower case is stored unchanged |
| JavaStrings.Segments | src/org/apache/hadoop/hive/contrib/serde2/JsonSerde.java:132 | at least one piece, and no piece contains the separator |
| JavaStrings.JoinSegments | src/org/apache/hadoop/hive/contrib/serde2/JsonSerde.java:132 | joining the pieces with the separator gives back the property value |
| JavaStrings.DropTrailingEmpty | src/org/apache/hadoop/hive/contrib/serde2/JsonSerde.java:132 | a prefix of the pieces that does not end in an empty piece, and only empty pieces are dropped |
| JavaStrings.Split | src/org/apache/hadoop/hive/contrib/serde2/JsonSerde.java:132 | no column name contains a comma; the names are a prefix of the comma-separated pieces and only empty trailing pieces are dropped; with a comma present the last name is not empty; without a comma the whole text is the one name, so an empty property gives one column named "" |
| JavaNumbers.ParseLong | src/org/apache/hadoop/hive/contrib/serde2/JsonSerde.java:277-278 | Long.valueOf: the signed decimal parse over the 64-bit range; see ParseSignedDigits, ParseSignedDecimalShape, DecimalRoundTrip |
| JavaNumbers.ParseInt | src/org/apache/hadoop/hive/contrib/serde2/JsonSerde.java:279-280 | Integer.valueOf: the signed decimal parse over the 32-bit range; see ParseSignedDigits, NarrowerParseAgrees |
| JavaNumbers.ParseByte | src/org/apache/hadoop/hive/contrib/serde2/JsonSerde.java:281-282 | Byte.valueOf: Integer.parseInt, then the 8-bit range check; see ParseByteIsEightBit, ByteBoundsExample |
| JavaNumbers.BooleanValueOf | src/org/apache/hadoop/hive/contrib/serde2/JsonSerde.java:285-286 | Boolean.valueOf: equalsIgnoreCase with "true", never throwing; see BooleanValueOfIffTrue |
| JavaNumbers.FloatingLiteral | src/org/apache/hadoop/hive/contrib/serde2/JsonSerde.java:275-284 | the texts Double.valueOf and Float.valueOf accept after trimming: an optional sign, then NaN, Infinity, a hexadecimal literal with a binary exponent, or a decimal literal with an optional exponent, each with an optional f/F/d/D suffix; see IntegerTextIsFloatingLiteral |
| JavaNumbers.ParseSignedDecimal | src/org/apache/hadoop/hive/contrib/serde2/JsonSerde.java:277-280 | an accepted text starts with a sign or a digit and ends with a digit, and its value lies in the type's range |
| JavaNumbers.ParseSignedDigits | src/org/apache/hadoop/hive/contrib/serde2/JsonSerde.java:277-282 | an optional sign ("", "+" or "-") and at least one digit is accepted exactly when its value is in range, and parses to that value |
| JavaNumbers.ParseSignedDecimalShape | src/org/apache/hadoop/hive/contrib/serde2/JsonSerde.java:277-282 | every accepted text is an optional sign followed by at least one digit, and its value is the signed digit value |
| JavaNumbers.SignAndZerosExample | src/org/apache/hadoop/hive/contrib/serde2/JsonSerde.java:278-280 | "+5" parses as 5 and "007" as 7 |
| JavaNumbers.ByteBoundsExample | src/org/apache/hadoop/hive/contrib/serde2/JsonSerde.java:282 | Byte.valueOf gives 0 for "-0" and rejects "128" |
| JavaNumbers.RejectedTextsExample | src/org/apache/hadoop/hive/contrib/serde2/JsonSerde.java:278 | "1x1", "-" and "" throw NumberFormatException |
| JavaNumbers.DecimalRoundTrip | src/org/apache/hadoop/hive/contrib/serde2/JsonSerde.java:277-282 | parsing the decimal text of any in-range value gives that value back |
| JavaNumbers.DigitsValue | src/org/apache/hadoop/hive/contrib/serde2/JsonSerde.java:277-282 | the decimal digits of n are all digits and have the value n |
| JavaNumbers.ParseByteIsEightBit | src/org/apache/hadoop/hive/contrib/serde2/JsonSerde.java:281-282 | Byte.valueOf accepts exactly the decimal texts in the range -128..127 |
| JavaNumbers.NarrowerParseAgrees | src/org/apache/hadoop/hive/contrib/serde2/JsonSerde.java:277-282 | a text accepted by the narrower type is accepted by the wider one, with the same value |
| JavaNumbers.BooleanValueOfIffTrue | src/org/apache/hadoop/hive/contrib/serde2/JsonSerde.java:285-286 | Boolean.valueOf is true exactly when the text is "true" in any case |
| JavaNumbers.IndexOfEither | src/org/apache/hadoop/hive/contrib/serde2/JsonSerde.java:276 | the first position holding one of two exponent or suffix characters, or None when there is none |
| JavaNumbers.IntegerTextIsFloatingLiteral | src/org/apache/hadoop/hive/contrib/serde2/JsonSerde.java:276 | every text an integer parse accepts is a valid Double/Float literal |
| Coercion.Coerce | src/org/apache/hadoop/hive/contrib/serde2/JsonSerde.java:274-290 | the chain never yields null, and long, int and byte values lie in their ranges |
| Coercion.MatchesTypeName | src/org/apache/hadoop/hive/contrib/serde2/JsonSerde.java:275 | a type name equals a lower-case constant ignoring case exactly when its lower-case form is that constant |
| Coercion.DeclaredTypeIff | src/org/apache/hadoop/hive/contrib/serde2/JsonSerde.java:275-286 | each of the six equalsIgnoreCase tests holds exactly when the declared type is that type |
| Coercion.CoerceByDeclaredType | src/org/apache/hadoop/hive/contrib/serde2/JsonSerde.java:274-290 | the if/else chain equals a match on the declared type |
| Coercion.CoerceIgnoresTypeNameCase | src/org/apache/hadoop/hive/contrib/serde2/JsonSerde.java:274-290 | type names equal ignoring case coerce every text alike |
| Coercion.CoerceFailsIff | src/org/apache/hadoop/hive/contrib/serde2/JsonSerde.java:274-290 | coercion throws exactly for a numeric type whose parser rejects the text; boolean and other types never throw |
| Coercion.BooleanCoercion | src/org/apache/hadoop/hive/contrib/serde2/JsonSerde.java:285-286 | a boolean column holds true exactly for "true" in any case |
| Coercion.UnknownTypeKeepsText | src/org/apache/hadoop/hive/contrib/serde2/JsonSerde.java:287-290 | a type name matching none of the six constants keeps the text as a string |
| Coercion.TextTypeKeepsText | src/org/apache/hadoop/hive/contrib/serde2/JsonSerde.java:287-290 | a type that maps to text keeps the text unchanged |
| Coercion.StringIsTextType | src/org/apache/hadoop/hive/contrib/serde2/JsonSerde.java:287-290 | "string" is none of the six typed names |
| Coercion.IntegralRoundTrip | src/org/apache/hadoop/hive/contrib/serde2/JsonSerde.java:277-282 | bigint, int and tinyint columns read every in-range value back from its decimal text |
| Coercion.IntegralTextIsFloating | src/org/apache/hadoop/hive/contrib/serde2/JsonSerde.java:276-284 | a text that an integral column accepts is also accepted by double and float columns |
| Binding.Properties.GetProperty | src/org/apache/hadoop/hive/contrib/serde2/JsonSerde.java:131 | Properties.getProperty: the value of the first entry with exactly this name, null if none; see Lookup and LookupFirst |
| Binding.Lookup | src/org/apache/hadoop/hive/contrib/serde2/JsonSerde.java:131 | null exactly when no entry has exactly this name |
| Binding.LookupFirst | src/org/apache/hadoop/hive/contrib/serde2/JsonSerde.java:162 | getProperty finds the first entry stored under the name |
| Binding.FirstMatch | src/org/apache/hadoop/hive/contrib/serde2/JsonSerde.java:159-165 | the first name equal to the column ignoring case: it matches, no earlier name matches, and None means no name matches |
| Binding.PathProperty | src/org/apache/hadoop/hive/contrib/serde2/JsonSerde.java:159-165 | null exactly when no property name matches the column ignoring case; otherwise it is the value of the first match |
| Binding.FirstExactMatchIsFirstMatch | src/org/apache/hadoop/hive/contrib/serde2/JsonSerde.java:162 | getProperty of the first case-insensitive match returns that entry's own value |
| Binding.FindPathProperty | src/org/apache/hadoop/hive/contrib/serde2/JsonSerde.java:157-165 | the inner scan with break returns the path text that PathProperty gives |
| Binding.BindColumn | src/org/apache/hadoop/hive/contrib/serde2/JsonSerde.java:158-184 | one column's path: MissingProperty when no property name matches ignoring case, InvalidPath when compile throws, AmbiguousPath when the path is not definite, else the compiled path; see MissingPropertyFails and AmbiguousPathFails |
| Binding.Bind | src/org/apache/hadoop/hive/contrib/serde2/JsonSerde.java:156-186 | the outer loop as a fold over the columns: the map so far, and the first error that stopped it; see BindSucceedsIff, BoundPaths, BindFailure, BindStopsAtFailure, and BindColumns for the loop itself |
| Binding.BindColumns | src/org/apache/hadoop/hive/contrib/serde2/JsonSerde.java:150-186 | the outer loop's map and error are exactly those of the binding fold (the partial map when a column fails) |
| Binding.BindStep | src/org/apache/hadoop/hive/contrib/serde2/JsonSerde.java:156-186 | one more column extends the map with its path, or stops with its error |
| Binding.BoundCoversColumns | src/org/apache/hadoop/hive/contrib/serde2/JsonSerde.java:156-186 | after a successful binding every column name has a path |
| Binding.BindSucceedsIff | src/org/apache/hadoop/hive/contrib/serde2/JsonSerde.java:156-186 | binding succeeds exactly when every column binds on its own |
| Binding.BoundPaths | src/org/apache/hadoop/hive/contrib/serde2/JsonSerde.java:156-186 | on success the map's keys are exactly the column names, each mapped to its own compiled path |
| Binding.BindStopsAtFailure | src/org/apache/hadoop/hive/contrib/serde2/JsonSerde.java:167-180 | once a column fails, the later columns do not change the result |
| Binding.BindFailure | src/org/apache/hadoop/hive/contrib/serde2/JsonSerde.java:156-186 | on failure the error is that of the first failing column, and the map holds exactly the columns before it |
| Binding.MissingPropertyFails | src/org/apache/hadoop/hive/contrib/serde2/JsonSerde.java:167-172 | a column matching no property makes initialize fail, naming that column when it is the first failure |
| Binding.AmbiguousPathFails | src/org/apache/hadoop/hive/contrib/serde2/JsonSerde.java:177-180 | a non-definite path makes initialize fail, naming that path when it is the first failure |
| Binding.CaseInsensitiveKeyExample | src/org/apache/hadoop/hive/contrib/serde2/JsonSerde.java:159-165 | column field1 finds the property named Field1 |
| Extraction.ColumnValue | src/org/apache/hadoop/hive/contrib/serde2/JsonSerde.java:262-291 | one column's slot: null for a read that threw InvalidPathException or gave null, else the coerced text or the NumberFormatException; see CellOutcomes |
| Extraction.CellOutcomes | src/org/apache/hadoop/hive/contrib/serde2/JsonSerde.java:262-291 | a cell throws exactly when its read found text its type rejects, naming that text; it is null exactly when the read threw InvalidPathException or gave null; otherwise it holds the coerced text |
| Extraction.FirstError | src/org/apache/hadoop/hive/contrib/serde2/JsonSerde.java:258-294 | the first column whose coercion throws: every earlier column succeeds, and None means none throws |
| Extraction.NullRow | src/org/apache/hadoop/hive/contrib/serde2/JsonSerde.java:199-202 | a fresh buffer with one null per column |
| Extraction.RowAfter | src/org/apache/hadoop/hive/contrib/serde2/JsonSerde.java:258-294 | the buffer after the column loop: the slots before the first failing column hold their values, the rest keep the previous record's; see SlotsOfCompleteRow, PartialRowOnFailure, CompleteRowIgnoresPrevious, and Deserialize for the loop |
| Extraction.Returned | src/org/apache/hadoop/hive/contrib/serde2/JsonSerde.java:258-296 | the row buffer itself when no column throws, else the first failing column's exception; see FailsIffUncoercible |
| Extraction.FailsIffUncoercible | src/org/apache/hadoop/hive/contrib/serde2/JsonSerde.java:268-290 | a record throws exactly when some read yields text that its type rejects, and the exception is the first such column's |
| Extraction.SlotsOfCompleteRow | src/org/apache/hadoop/hive/contrib/serde2/JsonSerde.java:262-293 | in a finished row a slot is null exactly when its read threw or gave null; otherwise it holds the coerced text |
| Extraction.CompleteRowIgnoresPrevious | src/org/apache/hadoop/hive/contrib/serde2/JsonSerde.java:258-296 | a finished row does not depend on the buffer's previous contents |
| Extraction.PartialRowOnFailure | src/org/apache/hadoop/hive/contrib/serde2/JsonSerde.java:258-294 | when column k throws, the slots before k hold their new values and the rest keep the previous record's |
| Extraction.MissingFieldExample | src/org/apache/hadoop/hive/contrib/serde2/JsonSerde.java:262-269 | a string column found and an int column not found give [a1, null] |
| OrgJsonSerde.Put | src/org/apache/hadoop/hive/contrib/serde2/JsonSerde.java:237-241 | the overridden put: the value is stored under the lower-cased key, replacing an earlier value; see ParsedObjectKeys and ParsedObjectLookup |
| OrgJsonSerde.ParsedObject | src/org/apache/hadoop/hive/contrib/serde2/JsonSerde.java:229-242 | the object new JSONObject(text) builds, calling put once per top-level member in document order; see ParsedObjectKeys, ParsedObjectLookup, UpperCaseKeyExample |
| OrgJsonSerde.ParsedObjectKeys | src/org/apache/hadoop/hive/contrib/serde2/JsonSerde.java:230-241 | the object's keys are exactly the lower-cased member names, all in lower case |
| OrgJsonSerde.ParsedObjectLookup | src/org/apache/hadoop/hive/contrib/serde2/JsonSerde.java:237-241 | a member is found under its lower-cased name unless a later member's name equals it ignoring case |
| OrgJsonSerde.UpperCaseKeyExample | src/org/apache/hadoop/hive/contrib/serde2/JsonSerde.java:237-241 | a member named ID is stored under id |
| OrgJsonSerde.JsonSerde.constructor | src/org/apache/hadoop/hive/contrib/serde2/JsonSerde.java:95-118 | every field starts empty |
| OrgJsonSerde.JsonSerde.Initialize | src/org/apache/hadoop/hive/contrib/serde2/JsonSerde.java:124-204 | stores the properties; with no columns property, fails and changes nothing else; otherwise sets names, types and count, the map to the binding fold's map, and on success a fresh all-null row that makes the object valid |
| OrgJsonSerde.JsonSerde.Deserialize | src/org/apache/hadoop/hive/contrib/serde2/JsonSerde.java:224-297 | a parse error gives a null record and leaves the row untouched; otherwise the row becomes RowAfter of the column cells and the result is the buffer or the first exception |
| SmartJsonSerDe.SmartObject | src/org/apache/hadoop/hive/contrib/serde2/JsonSerDe.java:182 | the JSONObject json-smart builds, member by member with keys as written; see SmartObjectKeys, SmartObjectLookup, UpperCaseKeyKept |
| SmartJsonSerDe.Document | src/org/apache/hadoop/hive/contrib/serde2/JsonSerDe.java:182-200 | the document the column reads receive: the parsed object, or null for the JSON literal null; used by Deserialize |
| SmartJsonSerDe.SmartObjectKeys | src/org/apache/hadoop/hive/contrib/serde2/JsonSerDe.java:182 | the object's keys are exactly the member names as written |
| SmartJsonSerDe.SmartObjectLookup | src/org/apache/hadoop/hive/contrib/serde2/JsonSerDe.java:182 | a member is found under its own name unless a later member has the same name |
| SmartJsonSerDe.UpperCaseKeyKept | src/org/apache/hadoop/hive/contrib/serde2/JsonSerDe.java:182 | a member named ID is stored under ID, and not under id |
| SmartJsonSerDe.JsonSerDe.constructor | src/org/apache/hadoop/hive/contrib/serde2/JsonSerDe.java:54-76 | every field starts empty |
| SmartJsonSerDe.JsonSerDe.Initialize | src/org/apache/hadoop/hive/contrib/serde2/JsonSerDe.java:82-157 | with no columns property, fails and changes nothing; otherwise sets names, types and count, the map to the binding fold's map, and on success a fresh all-null row that makes the object valid |
| SmartJsonSerDe.JsonSerDe.Deserialize | src/org/apache/hadoop/hive/contrib/serde2/JsonSerDe.java:176-235 | a parse error gives a null record; a non-object throws ClassCastException; in both cases the row is untouched. An object or null fills the row with RowAfter of the column cells, and the result is the buffer or the first exception |

## Left out

- Object inspectors, getSerDeStats, getSerializedClass and serialize: they build Hive metadata
  or throw UnsupportedOperationException, and the row logic does not depend on them.
- Logging.
- The JSON parsers and JsonPath are parameters of the methods, not modelled. This covers:
  - org.json reading from the object's toString() re-serialisation (the read gets the object itself);
  - org.json's handling of duplicate keys.
- SmartJsonSerDe.JsonSerDe.Deserialize: assumes that every JsonPath.read of a null document
  throws InvalidPathException, returns null, or returns a value. The null document comes from
  the JSON literal `null`. Under this assumption `null` always fills the row, and only
  NumberFormatException can escape. If JsonPath threw some other exception on a null document,
  that exception would escape instead, and the model does not capture it. The same three-way
  assumption applies to every column read in both classes.
- TypeInfoUtils: the declared types are passed in as type names. The `columns.types` property is
  not parsed.
- Coercion.Coerce: Double.valueOf and Float.valueOf are modelled only by the syntax they accept.
  The slot keeps the literal, not the floating-point value, because floating-point rounding is
  outside the model.
- JavaStrings.ToLower: case folding, equalsIgnoreCase and decimal digits cover ASCII only.
  Java also folds and parses non-ASCII letters and digits.
  The model also assumes a default locale without special rules for ASCII letters.
  `key.toLowerCase()` at JsonSerde.java:240 uses the JVM's default locale. Under a Turkish or
  Azerbaijani locale, "ID" becomes "ıd" (dotless i), so the stored key no longer matches `$.id`.
  `equalsIgnoreCase` does not depend on the locale, so under those locales the two folds
  disagree.
- Exception messages are reduced to the value they name, in `BindError` and `RecordError`.
- OrgJsonSerde.JsonSerde.Initialize: the Java `assert` that the counts of names and types agree
  becomes a precondition.
- SmartJsonSerDe.JsonSerDe.Initialize: the same `assert` becomes the same precondition.
- OrgJsonSerde.JsonSerde.Deserialize: requires a successful initialize (`Valid`). The cases
  before initialize and after a failed initialize are not modelled.
  - Before initialize, `numberOfColumns` is 0 and `row` is null. The loop does not run, and
    deserialize returns the null row for any text.
  - After a failed initialize, the fields hold the partial state that initialize left.
- SmartJsonSerDe.JsonSerDe.Deserialize: the same `Valid` precondition.
  - Before initialize, deserialize returns the null row.
  - The one exception before initialize is a well-formed non-object, which still throws
    ClassCastException.

## How the two classes differ

- Only `JsonSerde` lower-cases keys, and only the top-level keys of the document: its
  overridden `put` is called for the members of the outer object, and nested objects keep
  their keys. `JsonSerDe` keeps every key as written (`UpperCaseKeyKept`).
- In `JsonSerDe` a well-formed document that is not an object throws ClassCastException
  from the cast to JSONObject, leaving the row untouched. `JsonSerde` gets a JSONException
  from the JSONObject constructor for such a document and returns a whole-record null.
- In `JsonSerDe` the literal `null` passes the cast, and the column reads see a null
  document.
