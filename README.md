# ClickHouse.Client core, modelled in Dafny

This project models four parts of the ClickHouse.Client ADO.NET driver and proves
properties of them.

- **Server version and connection lifecycle** (`versions.dfy`, `connection.dfy`).
  - `ParseVersion` turns the text the server returns for `SELECT version()` into a four-part
    `System.Version`. Components the constructor was not given read as -1, so
    `new Version(20, 5)` is below a parsed `20.5.0.0`.
  - `GetFeatureFlags` makes one test per threshold the version must exceed strictly.
    Each test sets one flag, except the 20.0 test, which sets both SupportsDecimal and
    SupportsIPv6.
  - `ClickHouseConnection` is a class over the states Closed, Open and Broken. It has
    `OpenAsync`, which checks the version probe body for the gzip marker, for emptiness and
    for a parsable version, plus `EnsureOpenAsync`, `Close`, `ChangeDatabase`, the Open-only
    `SupportedFeatures` getter, the default HTTP headers and the URI builder settings.
- **Commands** (`binding.dfy`, `command.dfy`).
  - `SubstituteParameters` is a `while` loop proved equal to a recursive specification. It
    replaces each `{name:type}` span by the value bound to the text before the span's last `:`.
  - `PostSqlQueryAsync` picks query parameters or inline substitution (first name wins) from
    the server's flags. It attaches `query_id` when the command has one and replaces `QueryId`
    with what the response carries.
  - The `Execute…` methods add their null-connection guards and the `LIMIT` suffixes of the
    command behaviour.
- **Query strings** (`query_string.dfy`). `HttpValueCollection` is a class.
  - Its contents follow `NameValueCollection`: an ordered list of keys, compared ignoring
    case (the null key included), each with its list of values.
  - `Add`, `Set` and `Remove` drop the cached string.
  - `ToString` and `BuildString` are proved to produce a serialisation function.
  - `Parse`, an index-based scanner with nested loops, is proved to build a parsing
    function. That function enforces the 1000-key cap and handles the trailing `&`.
  - `query_round_trip.dfy` proves that `Parse` undoes `BuildString` when the encoding
    escapes `&`, `=` and `?` and decoding undoes it.
- **Tuples** (`tuples.dfy`).
  - `IDbTuple` values: `DbTuple` of arity 1 to 7, and `LargeTuple` of any arity.
  - The converter's search for a `Tuple`/`ValueTuple` type along a type's base chain.
  - The extractor that reads `Item1..ItemN`.
  - The factory cache, keyed by the tuple type found.
  - `TryConvert` and `Convert`.

Shared pieces:
- `errors.dfy`: `Option`, `Result` and one error constructor per .NET exception class the
  code raises.
- `text.dfy`: the .NET string operations used: `IndexOf`, `LastIndexOf`, `Trim`,
  `Char.IsWhiteSpace`, `Split` without empty entries, and ordinal case-insensitive equality.
- `http.dfy`: the request and response records.

The HTTP transport is not modelled. What it returns for a request is an input
(`Exchange`: a response with status, headers and body, or a failure). The requests the
connection hands over are logged in a ghost field, so contracts can say which requests
were sent and in what order. `None` stands for a .NET `null` throughout.

Some behaviours of the code are kept as written and proved as such:
- A two-byte body `1F 8B` is not reported as compressed: the length test is strict.
- `QueryId` is overwritten before the status is checked. It becomes null when the header
  is absent, even if the caller had set it.
- A combined `CommandBehavior` such as `SingleRow | KeyInfo` gets no `LIMIT` suffix.
- An unclosed `{` fails with the `ArgumentOutOfRangeException` of `Substring`.
- The key cap is not checked before the extra key of a trailing `&`, so a parsed
  collection can hold 1001 keys.
- `BuildString` writes `&` only after non-empty output. An entry whose text is empty,
  such as the null key with an empty value, writes nothing at the front or after only
  empty output. Later it leaves a lone `&`.

## Model

| member | source | states |
|---|---|---|
| `Versions.DecimalRoundTrip` | ClickHouse.Client/ADO/ClickHouseConnection.cs:221 | int.TryParse with NumberStyles.Integer reads the decimal spelling of every Int32-range natural back as that number |
| `Versions.TrailingNulsAccepted` | ClickHouse.Client/ADO/ClickHouseConnection.cs:221 | a number followed by white space and then any number of NUL characters is read as that number, as int.TryParse's trailing-zeros rule allows |
| `Versions.NulBeforeMoreRejected` | ClickHouse.Client/ADO/ClickHouseConnection.cs:221 | a NUL after the number with anything other than NULs following it makes int.TryParse fail |
| `Versions.NulThenSpaceRejected` | ClickHouse.Client/ADO/ClickHouseConnection.cs:221 | "3\0 " does not parse: white space may not follow the NULs |
| `Versions.VersionTrailingNuls` | ClickHouse.Client/ADO/ClickHouseConnection.cs:220-225 | NULs after a version's dotted spelling leave the parsed version unchanged |
| `Versions.TrailingNulVersion` | ClickHouse.Client/ADO/ClickHouseConnection.cs:220-225 | "21.3" followed by a NUL parses to 21.3.0.0 |
| `Versions.NewVersion` | ClickHouse.Client/ADO/ClickHouseConnection.cs:225 | the four-argument Version constructor succeeds exactly when no component is negative, and then holds the four components, all defined |
| `Versions.ParseVersion` | ClickHouse.Client/ADO/ClickHouseConnection.cs:216-226 | a null or white-space string is an ArgumentException on versionString; every version it returns is fully defined with a major component above 0; its only InvalidOperationException is "Invalid version: " followed by the text |
| `Versions.ParseVersionComponents` | ClickHouse.Client/ADO/ClickHouseConnection.cs:220-225 | a dotted list of components with a positive first one parses to those components, with the missing ones 0 and any past the fourth ignored |
| `Versions.ParseVersionZeroMajor` | ClickHouse.Client/ADO/ClickHouseConnection.cs:223-224 | no parts, or a first part that is 0 or not a number, is "Invalid version: " followed by the string |
| `Versions.ShortVersionExamples` | ClickHouse.Client/ADO/ClickHouseConnection.cs:220-242 | "21.3" parses to 21.3.0.0; a parsed "20.5" has SupportsInlineQuery and 20.4.99.99 does not |
| `Versions.EmptyPartsDropped` | ClickHouse.Client/ADO/ClickHouseConnection.cs:220-225 | empty entries are removed before parsing, so "21..3" and ".21.3." both parse to 21.3.0.0 |
| `Versions.HttpParametersBoundary` | ClickHouse.Client/ADO/ClickHouseConnection.cs:231-234 | "19.11.3.11" gives no SupportsHttpParameters and "19.11.3.12" gives it |
| `Versions.GetFeatureFlags` | ClickHouse.Client/ADO/ClickHouseConnection.cs:228-262 | the flags accumulated threshold by threshold are exactly those whose thresholds the version exceeds strictly |
| `Versions.FeaturesOfByThreshold` | ClickHouse.Client/ADO/ClickHouseConnection.cs:230-259 | the flag set is the union of eight one-flag sets, one per flag's threshold; SupportsDecimal and SupportsIPv6 share the single 20.0 test |
| `Versions.FeaturesMonotone` | ClickHouse.Client/ADO/ClickHouseConnection.cs:228-262 | a larger or equal version has every flag a smaller one has |
| `Versions.DecimalIffIPv6` | ClickHouse.Client/ADO/ClickHouseConnection.cs:243-247 | SupportsDecimal is set exactly when SupportsIPv6 is |
| `Versions.TwoComponentThreshold` | ClickHouse.Client/ADO/ClickHouseConnection.cs:239-258 | a defined version exceeds a two-component threshold exactly when its (major, minor) is at least the threshold's |
| `Versions.ThreeComponentThreshold` | ClickHouse.Client/ADO/ClickHouseConnection.cs:252-255 | a defined version exceeds a three-component threshold exactly when its (major, minor, build) is at least the threshold's |
| `Text.SplitJoin` | ClickHouse.Client/ADO/ClickHouseConnection.cs:220 | splitting with empty entries removed, when the joined parts do not contain the separator, gives back the non-empty parts in order and drops the empty ones |
| `Text.IndexOfFinds` | ClickHouse.Client/ADO/ClickHouseCommand.cs:199 | String.IndexOf finds the first occurrence at or after the start, and -1 exactly when there is none |
| `Text.LastIndexBeforeFinds` | ClickHouse.Client/ADO/ClickHouseCommand.cs:209 | String.LastIndexOf finds the last occurrence, and -1 exactly when there is none |
| `Http.AddCustomParameter` | ClickHouse.Client/ADO/ClickHouseConnection.cs:165 | adding a custom parameter fails exactly when the key is already there, with an ArgumentException naming no parameter, and otherwise adds that one key and changes nothing else |
| `Connection.ProbeVersion` | ClickHouse.Client/ADO/ClickHouseConnection.cs:171-177 | a body of more than two bytes starting 1F 8B is the compressed-result error, an empty body the no-version error, any other body goes to ParseVersion after UTF-8 decoding and Trim |
| `Connection.TwoByteMarkerIsParsed` | ClickHouse.Client/ADO/ClickHouseConnection.cs:171 | a body of exactly the two bytes 1F 8B is not reported as compressed but parsed as a version |
| `Connection.ReceiveVersion` | ClickHouse.Client/ADO/ClickHouseConnection.cs:168-177 | a transport failure is passed on; a non-2xx status is a server error carrying the decoded body and the probe query; a 2xx response gives ProbeVersion's result for its body; an Ok version always comes from a 2xx response, is fully defined and has a major above 0 |
| `Connection.ClickHouseConnection.constructor` | ClickHouse.Client/ADO/ClickHouseConnection.cs:26-34 | a new connection is Closed, with no version, no flags, nothing sent, and the given settings |
| `Connection.ClickHouseConnection.SupportedFeatures` | ClickHouse.Client/ADO/ClickHouseConnection.cs:127-131 | the getter answers the flags exactly when the state is Open and is an InvalidOperationException otherwise |
| `Connection.ClickHouseConnection.DefaultHeaders` | ClickHouse.Client/ADO/ClickHouseConnection.cs:277-288 | Basic credentials of username:password; Accept is json, csv, octet-stream in that order; Accept-Encoding is gzip then deflate when compression is on and empty otherwise |
| `Connection.ClickHouseConnection.CreateUriBuilder` | ClickHouse.Client/ADO/ClickHouseConnection.cs:266-273 | the builder carries the connection's database, session, compression setting and custom settings, and no query parameters |
| `Connection.ClickHouseConnection.ProbeRequest` | ClickHouse.Client/ADO/ClickHouseConnection.cs:164-167 | the probe is a GET with the default headers and query=SELECT version() FORMAT TSV added to the custom settings, and fails exactly when a custom setting named query exists |
| `Connection.ClickHouseConnection.OpenAsync` | ClickHouse.Client/ADO/ClickHouseConnection.cs:157-186 | an Open connection is left as it is and sends nothing; otherwise the probe is sent if it can be built, and the connection ends Open with the parsed version and its flags, or Broken with the error and the old version and flags |
| `Connection.ClickHouseConnection.Conclude` | ClickHouse.Client/ADO/ClickHouseConnection.cs:177-185 | a parsed version and its flags are stored, then the state becomes Open; any error leaves the state Broken |
| `Connection.ClickHouseConnection.EnsureOpenResult` | ClickHouse.Client/ADO/ClickHouseConnection.cs:275 | an Open connection answers its flags; any other succeeds exactly when opening succeeds |
| `Connection.ClickHouseConnection.EnsureOpenSent` | ClickHouse.Client/ADO/ClickHouseConnection.cs:275 | at most one request is sent, and none when the connection is Open |
| `Connection.ClickHouseConnection.EnsureOpenAsync` | ClickHouse.Client/ADO/ClickHouseConnection.cs:275 | opens unless Open: it ends Open with the flags of the opening, or Broken with its error, and sends only the probe; after a successful open the version is the parsed one, and an already Open connection keeps its version and flags |
| `Connection.ClickHouseConnection.Record` | ClickHouse.Client/ADO/ClickHouseConnection.cs:168 | handing a request to the transport logs it and changes nothing else |
| `Connection.ClickHouseConnection.Close` | ClickHouse.Client/ADO/ClickHouseConnection.cs:153 | the state becomes Closed from any state, and the version, flags and settings stay |
| `Connection.ClickHouseConnection.ChangeDatabase` | ClickHouse.Client/ADO/ClickHouseConnection.cs:149 | the database becomes the given name and nothing else changes |
| `Connection.ReopenAfterFailure` | ClickHouse.Client/ADO/ClickHouseConnection.cs:159-185 | a failed open leaves the connection Broken; opening again can succeed; a third open of the Open connection sends nothing |
| `Binding.SubstituteParameters` | ClickHouse.Client/ADO/ClickHouseCommand.cs:195-225 | the loop computes the recursive substitution of every span, the text between spans copied in order |
| `Binding.BindSpan` | ClickHouse.Client/ADO/ClickHouseCommand.cs:209-217 | a span without ':' is a NotSupportedException naming the span; otherwise the name is the text before the last ':' (the one with no ':' after it), and the result is that name's value, or an ArgumentOutOfRangeException naming it when it is unbound |
| `Binding.SubstituteFromSuffix` | ClickHouse.Client/ADO/ClickHouseCommand.cs:202-220 | the scan only looks forward: substituting from a position is substituting the rest of the query on its own |
| `Binding.SubstituteSpanStep` | ClickHouse.Client/ADO/ClickHouseCommand.cs:204-219 | on text{param}rest the result is the text, the span's value and the substitution of rest, or the span's error |
| `Binding.LastColon` | ClickHouse.Client/ADO/ClickHouseCommand.cs:209-212 | the name of name:type is name when type has no ':' |
| `Binding.SubstituteNoBrace` | ClickHouse.Client/ADO/ClickHouseCommand.cs:199-222 | a query without '{' is returned unchanged |
| `Binding.SubstituteSpan` | ClickHouse.Client/ADO/ClickHouseCommand.cs:204-222 | a span {name:type} with name bound is replaced by its value, the text before it is copied and the rest is substituted on its own |
| `Binding.SubstituteUntyped` | ClickHouse.Client/ADO/ClickHouseCommand.cs:209-211 | a span without ':' raises NotSupportedException naming the span |
| `Binding.SubstituteUnknown` | ClickHouse.Client/ADO/ClickHouseCommand.cs:212-215 | a span whose name is not bound raises ArgumentOutOfRangeException naming it |
| `Binding.SubstituteUnclosed` | ClickHouse.Client/ADO/ClickHouseCommand.cs:207-208 | a '{' with no '}' after it fails with the Substring length error, whatever the parameters |
| `Binding.SubstituteExample` | ClickHouse.Client/ADO/ClickHouseCommand.cs:195-225 | "select {x:Int32}" with x bound to "5" gives "select 5" |
| `Binding.SubstituteDoesNotRescan` | ClickHouse.Client/ADO/ClickHouseCommand.cs:217-219 | a substituted value that looks like a span is kept as it is |
| `Binding.FirstWinsKeys` | ClickHouse.Client/ADO/ClickHouseCommand.cs:157-159 | the inline table has exactly the parameter names as keys, and no other |
| `Binding.FirstWinsFirst` | ClickHouse.Client/ADO/ClickHouseCommand.cs:157-159 | for a repeated name the first parameter with that name wins: its formatted value is what the table holds |
| `Binding.FormatInline` | ClickHouse.Client/ADO/ClickHouseCommand.cs:157-159 | the TryAdd loop builds that table |
| `Binding.HttpQueryParameters` | ClickHouse.Client/ADO/ClickHouseCommand.cs:152-153 | one query parameter per bound parameter, in order, with its name and formatted value |
| `Binding.FormatHttp` | ClickHouse.Client/ADO/ClickHouseCommand.cs:152-153 | the AddQueryParameter loop builds that list |
| `Command.ExtractQueryIdFinds` | ClickHouse.Client/ADO/ClickHouseCommand.cs:186-193 | the query id is null exactly when no header is named X-ClickHouse-Query-Id, ignoring case, and is otherwise the value of the first such header |
| `Command.LowerCaseHeaderIsFound` | ClickHouse.Client/ADO/ClickHouseCommand.cs:188-190 | a lower-case spelling of the header name is found too |
| `Command.WithBehavior` | ClickHouse.Client/ADO/ClickHouseCommand.cs:125-136 | the SQL sent starts with the command text |
| `Command.WithBehaviorChanges` | ClickHouse.Client/ADO/ClickHouseCommand.cs:125-136 | the text changes exactly for SingleRow and for SchemaOnly alone, by " LIMIT 1" and " LIMIT 0" respectively |
| `Command.CombinedBehaviorHasNoLimit` | ClickHouse.Client/ADO/ClickHouseCommand.cs:126-135 | a behaviour combining two or more flags gets no suffix |
| `Command.HttpStrategy` | ClickHouse.Client/ADO/ClickHouseCommand.cs:150-154 | with SupportsHttpParameters the SQL is sent as is and every parameter becomes a query parameter, in order; only a query_id clash fails |
| `Command.InlineStrategy` | ClickHouse.Client/ADO/ClickHouseCommand.cs:155-161 | without it the SQL is substituted from the first-wins table, no query parameter is added, and a substitution error is the result |
| `Command.QueryIdAttached` | ClickHouse.Client/ADO/ClickHouseCommand.cs:164-179 | query_id is added with the command's QueryId exactly when that is non-empty; the request is a POST with the connection's headers, database and session |
| `Command.BuildRequest` | ClickHouse.Client/ADO/ClickHouseCommand.cs:146-179 | the loops and branches between opening and sending build exactly that request, or its error |
| `Command.PostResult` | ClickHouse.Client/ADO/ClickHouseCommand.cs:181-183 | a 2xx response is returned as it came; a non-2xx status is a server error carrying the decoded body and the SQL sent; a transport failure is passed on; a result is only ever a 2xx response |
| `Command.MissingHeaderClearsQueryId` | ClickHouse.Client/ADO/ClickHouseCommand.cs:182 | a response without the header sets QueryId to null, whatever it was |
| `Command.ClickHouseCommand.constructor` | ClickHouse.Client/ADO/ClickHouseCommand.cs:30-33 | a new command has the given connection, no QueryId and no parameters |
| `Command.ClickHouseCommand.PostSqlQueryAsync` | ClickHouse.Client/ADO/ClickHouseCommand.cs:141-184 | without a connection it fails before sending anything; otherwise the connection is opened if needed, and the request built from the flags of the open connection is sent after the probe; QueryId and the result come from the response |
| `Command.ClickHouseCommand.SendQuery` | ClickHouse.Client/ADO/ClickHouseCommand.cs:150-183 | on an open connection the built request is sent and the response sets QueryId and the result; a request that cannot be built sends nothing |
| `Command.ClickHouseCommand.ExecuteNonQueryAsync` | ClickHouse.Client/ADO/ClickHouseCommand.cs:66-76 | without a connection it fails with "Connection is not set"; otherwise the command text is posted and the count is read from the body, 0 when it is empty |
| `Command.ClickHouseCommand.ExecuteRawResultAsync` | ClickHouse.Client/ADO/ClickHouseCommand.cs:83-91 | the same guard, then the posted response as it is |
| `Command.ClickHouseCommand.ExecuteDbDataReaderAsync` | ClickHouse.Client/ADO/ClickHouseCommand.cs:119-139 | the same guard, then the command text with the behaviour's suffix is posted |
| `Command.ClickHouseCommand.ExecuteScalarAsync` | ClickHouse.Client/ADO/ClickHouseCommand.cs:95-100 | the default behaviour: the command text is posted without a suffix |
| `QueryString.SameKeyIgnoresCase` | ClickHouse.Client/Utility/HttpValueCollection.cs:18-21 | two non-null keys are the same key exactly when they are equal ignoring case; the null key matches only itself |
| `QueryString.AddValueKeys` | ClickHouse.Client/Utility/HttpValueCollection.cs:105-109 | Add keeps one entry per key, in order, and creates a key, the last one, exactly when none matched |
| `QueryString.AddValueLookup` | ClickHouse.Client/Utility/HttpValueCollection.cs:105-109 | Add appends a non-null value to the values of its key and leaves every other key alone |
| `QueryString.SetValueSpec` | ClickHouse.Client/Utility/HttpValueCollection.cs:117-121 | Set keeps the keys distinct, makes the value the only one of its key, and leaves every other key alone |
| `QueryString.RemoveKeyKeys` | ClickHouse.Client/Utility/HttpValueCollection.cs:111-115 | Remove keeps the keys distinct, leaves no entry for the key, and one key fewer when it was there |
| `QueryString.RemoveKeyLookup` | ClickHouse.Client/Utility/HttpValueCollection.cs:111-115 | Remove leaves no value for the key and every other key as it was |
| `QueryString.SerializeJoins` | ClickHouse.Client/Utility/HttpValueCollection.cs:142-175 | when no entry's text is empty, the result is the entries' texts joined by '&' |
| `QueryString.SerializeOnePair` | ClickHouse.Client/Utility/HttpValueCollection.cs:157-161 | one key with one value is written as the encoded key, '=' and the encoded value |
| `QueryString.SerializeBareForms` | ClickHouse.Client/Utility/HttpValueCollection.cs:144-161 | a key without values is written as key=, and the null key as its bare value |
| `QueryString.EmptyFirstEntryVanishes` | ClickHouse.Client/Utility/HttpValueCollection.cs:148-151 | an entry with an empty text at the front writes no '&', so the result is that of the other entries |
| `QueryString.EmptyLaterEntryLeavesSeparator` | ClickHouse.Client/Utility/HttpValueCollection.cs:148-151 | after non-empty output, an entry with an empty text still gets its '&', leaving a lone separator |
| `QueryString.ParseErrors` | ClickHouse.Client/Utility/HttpValueCollection.cs:30-55 | a null string is ArgumentNullException on str, and the only other error is the key-cap InvalidOperationException |
| `QueryString.ParseKeepsKeysDistinct` | ClickHouse.Client/Utility/HttpValueCollection.cs:50-100 | a parsed collection holds one entry per key |
| `QueryString.ParseKeyBound` | ClickHouse.Client/Utility/HttpValueCollection.cs:50-97 | a parsed collection holds at most 1001 keys: the cap plus the key of a trailing '&' |
| `QueryString.SegmentKeys` | ClickHouse.Client/Utility/HttpValueCollection.cs:79-97 | a segment adds at most one key, or two when it ends in the final '&' |
| `QueryString.ParseOneSegment` | ClickHouse.Client/Utility/HttpValueCollection.cs:57-92 | a string without '&' is one key, the decoded text before the first '=' (null without one), whose only value is the decoded rest |
| `QueryString.ParseTrailingSeparator` | ClickHouse.Client/Utility/HttpValueCollection.cs:94-97 | a trailing '&' adds an empty value under the null key, as a second value when the segment before it had no '=' |
| `QueryString.AppendEntry` | ClickHouse.Client/Utility/HttpValueCollection.cs:153-174 | one round of the outer loop appends the entry's text |
| `QueryString.AppendValues` | ClickHouse.Client/Utility/HttpValueCollection.cs:164-174 | the inner loop appends one prefixed value per value, '&' between them |
| `QueryString.ScanSegment` | ClickHouse.Client/Utility/HttpValueCollection.cs:57-77 | the inner loop stops at the segment's end and remembers its first '=' |
| `QueryString.ReadSegment` | ClickHouse.Client/Utility/HttpValueCollection.cs:57-90 | the name is the text before the first '=' (null without one) and the value the rest of the segment |
| `QueryString.ParseSegment` | ClickHouse.Client/Utility/HttpValueCollection.cs:57-99 | one round of the outer loop past the cap check advances past the segment with its keys added as the parse function says |
| `QueryString.HttpValueCollection.constructor` | ClickHouse.Client/Utility/HttpValueCollection.cs:18-21 | a new collection is empty and has no cached string |
| `QueryString.HttpValueCollection.Add` | ClickHouse.Client/Utility/HttpValueCollection.cs:105-109 | the cache is dropped and the value added to its key |
| `QueryString.HttpValueCollection.Remove` | ClickHouse.Client/Utility/HttpValueCollection.cs:111-115 | the cache is dropped and the key removed |
| `QueryString.HttpValueCollection.Set` | ClickHouse.Client/Utility/HttpValueCollection.cs:117-121 | the cache is dropped and the value made the key's only one |
| `QueryString.HttpValueCollection.ToString` | ClickHouse.Client/Utility/HttpValueCollection.cs:123-131 | the result is always the serialisation of the current contents: "" when there are no keys, otherwise the cached string, which is built on first use and kept |
| `QueryString.HttpValueCollection.BuildString` | ClickHouse.Client/Utility/HttpValueCollection.cs:137-178 | the loops produce the serialisation of the contents |
| `QueryString.HttpValueCollection.Parse` | ClickHouse.Client/Utility/HttpValueCollection.cs:30-103 | the scanner fails with the parse function's error, or returns a new collection whose contents are exactly the parse function's |
| `QueryRoundTrip.ValuesTextJoins` | ClickHouse.Client/Utility/HttpValueCollection.cs:164-174 | the values of one key are written as its key=value pairs, one per value, joined by '&' |
| `QueryRoundTrip.SerializePairs` | ClickHouse.Client/Utility/HttpValueCollection.cs:142-175 | for non-null keys with non-null values, BuildString writes every key=value pair of the collection, key by key, joined by '&' |
| `QueryRoundTrip.SegmentOfPair` | ClickHouse.Client/Utility/HttpValueCollection.cs:57-90 | a segment written a=b, with no '&' in either part and no '=' in a, ends after b and splits into the name a and the value b |
| `QueryRoundTrip.ParsePairStep` | ClickHouse.Client/Utility/HttpValueCollection.cs:50-99 | one round of the outer loop over a=b adds the decoded pair and resumes after the segment and its '&' |
| `QueryRoundTrip.ParseJoined` | ClickHouse.Client/Utility/HttpValueCollection.cs:50-100 | parsing the '&'-joined text of encoded pairs adds every pair, decoded, to its key, in order |
| `QueryRoundTrip.AddsLastKey` | ClickHouse.Client/Utility/HttpValueCollection.cs:105-109 | adding further values under the last key appends them to that key's values |
| `QueryRoundTrip.NewKeyPairs` | ClickHouse.Client/Utility/HttpValueCollection.cs:105-109 | adding the values of a key not yet present, one at a time, appends the key with all its values |
| `QueryRoundTrip.AddsPairs` | ClickHouse.Client/Utility/HttpValueCollection.cs:105-109 | adding the pairs of a collection with distinct keys one at a time, from an empty collection, gives the collection back |
| `QueryRoundTrip.ParseSerialize` | ClickHouse.Client/Utility/HttpValueCollection.cs:30-103 | Parse undoes BuildString: under an encoding that escapes '&', '=' and '?' and that decoding undoes, the parse of the serialised string is the original collection |
| `Tuples.DbTupleValue.Item` | ClickHouse.Client/Types/LargeTuple.cs:14 | the indexer answers the item at a position exactly when it is in range, and IndexOutOfRangeException otherwise |
| `Tuples.Create` | ClickHouse.Client/Types/DbTuple.cs:5-17 | a created tuple has one item per type argument and an arity between 1 and 7 |
| `Tuples.CreateKeepsOrder` | ClickHouse.Client/Types/DbTuple.cs:5-17 | a created tuple has the arity of its arguments, its type arguments are theirs, position i holds the (i+1)-th item, and every other position is out of range |
| `Tuples.LargeTupleIndexes` | ClickHouse.Client/Types/LargeTuple.cs:7-14 | a LargeTuple of any number of items, none included, has that length, and position i holds the i-th item |
| `Tuples.RangeTuple` | ClickHouse.Client.Tests/TupleTypeTests.cs:16-26 | a tuple of 1..count has length count and gives 1..count in order, in either representation |
| `Tuples.FirstTupleInChainFinds` | ClickHouse.Client/Types/DbTuple.Converter.cs:94-104 | the walk up the base chain finds the first listed Tuple on it, and nothing exactly when there is none |
| `Tuples.ValueTypeIgnoresBase` | ClickHouse.Client/Types/DbTuple.Converter.cs:89-92 | a value type matches, as itself, exactly when it is a listed ValueTuple, whatever its base type |
| `Tuples.SubclassFindsBaseTuple` | ClickHouse.Client/Types/DbTuple.Converter.cs:94-101 | a class that is not itself a listed Tuple converts like its base class |
| `Tuples.FoundTypeIsListed` | ClickHouse.Client/Types/DbTuple.Converter.cs:18-38 | any type found is a listed Tuple or ValueTuple of arity 1 to 7, matching the value-ness of the type searched |
| `Tuples.FindTupleType` | ClickHouse.Client/Types/DbTuple.Converter.cs:87-105 | the loop over the base chain computes that search |
| `Tuples.GetDbTupleType` | ClickHouse.Client/Types/DbTuple.Converter.cs:75-85 | defined exactly for lengths 1 to 7, and NotSupportedException otherwise |
| `Tuples.ExtractorFor` | ClickHouse.Client/Types/DbTuple.Converter.cs:107-135 | an extractor exists exactly for 1 to 7 type arguments; it targets the DbTuple over those arguments and reads Item1..ItemN in order, as fields of a value tuple and as properties otherwise |
| `Tuples.CreateFromTuple` | ClickHouse.Client/Types/DbTuple.Converter.cs:107-135 | the array-filling loop builds that extractor |
| `Tuples.ConvertMatchesCreate` | ClickHouse.Client/Types/DbTuple.Converter.cs:64-68 | converting a Tuple or ValueTuple gives the DbTuple that Create builds from the found type's arguments and the items, Item{i+1} at position i |
| `Tuples.ConvertCases` | ClickHouse.Client/Types/DbTuple.Converter.cs:50-73 | null gives nothing, an IDbTuple gives itself, and any other value converts exactly when a tuple type is found |
| `Tuples.FactoryCache.constructor` | ClickHouse.Client/Types/DbTuple.Converter.cs:15-16 | the cache starts empty |
| `Tuples.FactoryCache.GetOrAdd` | ClickHouse.Client/Types/DbTuple.Converter.cs:12-16 | the extractor returned is that of the type; one is built and stored only when the type is not cached yet |
| `Tuples.TryConvert` | ClickHouse.Client/Types/DbTuple.Converter.cs:50-73 | the result is the conversion, success says whether there is one, and the cache gains at most the extractor of the found type |
| `Tuples.Convert` | ClickHouse.Client/Types/DbTuple.Converter.cs:40-48 | the converted tuple, or ArgumentException on value exactly when there is none |

## Left out

- The HTTP transport (`HttpClient.SendAsync`, TLS, `CompressedContent` streaming) and
  `PostStreamAsync`: this is I/O. What the transport returns is an input, and a failure
  is one `TransportError`.
- Cancellation tokens and their linking, the `volatile` state field, and the thread safety
  of `ConcurrentDictionary` and `Lazy`: these concern concurrency. The factory cache is
  modelled sequentially.
- Reflection and expression compilation in `CreateFromTuple`. CLR types are values of a
  datatype (value-ness, generic definition, type arguments, base type). A compiled
  extractor is the list of members it reads.
- The seven `Create` overloads are one function over the arity. Static type parameters are
  kept as the names of the type arguments.
- Library calls are parameters of the operations that use them: `WebUtility.UrlEncode`
  and `UrlDecode`, UTF-8 decoding, `Read7BitEncodedInt`, and the two parameter formatters.
  The Base64 encoding of the credentials is left out: the header holds the text before it.
- `ClickHouseUriBuilder`, `ClickHouseConnectionStringBuilder`, `ClickHouseServerException`,
  `ExtendedBinaryReader`, `ClickHouseDataReader` and `SchemaDescriber` are not part of
  this model.
  - A request URI is the builder's inputs, not its text.
  - The constructor takes the settings a connection string would give.
  - A server error carries the response text and the query, not the exception's parsing.
- `ExecuteScalarAsync` returns the posted response: reading the first value through the
  data reader is not modelled.
- `QueryRoundTrip.ParseSerialize`: the round trip is stated for collections whose keys are
  all non-null, each with at least one value and no null value, and with at most 1000
  values in all. The parser counts keys, not values, against its cap, so that bound is
  stricter than needed. A null key, a key without values or a null value is written
  in forms the parser reads back differently.
- `QueryString.SameKeyIgnoresCase`: ordinal case-insensitive comparison is modelled as
  ASCII upper-casing, so letters outside ASCII are compared as they are.
- `Command.ClickHouseCommand.constructor`: a null `CommandText` is not modelled. The text
  is a string, empty at first.
- `Tuples.Convert`: the ArgumentException message is a constant of the model and is not
  carried in the error value.
- `GetSchema`, `BeginDbTransaction`, `Clone`, `Prepare`, `Dispose` and the ADO property
  boilerplate.
- `Tuples.RangeTuple`: the test reads the tuple from a server. The model states only what
  the result then holds; the server side is not part of this model.
