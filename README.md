# A verified model of serverCalcApplication's request core and of its ozo decoder contract

serverCalcApplication is a small TCP server. A client sends one line of text. The server classifies
it as a login, password, calc, logout or incorrect request, and answers whether the request is
accepted. The server keeps its live client connections in a pool.

The repository vendors the ozo PostgreSQL client library. Its tests fix the contract of ozo's
binary decoder:
- `recv` turns a cell (type OID and bytes, or NULL) into a C++ value;
- `recv_row` turns a row into a tuple, an adapted structure or a single value;
- `recv_result` turns a whole result into a container;
- `to_chrono_duration` converts a PostgreSQL interval.

The same tests fix the custom-type OID negotiation (`get_types_names`, `set_oid_map`, `type_oid`),
the trimming of libpq error messages, and the dispatch of a cancel request.

The model is split into these modules:

- `BigEndian`: `ozo::read` of big-endian integers, with the encoder the tests build their buffers with.
- `PgTypes`, `Recv`, `RecvFixed`: cells and destinations, the scalar decoders, and the binary array
  format (12-byte header, one 8-byte dimension record, then frames of a signed 4-byte length and a
  payload). `RecvFixed` covers decoding into a `std::array`, written in place into a Dafny `array`.
- `ArrayEncoding`: the sender's side of the array format (header, dimension record, frames), the
  independent encoder the array round-trip lemmas decode.
- `ArrayLayout`: the meaning of the array decoder: round trips against `ArrayEncoding`, and the
  empty, refused and NULL-element cases.
- `RecvProperties`: what `recv` yields for each scalar type and for NULL and nullable cells.
- `Sequencing`: running a sequence of fallible steps in order, stopping at the first failure
  (`Collect` for a row's members, `Gather` for a result's rows, which keeps the values before it).
- `Wrappers`: the `Option` and `Result` datatypes.
- `Interval`: the interval triple, converted with 30-day months and saturation at the int64 bounds.
- `Rows`, `RowProperties`: query results, `recv_row` by position or by column name, and
  `recv_result`. Results go through a back-inserter (a `RowVector` class) or through an iterator
  into a pre-sized `array`.
- `OidMapping`: the OID map of custom types as a class whose entries `set_oid_map` updates, plus
  the completion of `request_oid_map_op`.
- `Trimming`, `PgConnection`, `Cancel`: stripping trailing spaces or NULs, `connection_good`,
  `connection_bad`, `error_message`, and `dispatch_cancel`.
- `Request`: the executors of `server/Request.h`, looking the request up in the constant tables.
- `RequestHandler`: `defineRequestType` (the whitespace check, then the keyword cascade) and `handle`.
- `Pool`: `ConnectionPool` as a class over a set of connections, with a log of the
  `startHandling`/`stopHandling` calls it makes.

Three behaviours of the server code are modelled as written, and lemmas exhibit each one:

- **The whitespace counter wraps.** It is an `unsigned short`, so a request with 65 537 whitespace
  characters passes the "fewer than two words" check (`RequestHandler.SpaceCounterWraps`).
- **The shift counts from the start of the request.** Executors drop a fixed number of bytes from
  the start, not from where the keyword was found. So `"xlogin sappyk"` is classified as a login
  and refused (`RequestHandler.LoginAfterPrefixExample`).
- **calc evaluates nothing.** `calc_executor` looks the text after `"calc "` up among the login
  names, so `"calc 2+2"` is refused (`RequestHandler.CalcExample`).

## Model

| member | source | states |
|---|---|---|
| BigEndian.ReadInt | external/ozo/tests/binary_deserialization.cpp:36-50 | reading n bytes succeeds exactly when n bytes remain; the value is their signed big-endian reading and the cursor advances by n |
| BigEndian.ReadUInt | external/ozo/tests/binary_deserialization.cpp:36-50 | the same for unsigned reads such as OIDs |
| BigEndian.ReadEmptyFails | external/ozo/tests/binary_deserialization.cpp:36-50 | reading a value of one byte or more from an empty stream fails |
| BigEndian.SignedRoundTrip | external/ozo/tests/binary_deserialization.cpp:95-132 | decoding the two's-complement big-endian encoding of any representable value gives the value back |
| BigEndian.UnsignedRoundTrip | external/ozo/tests/binary_deserialization.cpp:95-132 | decoding the unsigned encoding of any value below 256^n gives it back |
| BigEndian.UnsignedEncodeDecode | external/ozo/tests/binary_deserialization.cpp:95-132 | the other direction: re-encoding a decoded buffer restores its bytes, so decoding is injective |
| BigEndian.SignedInRange | external/ozo/tests/binary_deserialization.cpp:95-132 | every n-byte buffer decodes to a value that fits n bytes |
| Recv.DecodeScalar | external/ozo/tests/binary_deserialization.cpp:69-156 | a scalar decode can fail only with a bad object size or an unexpected end of data |
| Recv.Decode | external/ozo/tests/binary_deserialization.cpp:58-190 | `recv` of a cell fails only with one of the decoder's own errors (a system error or invalid_argument) |
| Recv.RecvCell | external/ozo/tests/binary_deserialization.cpp:58-190 | the imperative decoder (null check, OID check, then bytes) computes exactly `Decode` |
| Recv.RecvData | external/ozo/tests/binary_deserialization.cpp:69-156 | the decoder of a non-null value whose OID was accepted computes exactly `DecodeData` |
| Recv.ReadHeader | external/ozo/tests/binary_deserialization.cpp:286-398 | a header that announces elements has rank 1 and a complete dimension record; a refused header is a system error |
| Recv.Frame | external/ozo/tests/binary_deserialization.cpp:192-214 | a decoded frame moves the cursor past its 4-byte length and stays inside the buffer |
| Recv.FramesStep | external/ozo/tests/binary_deserialization.cpp:192-214 | n frames are the first frame, then n-1 frames from its end; a failing first frame fails them all with its error |
| Recv.ReadFrames | external/ozo/tests/binary_deserialization.cpp:192-214 | the element loop, advancing a cursor frame by frame, yields exactly the frames' specification |
| Recv.ReadArray | external/ozo/tests/binary_deserialization.cpp:192-214 | the std::vector array decoder (header, checks, then the element loop) yields exactly `ArrayBody` |
| RecvFixed.FramesLength | external/ozo/tests/binary_deserialization.cpp:216-284 | decoded frames number exactly the count announced |
| RecvFixed.FixedArrayIffCount | external/ozo/tests/binary_deserialization.cpp:216-284 | a std::array of N elements is filled exactly when the array decodes and its dimension size is N, and then holds those elements; an array that decodes with more or fewer elements is the system error bad_array_size |
| RecvFixed.RecvFixedArray | external/ozo/tests/binary_deserialization.cpp:216-284 | writes the decoded elements in place into the array, leaves it unchanged for an empty array, and reports the error of `FixedArraySpec` otherwise |
| RecvFixed.WriteFrames | external/ozo/tests/binary_deserialization.cpp:216-284 | the in-place element loop succeeds exactly when the frames decode; the array then holds their values and otherwise the first failing frame's error is reported |
| RecvProperties.ScalarOidsDistinct | external/ozo/tests/binary_deserialization.cpp:58-67 | each scalar type and each array type has its own OID, and no scalar OID is an array OID |
| RecvProperties.AcceptsOnlyItsOid | external/ozo/tests/binary_deserialization.cpp:58-67 | a non-null cell with another OID than the destination's fails with oid_type_mismatch; a success implies the OIDs agree |
| RecvProperties.BoolByte | external/ozo/tests/binary_deserialization.cpp:69-80 | a one-byte bool cell is true exactly when the byte is nonzero |
| RecvProperties.IntegerRoundTrip | external/ozo/tests/binary_deserialization.cpp:95-132 | an int2, int4 or int8 cell holding the encoding of v decodes to v |
| RecvProperties.IntegerInRange | external/ozo/tests/binary_deserialization.cpp:95-132 | a decoded integer is the signed reading of the cell and fits its type |
| RecvProperties.BytesVerbatim | external/ozo/tests/binary_deserialization.cpp:134-156 | bytea, text and name take the cell's bytes unchanged |
| RecvProperties.NonNullIntoNullable | external/ozo/tests/binary_deserialization.cpp:158-169 | a non-null cell decodes into a nullable exactly when it decodes into the inner type, and gives that value made present |
| RecvProperties.NullCell | external/ozo/tests/binary_deserialization.cpp:171-190 | a NULL cell empties a nullable destination whatever its OID, and is invalid_argument for any other destination |
| RecvProperties.IntegralWidthChecked | external/ozo/tests/binary_deserialization.cpp:354-364 | bool and the integers decode exactly when the cell has their width; any other width is bad_object_size |
| RecvProperties.UuidVerbatim | external/ozo/tests/binary_deserialization.cpp:739-761 | a uuid is its 16 bytes in wire order |
| RecvProperties.TimestampRebased | external/ozo/tests/binary_deserialization.cpp:763-778 | a timestamp of t microseconds since 2000 is the time point t + 946684800000000 microseconds since 1970, counted without bound (the 64-bit overflow is left out) |
| RecvProperties.IntervalDecoded | external/ozo/tests/binary_deserialization.cpp:780-797 | an interval cell is read as microseconds, days and months, then converted |
| ArrayLayout.DecodeAll | external/ozo/tests/binary_deserialization.cpp:192-214 | decoded elements number as many as the elements given |
| ArrayLayout.AllDecodedInOrder | external/ozo/tests/binary_deserialization.cpp:400-426 | the elements decode together exactly when each one decodes alone; the values are theirs, in order, and a failure is the first failing element's error |
| ArrayLayout.FrameOfEncoding | external/ozo/tests/binary_deserialization.cpp:192-214 | an encoded frame decodes as its element and the cursor moves past it |
| ArrayLayout.FramesOfEncoding | external/ozo/tests/binary_deserialization.cpp:192-214 | consecutive encoded frames decode as their elements, in order |
| ArrayLayout.HeaderOfEncoding | external/ozo/tests/binary_deserialization.cpp:192-214 | the header of an encoded one-dimensional array reads back as rank 1, its element OID and its count |
| ArrayLayout.ArrayRoundTrip | external/ozo/tests/binary_deserialization.cpp:192-214 | decoding an encoded array gives its elements decoded in order, whatever the flags word, the lower bound or the trailing bytes |
| ArrayLayout.VectorRoundTrip | external/ozo/tests/binary_deserialization.cpp:192-214 | the same for a whole cell carrying the array type's OID into a std::vector |
| ArrayLayout.RankAboveOneFails | external/ozo/tests/binary_deserialization.cpp:286-307 | a rank of 2 or more is bad_array_dimension, whatever the rest of the buffer holds (the lemma also covers negative ranks, which the model refuses the same way) |
| ArrayLayout.ElementOidMismatchFails | external/ozo/tests/binary_deserialization.cpp:309-330 | an element OID other than the destination element's is oid_type_mismatch |
| ArrayLayout.NullElementNotNullable | external/ozo/tests/binary_deserialization.cpp:332-352 | a NULL element refuses the array when elements are not nullable, with invalid_argument when it is the first failing element |
| ArrayLayout.ZeroDimensionsEmpty | external/ozo/tests/binary_deserialization.cpp:366-381 | rank 0 gives an empty container, whatever follows the header |
| ArrayLayout.ZeroSizeEmpty | external/ozo/tests/binary_deserialization.cpp:382-398 | a dimension of size 0 gives an empty container |
| ArrayLayout.NullElementInNullable | external/ozo/tests/binary_deserialization.cpp:428-453 | a NULL element of a nullable-element array is absent in its own slot, and the array decodes exactly when the other elements do |
| Interval.ChronoDurationSaturates | external/ozo/tests/binary_deserialization.cpp:799-848 | the conversion is exact when the exact length fits int64, and is the upper or lower bound exactly when the length overflows it |
| Interval.MonthIsThirtyDays | external/ozo/tests/binary_deserialization.cpp:799-848 | trading k months for 30k days never changes the result |
| Interval.ChronoDurationMonotone | external/ozo/tests/binary_deserialization.cpp:799-848 | the conversion is monotone in every component |
| Interval.ChronoDurationVectors | external/ozo/tests/binary_deserialization.cpp:809-848 | the conversion gives each of the test vectors' expected results, including the saturating ones |
| Rows.FieldNumber | external/ozo/tests/binary_deserialization.cpp:571-587 | the column number of a name is its first column, and -1 exactly when no column carries it |
| Rows.RecvRow | external/ozo/tests/binary_deserialization.cpp:473-594 | the member loop of `recv_row` computes exactly `DecodeRow` |
| Rows.RowsDecodedInOrder | external/ozo/tests/binary_deserialization.cpp:602-737 | `recv_result` delivers the longest run of leading rows that decode, each as decoded alone; a failure is the next row's error |
| Rows.RecvResultAppend | external/ozo/tests/binary_deserialization.cpp:602-657 | through a back-inserter, the decoded rows are appended after the vector's previous items, and the error is the result's |
| Rows.RecvResultInto | external/ozo/tests/binary_deserialization.cpp:658-730 | through an iterator, row i goes to slot i of the pre-sized destination and the slots after the decoded rows keep their values |
| Rows.WriteRows | external/ozo/tests/binary_deserialization.cpp:658-730 | the row loop writes each row outcome in order and stops at the first failure |
| Rows.ReadRow | external/ozo/tests/binary_deserialization.cpp:602-730 | a row read in the result loop is that row's own outcome |
| RowProperties.MembersDecideRow | external/ozo/tests/binary_deserialization.cpp:473-594 | a row of the right arity decodes exactly when every member does; otherwise it fails with the first failing member's error |
| RowProperties.MemberValues | external/ozo/tests/binary_deserialization.cpp:480-554 | a decoded row is the destination assembled from its members' values, in declaration order |
| RowProperties.MemberErrors | external/ozo/tests/binary_deserialization.cpp:571-587 | a member fails with a range error for a missing column, or else with its cell's own error |
| RowProperties.RowSizeMismatchIff | external/ozo/tests/binary_deserialization.cpp:473-478 | a row is refused with the row-size range error exactly when the arity differs from the field count |
| RowProperties.TupleByPosition | external/ozo/tests/binary_deserialization.cpp:480-499 | a tuple takes column i into element i, and decodes exactly when every column does |
| RowProperties.StructByName | external/ozo/tests/binary_deserialization.cpp:508-554 | an adapted structure takes each member from the column of its name, wherever that column is |
| RowProperties.MissingColumnFails | external/ozo/tests/binary_deserialization.cpp:571-587 | a member whose name no column carries refuses the row, with a range error when it is the first failing member |
| RowProperties.SingleValueOneField | external/ozo/tests/binary_deserialization.cpp:589-594 | an unadapted value takes only a one-field row, and is that field decoded |
| RowProperties.FieldNumberOfDistinct | external/ozo/tests/binary_deserialization.cpp:508-554 | with distinct names, column k is found under its own name |
| RowProperties.NamesPermuted | external/ozo/tests/binary_deserialization.cpp:508-554 | a result with permuted columns has the same names: every name of either result is a name of the other |
| RowProperties.ColumnOrderIrrelevant | external/ozo/tests/binary_deserialization.cpp:508-554 | with distinct column names, reordering the columns never changes what a structure decodes to |
| RowProperties.ResultAllRows | external/ozo/tests/binary_deserialization.cpp:602-737 | `recv_result` succeeds exactly when every row decodes, and then delivers every row in order |
| RowProperties.TestCells | external/ozo/tests/binary_deserialization.cpp:480-499 | the tests' cells decode as the int4 7 and the text "test" |
| RowProperties.DigitTextAsTuple | external/ozo/tests/binary_deserialization.cpp:480-499 | the tests' row gives the tuple (7, "test") |
| RowProperties.StructOfTwo | external/ozo/tests/binary_deserialization.cpp:508-554 | a two-member structure whose columns decode to v0 and v1 is the record (v0, v1) |
| RowProperties.DigitTextAsStruct | external/ozo/tests/binary_deserialization.cpp:508-554 | the tests' row gives the structure with text "test" and digit 7, though its columns come in the other order |
| RowProperties.TwoEqualRows | external/ozo/tests/binary_deserialization.cpp:602-730 | two rows decoding to the same value make a result of that value twice, without error |
| RowProperties.DigitTextResultRows | external/ozo/tests/binary_deserialization.cpp:602-713 | the tests' two-row result gives two structures and no error |
| RowProperties.SevenColumnRows | external/ozo/tests/binary_deserialization.cpp:714-730 | a two-row int4 column gives two integers 7 |
| OidMapping.TypesNamesInOrder | external/ozo/tests/impl/request_oid_map.cpp:29-33 | `get_types_names` gives one name per entry, in registration order |
| OidMapping.RegisteredNames | external/ozo/tests/impl/request_oid_map.cpp:24-33 | the names of a registered map are the registered names, and none for the empty map |
| OidMapping.IndexOf | external/ozo/tests/impl/request_oid_map.cpp:35-42 | the position of a name is its first entry, or -1 when no entry has it |
| OidMapping.IndexOfDistinct | external/ozo/tests/impl/request_oid_map.cpp:35-42 | with distinct names, entry i is found under its own name |
| OidMapping.FirstNull | external/ozo/tests/impl/request_oid_map.cpp:50-54 | the first null OID of a result, or -1 when there is none |
| OidMapping.WithOids | external/ozo/tests/impl/request_oid_map.cpp:35-42 | the first n entries get the result's OIDs and keep their names; the others are untouched |
| OidMapping.SetOidMapOutcome | external/ozo/tests/impl/request_oid_map.cpp:35-54 | `set_oid_map` succeeds exactly when the sizes agree and no OID is null; it throws length_error exactly for a size mismatch, and invalid_argument exactly for a null OID |
| OidMapping.SetOidMapKeepsNames | external/ozo/tests/impl/request_oid_map.cpp:35-54 | `set_oid_map` never changes a name, whatever it throws |
| OidMapping.TypeOidAfterSet | external/ozo/tests/impl/request_oid_map.cpp:35-42 | after a successful `set_oid_map`, `type_oid` of the i-th type is the i-th OID of the result |
| OidMapping.OidMap.SetOidMap | external/ozo/tests/impl/request_oid_map.cpp:35-54 | the in-place assignment leaves the map and the exception of `SetOidMapSpec`, and keeps the names distinct |
| OidMapping.RequestOidMapComplete | external/ozo/tests/impl/request_oid_map.cpp:81-88 | the completion of the negotiation leaves the map, the handler's code and the recorded error context of `RequestOidMapSpec`: upstream errors pass through, and anything `set_oid_map` throws becomes oid_request_failed |
| OidMapping.RequestOidMapCodes | external/ozo/tests/impl/request_oid_map.cpp:81-88 | the handler gets oid_request_failed exactly for that upstream error or a result that does not fit the map (wrong size or a null OID), and no error exactly when every OID was assigned; the recorded exception is length_error exactly for a wrong size and invalid_argument exactly for a null OID; no outcome changes a type's name |
| OidMapping.TwoCustomTypes | external/ozo/tests/impl/request_oid_map.cpp:24-88 | the tests' two custom types get OIDs 11 and 22; result {11} throws length_error, {11, null} throws invalid_argument, and an empty map with one OID fails the request with oid_request_failed |
| Trimming.StripTrailingStrips | external/ozo/tests/connection.cpp:224-246 | the stripped text is a prefix of the input that does not end in the character, followed in the input only by that character |
| Trimming.StrippedUnique | external/ozo/tests/connection.cpp:224-246 | there is only one such prefix |
| Trimming.NothingToStrip | external/ozo/tests/connection.cpp:230-235 | a text not ending in the character is kept as it is |
| Trimming.OnlyTheCharacter | external/ozo/tests/connection.cpp:242-246 | a text made only of the character becomes empty |
| Trimming.StripAppended | external/ozo/tests/connection.cpp:224-229 | appending copies of the character to such a text and stripping gives the text back |
| PgConnection.FindLastNotOf | external/ozo/tests/connection.cpp:224-246 | `find_last_not_of` gives the last position holding another character, or npos exactly when there is none |
| PgConnection.PositionAfter | external/ozo/tests/connection.cpp:242-246 | npos + 1 wraps to 0 in size_t, so an all-space message keeps nothing |
| PgConnection.ErrorMessageStripsSpaces | external/ozo/tests/connection.cpp:224-246 | `connection_error_message` is the message without its trailing spaces |
| PgConnection.ErrorMessageExamples | external/ozo/tests/connection.cpp:224-246 | the four messages of the tests trim as they expect |
| PgConnection.GoodAndBad | external/ozo/tests/connection.cpp:119-155 | a connection is good exactly when it is non-null with an OK handle, bad exactly when not good, and a null one is bad |
| PgConnection.ErrorMessageOfConnection | external/ozo/tests/connection.cpp:252-254 | `error_message` of a null connection is empty; otherwise it is the trimmed libpq message |
| Cancel.DispatchCancelOutcome | external/ozo/tests/impl/cancel.cpp:26-61 | `dispatch_cancel` reports pq_cancel_failed exactly when `pq_cancel` fails, with the written message stripped of trailing NULs, and an empty message otherwise |
| Cancel.DispatchCancelExamples | external/ozo/tests/impl/cancel.cpp:26-61 | the tests' four outcomes: success, a message kept, ten trailing NULs removed, all NULs giving an empty message |
| Request.FindEntry | server/Request.h:16-22 | `std::find` gives the first position holding the value, or the table's size exactly when none does |
| Request.DatabaseMatchIsMembership | server/Request.h:16-22 | `hasDatabaseMath` holds exactly when the request, its shift bytes dropped, is a table entry |
| Request.CStringAt | server/Request.h:44-50 | the C string at a position is the text up to the first NUL, or to the end when there is none |
| Request.ExecAnswers | server/Request.h:24-74 | every executor but the nullptr_t one answers; logout and incorrect accept; login and password accept exactly the table entries after their shift |
| Request.CStringWithoutNul | server/Request.h:44-50 | without a NUL, the C string is the whole rest of the text |
| Request.CalcMatchesLogins | server/Request.h:44-50 | calc accepts exactly the requests whose text after "calc " is a login name |
| RequestHandler.SpaceCount | server/RequestHandler.cpp:8-15 | the unbounded whitespace count is at most the length |
| RequestHandler.IsLessThanTwoWords | server/RequestHandler.cpp:8-15 | the loop with its 16-bit counter says yes exactly when the whitespace count modulo 2^16 is at most 1 |
| RequestHandler.FewSpacesExact | server/RequestHandler.cpp:8-15 | below 2^16 characters the check is exactly "at most one whitespace character" |
| RequestHandler.SpaceCountAppend | server/RequestHandler.cpp:8-15 | the count of a concatenation is the sum of the counts |
| RequestHandler.SpaceCountAllSpaces | server/RequestHandler.cpp:8-15 | a run of whitespace counts its length |
| RequestHandler.SpaceCountNone | server/RequestHandler.cpp:8-15 | a text without whitespace counts none |
| RequestHandler.TwoWords | server/RequestHandler.cpp:8-18 | two words joined by one space pass the check |
| RequestHandler.FindFrom | server/RequestHandler.cpp:20-27 | `find` gives the first occurrence at or after the position, or npos exactly when there is none |
| RequestHandler.ContainsIff | server/RequestHandler.cpp:20-27 | `find` reports a match exactly when the keyword occurs somewhere |
| RequestHandler.MissingCharacter | server/RequestHandler.cpp:20-27 | a text lacking a character of the keyword does not contain it |
| RequestHandler.DefineRequestType | server/RequestHandler.cpp:6-30 | the classifier returns exactly the class of `RequestTypeOf` |
| RequestHandler.ClassifiedByKeyword | server/RequestHandler.cpp:6-30 | a request is incorrect exactly when it fails the check or has no keyword; otherwise its class is that of the first keyword, in cascade order, that it contains |
| RequestHandler.DispatchedLongEnough | server/RequestHandler.cpp:32-41 | a request is at least as long as its class's keyword, so the executor's shift stays within it |
| RequestHandler.Handle | server/RequestHandler.cpp:32-41 | `handle` returns exactly `HandleSpec`: its class's executor, and the incorrect executor otherwise |
| RequestHandler.HandleAnswers | server/RequestHandler.cpp:32-41 | `handle` always answers, and refuses exactly an unmatched login, password or calc request |
| RequestHandler.LoginAnswer | server/RequestHandler.cpp:18-34 | a request that passes the check and contains "login " is answered by whether its text after six bytes is a login name |
| RequestHandler.PasswordAnswer | server/RequestHandler.cpp:18-35 | a request that passes the check, lacks "login " and contains "password " is answered by the password table |
| RequestHandler.CalcAnswer | server/RequestHandler.cpp:18-36 | a request that passes the check, lacks the two earlier keywords and contains "calc " is answered by the login table |
| RequestHandler.LoginExample | server/RequestHandler.cpp:20-34 | "login sappyk" is a login and is accepted |
| RequestHandler.UnknownLoginExample | server/RequestHandler.cpp:20-34 | "login nobody" is a login and is refused |
| RequestHandler.LoginAfterPrefixExample | server/RequestHandler.cpp:20-34 | "xlogin sappyk" is a login and is refused, because the shift counts from the start of the request |
| RequestHandler.PasswordExample | server/RequestHandler.cpp:22-35 | "password password" is a password request and is accepted |
| RequestHandler.CalcExample | server/RequestHandler.cpp:24-36 | "calc 2+2" is a calc request and is refused |
| RequestHandler.LogoutExample | server/RequestHandler.cpp:26-37 | "logout" is a logout request and is accepted |
| RequestHandler.IncorrectExample | server/RequestHandler.cpp:18-40 | "login a b" has two spaces, so it is incorrect and is accepted |
| RequestHandler.SpaceCounterWraps | server/RequestHandler.cpp:8-18 | "login sappyk" followed by 2^16 tabs passes the check through wrap-around, is a login and is refused |
| Pool.ConnectionPool.Insert | server/ConnectionPool.cpp:6-10 | the connection joins the set, once however often inserted, and is started |
| Pool.ConnectionPool.Remove | server/ConnectionPool.cpp:12-16 | the connection leaves the set, the others stay, and it is stopped whether or not it was present |
| Pool.ConnectionPool.RemoveAll | server/ConnectionPool.cpp:18-25 | every connection of the pool is stopped exactly once and nothing else is; the earlier calls are kept, and the pool ends empty |
| Pool.StopAll | server/ConnectionPool.cpp:20-22 | the loop yields one stop per member of the set and nothing else, without repeats |
| Pool.PoolSession | server/ConnectionPool.cpp:6-25 | inserting c twice and d once, removing c twice, then clearing gives sizes 1, 1, 2, 1, 1, 0 and starts and stops in that order |

## Left out

- float4 decoding (binary_deserialization.cpp:82-93): floating point is not modelled.
- The decoder's own headers are not part of this model. The decoders follow the contract the tests fix, not ozo's template code.
- `recv_result` writes into a sequence (back-inserter) or an array (iterator). Arbitrary output iterators, and results that are themselves returned (binary_deserialization.cpp:732-737), are not modelled.
- `unique_ptr`, `optional` and other nullable wrappers are one `Nullable` destination.
- Recv.DecodeScalar: uuid, timestamp and interval are read from their leading bytes. Extra bytes beyond their width are not refused as a bad object size, because the tests fix only the exact-width case.
- Asynchronous code is left out, as is its executors and timers: `initiate_async_cancel`, `async_get_connection`, the `request_oid_map_op` query itself, and the handler wrapping.
- The Connection concept checks and the connection accessors are left out, because they are compile-time or a plain libpq call: `unwrap_connection`, `get_error_context`, `get_database`, `get_host`, `get_port`, `get_user`, `get_password`.
- The server's networking, threads, Boost.Asio sessions, PostgreSQL database access and program options are left out: they are I/O.
- Request.CalcExec: `calc_executor` reads a C string from the view's data, which can run past the view. The model stops at the first NUL or at the end of the request, as if the buffer were terminated right after the request. Memory beyond the request is not modelled.
- Requests are modelled as `string`. `isspace` is modelled in the C locale, with only the six ASCII whitespace characters.
- Pool.ConnectionPool.RemoveAll: the order of the stops is the set's iteration order, which the model leaves unspecified. A connection is a `nat` identity standing for its shared pointer.
- Pool.ConnectionPool.Insert: `startHandling` and `stopHandling` are recorded as events in the pool's log. What they do to the connection is not modelled.
- Rows.RecvResultInto: a row that fails to decode writes nothing into its slot in the model. ozo may already have written the row's earlier fields there, and that output is unspecified, so callers must discard it. The slot and the slots after it are stated as unchanged only because the model writes nothing.
- Rows.RecvResultAppend: a row that fails to decode appends nothing in the model. The vector's content after a failed row is unspecified in ozo and must be discarded by the caller.
- Rows.WriteRows: the same as `Rows.RecvResultInto`, for the loop it runs.
- OidMapping.RequestOidMapSpec: the code of `request_oid_map_op` is not part of this model. The completion is modelled as catching whatever `set_oid_map` throws, recording it as the connection's error context and handing oid_request_failed to the continuation. Only the size-mismatch case is fixed by the test (request_oid_map.cpp:81-88); the null-OID case follows the same catch. The exception's message text is reduced to its kind.
- RecvProperties.TimestampRebased: the time point is an unbounded count of microseconds. C++'s `system_clock::time_point` is a signed 64-bit count (of microseconds or nanoseconds, by library). There, rebasing by 946 684 800 000 000 microseconds overflows near the int64 bounds, which includes PostgreSQL's `infinity` and `-infinity` timestamps (sent as the int64 maximum and minimum), and, with nanoseconds, dates before 1677 or after 2262. The model does not capture that overflow; `Recv.DecodeScalar` rebases the same way.
- Recv.ReadHeader: a negative dimension count is refused with bad_array_dimension, like every count other than 0 and 1. The tests fix only that a count of 2 is refused, so the negative case is the model's choice.
