# Student-record server: the request dispatcher

This project models the server side of a line-oriented JSON student-record service. It covers the per-connection
`ClientHandler` and the `Student` record it manages.

The client sends one JSON object per line. Each object names an action: INSERT, FIND, LIST, UPDATE, DELETE or QUIT.
The action is matched after upper-casing and trimming. The four payload actions also carry a `payload` object. The
handler answers every line it processes with exactly one JSON line: OK with a message or data, or ERROR with a code
and a message. The loop stops on QUIT, on a line that is not a JSON object, and on any other exception. It also stops
on a read failure, which closes the connection without a reply.

The model is layered like the program:

- `Json`: the decoded JSON tree, together with the Jackson accessors the handler uses (`path`, `asText`, `asDouble`,
  `asLong`, `isEmpty`).
- `Text`: `String.isBlank`, `trim` and `toUpperCase`.
- `Dates`: `LocalDate.parse` and `LocalDate.toString` for the ISO form `YYYY-MM-DD`.
- `StudentModel`: the record datatype, plus a validity predicate taken from its Jakarta constraint annotations.
- `Codes`: the error codes and their fixed messages.
- `Payload`: the expression-level decisions:
  - the payload-presence check;
  - the lenient mapping of payload fields to a `Student` with sentinels;
  - the ordered INSERT checks;
  - the id check;
  - the UPDATE merge.
- `Store`: an in-memory table of rows, with a scan order and an auto-increment counter. It stands in for
  `StudentRepository`. How a store call goes is an input (`StoreFault`), because it depends on the database and not on
  the table's contents. A call can throw before it writes, affect no row, write without returning a generated key, or
  write and then throw. The write functions return the table the database holds afterwards together with the result,
  so a row that was committed before an exception stays stored.
- `Protocol`: the actions, the responses, and the JSON written for each.
- `Dispatch`: pure reference definitions of what one request does (`Respond`) and of what a whole session does
  (`Session`). An input line is either a decoded tree or `Malformed`. A read failure is a separate input event.
- `Handler`: the imperative `ClientHandler` class. Its fields are the store and the sequence of responses written so
  far. Every handler method is proved to change both exactly as the `Dispatch` definitions say. `Run` is the `while`
  loop of `run`.
- `Properties`: facts that relate several requests or a whole session:
  - how a session ends;
  - that the table's invariant survives every request;
  - what FIND and LIST see after INSERT, UPDATE and DELETE;
  - that a rejected id never reaches the store.

The model follows the code where the code and the test suite disagree:

- A missing or empty payload is answered with the upper-cased action name as the error code (ClientHandler.java:249).
  ServerProgramTest.java:252 and :288 expect `MISSING_PAYLOAD`.
- QUIT writes one OK line before the handler returns (ClientHandler.java:243). ServerProgramTest.java:226-228 expects
  no reply.
- `readLine` sits in the loop condition (ClientHandler.java:49), outside the inner `try`. A timed-out read therefore
  reaches the outer `catch (IOException)` and nothing is written. The `TIMEOUT` branch at :77-81 is unreachable, and
  `Properties.SessionNeverTimesOut` proves that no session ever writes `TIMEOUT`.
- INSERT answers OK with id -1 when `insert` returns -1 (ClientHandler.java:130-132). That happens when no row was
  affected, and also when the row was written but no generated key came back (StudentRepository.java:30-41). In the
  second case the row is stored.
- An exception after the INSERT row is written is answered with DB_ERROR, yet the row stays committed, because every
  statement runs on its own auto-commit connection (StudentRepository.java:21 and :32-44).
- Id 0 passes the id check (ClientHandler.java:297).

## Model

| member | source | states |
|---|---|---|
| StudentModel.SexValueOf | src/main/java/org/client_server/server/ClientHandler.java:279 | `Sex.valueOf` yields a constant exactly when the text is that constant's name. |
| Json.Path | src/main/java/org/client_server/server/ClientHandler.java:258-262 | `path` finds a node exactly when the object has the key, and that node is the member under the key; otherwise it is the missing node. |
| Json.AsText | src/main/java/org/client_server/server/ClientHandler.java:258-262 | `asText` gives the default (null) for a missing node and for null, the string for a text node, and an empty text for a container. |
| Json.AsDouble | src/main/java/org/client_server/server/ClientHandler.java:260 | `asDouble` reads a number node's value and a boolean as 1 or 0. Every other node and the missing node give the default. |
| Json.AsLong | src/main/java/org/client_server/server/ClientHandler.java:296 | `asLong` truncates a number node's value and reads a boolean as 1 or 0. Every other node and the missing node give the default. |
| Json.IsEmptyNode | src/main/java/org/client_server/server/ClientHandler.java:248 | `isEmpty` holds for every scalar node. An object or an array is empty exactly when it has no members or items. |
| Json.Truncate | src/main/java/org/client_server/server/ClientHandler.java:296 | The `long` conversion behind `asLong` truncates toward zero. For non-negative values the result is the floor; for negative ones it is the ceiling. |
| Text.TrimStart | src/main/java/org/client_server/server/ClientHandler.java:54 | The result is a suffix of the input. Everything dropped is a code point up to U+0020. The result does not start with such a character. |
| Text.TrimEnd | src/main/java/org/client_server/server/ClientHandler.java:54 | The result is a prefix of the input. Everything dropped is trimmable. The result does not end with such a character. |
| Text.Trim | src/main/java/org/client_server/server/ClientHandler.java:54 | The trimmed action text is no longer than the input and has no trimmable character at either end. |
| Text.TrimContents | src/main/java/org/client_server/server/ClientHandler.java:54 | What `trim` keeps is a slice of the input with only trimmable characters before and after it. Together with Trim's ends, it is exactly the input without its leading and trailing runs of code points up to U+0020. |
| Text.TrimEmpty | src/main/java/org/client_server/server/ClientHandler.java:54 | Trimming leaves nothing if and only if every character is trimmable. |
| Text.ToUpperAppend | src/main/java/org/client_server/server/ClientHandler.java:54 | Upper-casing distributes over concatenation. |
| Text.ToUpperKeepsTrimmable | src/main/java/org/client_server/server/ClientHandler.java:54 | Upper-casing leaves padding characters (up to U+0020) unchanged. |
| Text.ToUpperOfCaseVariant | src/main/java/org/client_server/server/ClientHandler.java:54 | Any mix of upper and lower case of an upper-case ASCII name upper-cases to that name. |
| Text.TrimPadded | src/main/java/org/client_server/server/ClientHandler.java:54 | Trimming removes padding on both sides of a word that neither starts nor ends with a trimmable character. |
| Text.IsBlank | src/main/java/org/client_server/server/ClientHandler.java:108 | `isBlank` is false exactly when some character is not whitespace. |
| Text.ToUpper | src/main/java/org/client_server/server/ClientHandler.java:54 | Upper-casing never shortens a text. |
| Text.ToUpperPerChar | src/main/java/org/client_server/server/ClientHandler.java:54 | When every character upper-cases to one character, the upper case has the same length and holds each character's upper case at its position. |
| Text.NatText | src/main/java/org/client_server/server/ClientHandler.java:132 | The decimal text of a natural number is a non-empty run of digits without a leading zero, and the digits spell that number. |
| Text.DecimalText | src/main/java/org/client_server/server/ClientHandler.java:132 | `Long.toString`: the digits spell the number's magnitude, without a leading zero, preceded by a minus sign exactly when the number is negative. |
| Dates.ParseIsoDate | src/main/java/org/client_server/server/ClientHandler.java:268 | Every date `LocalDate.parse` accepts is a real calendar date (strict resolver), and it prints back as exactly the parsed text. |
| Dates.FormatShape | src/main/java/org/client_server/server/ClientHandler.java:268 | A four-digit-year date prints as `DDDD-DD-DD`, with digit pairs spelling the century, the year in the century, the month and the day. |
| Dates.ParseFormat | src/main/java/org/client_server/server/ClientHandler.java:268 | Parsing the printed form of a four-digit-year calendar date gives that date back. |
| Dates.ParseIsoDateExact | src/main/java/org/client_server/server/ClientHandler.java:265-271 | A dob text parses to a date if and only if it is that date's ISO form. |
| Dates.FormatIsoDate | src/main/java/org/client_server/server/ClientHandler.java:152 | A date prints with dashes at positions 4 and 7 when its year has at most four digits. A negative year starts with a minus sign and a year above 9999 with a plus sign. |
| Payload.Normalize | src/main/java/org/client_server/server/ClientHandler.java:256-293 | The payload mapping. The id is the builder's 0. Name and major are the `asText(null)` texts. The gpa is either in [0, 4] or the -1 sentinel, and an in-range `asDouble(-1)` value is kept; that includes a boolean, read as 1 or 0. A dob is present only when the dob text is the ISO form of a calendar date. A sex is present exactly when the upper-cased sex text names it. |
| Payload.NormalizeDob | src/main/java/org/client_server/server/ClientHandler.java:265-271 | The mapped dob is a date d if and only if the dob text is d's ISO form; an unparseable text gives null. |
| Payload.FirstInsertError | src/main/java/org/client_server/server/ClientHandler.java:108-127 | Each INSERT error code, in both directions, exactly when the earlier checks pass and its own check fails: name non-blank, then dob present, then gpa not -1, then sex present, then major non-blank. Only those five codes occur. |
| StudentModel.NotBlankReadingsAgree | src/main/java/org/client_server/model/Student.java:19-20 | `@NotBlank` read as `isBlank` and read as Hibernate Validator's `trim` test agree on every text whose whitespace characters are exactly its code points up to U+0020. |
| StudentModel.NotBlankReadingsDiffer | src/main/java/org/client_server/model/Student.java:19-20 | The two readings differ on U+0001 (not whitespace, but trimmed) and on U+2003 (whitespace, but not trimmed). |
| StudentModel.OneCharReadings | src/main/java/org/client_server/model/Student.java:33-34 | On a one-character text the `isBlank` reading tests for whitespace and the `trim` reading for a code point up to U+0020. |
| StudentModel.Valid | src/main/java/org/client_server/model/Student.java:19-34 | A record meeting the constraint annotations has a name, a dob, a sex and a major, and a gpa in [0, 4]. |
| Payload.InsertChecksAreStudentConstraints | src/main/java/org/client_server/model/Student.java:17-34 | A mapped payload passes every INSERT check if and only if it satisfies every constraint annotation of Student.java. |
| Payload.IdCheck | src/main/java/org/client_server/server/ClientHandler.java:296-297 | The id check passes exactly for a number node above -1 or a boolean node (read as 1 or 0). A missing id, null, text, array or object fails, and 0 passes. |
| Payload.Merge | src/main/java/org/client_server/server/ClientHandler.java:189-203 | The UPDATE merge, field by field. A field takes the payload's value only when it is usable: non-blank name or major, present dob or sex, gpa not -1. Every other field, and the id, stays as stored. |
| Payload.MergeKeepsValid | src/main/java/org/client_server/server/ClientHandler.java:189-203 | Merging any payload into a valid record gives a valid record. |
| Payload.MergeOfNothing | src/main/java/org/client_server/server/ClientHandler.java:189-203 | A payload with no usable field leaves the record unchanged. |
| Payload.MergeIdempotent | src/main/java/org/client_server/server/ClientHandler.java:189-203 | Applying the same payload twice gives the same result as applying it once. |
| Payload.MergeOfComplete | src/main/java/org/client_server/server/ClientHandler.java:189-203 | A payload that is a whole valid record replaces every field except the id. |
| Payload.PayloadGiven | src/main/java/org/client_server/server/ClientHandler.java:248 | A payload counts as given only when it is present. A scalar payload counts as missing, because `isEmpty` holds for it. An object or array counts exactly when it is non-empty. |
| Store.FindById | src/main/java/org/client_server/server/StudentRepository.java:110-127 | `findById` fails exactly when the store throws, with the store's message. Otherwise it returns the row exactly when the id is stored. |
| Store.RowsOf | src/main/java/org/client_server/server/StudentRepository.java:49-65 | When every id in the scan order is stored, the scan returns one row per id, in that order. |
| Store.FindAll | src/main/java/org/client_server/server/StudentRepository.java:49-65 | `findAll` fails exactly when the store throws, with its message, and otherwise returns the scan. |
| Store.ScanListsEveryRow | src/main/java/org/client_server/server/StudentRepository.java:49-65 | On a well-formed table the scan has as many rows as the table, and row i is the one with the i-th id. |
| Store.DistinctCardinality | src/main/java/org/client_server/server/StudentRepository.java:49-65 | A scan order without repeats is as long as the set of its ids. |
| Store.Insert | src/main/java/org/client_server/server/StudentRepository.java:18-46 | `insert` fails exactly when the store throws. Whenever the write executes, the record is committed under the next id, which is appended to the scan order, and the counter moves past it; this includes a write followed by an exception. A write with all the steps healthy returns that id, which is fresh in a well-formed table. It returns -1 when no row is affected (table unchanged) and when the row is written without a key (row stored). |
| Store.Update | src/main/java/org/client_server/server/StudentRepository.java:67-89 | `update` fails exactly when the store throws. A row is replaced exactly when the write executes and the record's id is stored, and then only that row. Without an exception it returns true exactly in that case. |
| Store.Remove | src/main/java/org/client_server/server/StudentRepository.java:91-108 | Taking an id out of the scan order keeps exactly the other ids, and leaves an order without that id unchanged. |
| Store.RemoveAppend | src/main/java/org/client_server/server/StudentRepository.java:91-108 | Removal distributes over concatenation, so the ids that remain keep their relative order. |
| Store.RemoveKeepsDistinct | src/main/java/org/client_server/server/StudentRepository.java:91-108 | Removing an id from a repeat-free scan order leaves it repeat-free. |
| Store.Delete | src/main/java/org/client_server/server/StudentRepository.java:91-108 | `delete` fails exactly when the store throws. The row is removed exactly when the write executes and the id is stored; then that id leaves the scan order, the other ids keep their order and the counter is unchanged. Without an exception it returns true exactly in that case; otherwise the table is unchanged. |
| Store.InsertKeepsWf | src/main/java/org/client_server/server/StudentRepository.java:18-46 | Inserting a persistable record keeps the table's invariant, however the call goes. The invariant keeps every stored id below the counter, so the id a new row takes is not currently stored. |
| Store.UpdateKeepsWf | src/main/java/org/client_server/server/StudentRepository.java:67-89 | Updating with a persistable record keeps the invariant, however the call goes. |
| Store.DeleteKeepsWf | src/main/java/org/client_server/server/StudentRepository.java:91-108 | Deleting keeps the invariant, however the call goes. |
| Store.DeleteShrinks | src/main/java/org/client_server/server/StudentRepository.java:91-108 | A delete that removes a row, whether it then returns true or throws, leaves one row fewer. |
| Protocol.ActionNamed | src/main/java/org/client_server/server/ClientHandler.java:54-75 | A switch key selects an action if and only if it is exactly that action's name. |
| Protocol.ActionIgnoresCaseAndPadding | src/main/java/org/client_server/server/ClientHandler.java:52-54 | Any case mix of an action name, with any padding up to U+0020 on either side, selects that action ("insert", " List "). |
| Protocol.ActionText | src/main/java/org/client_server/server/ClientHandler.java:52 | The action text is empty when the request has no `action` member, and it is the string of a text node. |
| Protocol.ActionOf | src/main/java/org/client_server/server/ClientHandler.java:54-75 | The switch selects an action exactly when the trimmed upper case of the action text is that action's name. |
| Protocol.NoteText | src/main/java/org/client_server/server/ClientHandler.java:132 | Each OK note reads its pieces in order and nothing more. INSERT: "Student ", the id in decimal, " được insert thành công". UPDATE (lines 206-207): "Student ", "id : ", the id, " và name : ", the name (`null` when absent) and " đã được update". DELETE (line 228): "Student ", "id : ", the id and " đã được xóa". QUIT (line 243): "Client ", the client address and " đã đóng". |
| Protocol.StudentJson | src/main/java/org/client_server/server/ClientHandler.java:152 | The mapper writes a record as an object whose id, name, dob, gpa, sex and major members are the record's fields: the dob in ISO form and the sex as its constant's name, or null when absent. |
| Codes.MessageFor | src/main/java/org/client_server/server/ClientHandler.java:249 | The missing-payload message is the fixed prefix "Payload phải có để yêu cầu " followed by the action name the code carries. |
| Protocol.Encode | src/main/java/org/client_server/server/ClientHandler.java:313-330 | Every response is an object with a status. The status is ERROR exactly for errors and OK otherwise. An error carries its code text and its message. An OK note carries the note text as its message. A FIND reply carries the record's JSON as `data`, and a LIST reply carries an array of the same length as the rows, whose item i is the JSON of row i. |
| Protocol.SexNameIsUpper | src/main/java/org/client_server/server/ClientHandler.java:279 | The upper case of an enum name is the name itself. |
| Protocol.RecordRoundTrip | src/main/java/org/client_server/server/ClientHandler.java:152 | A valid record, as the mapper writes it, maps back through the payload mapping to the same record with id 0. |
| Dispatch.LookupStep | src/main/java/org/client_server/server/ClientHandler.java:295-311 | The lookup finds the stored row exactly when the id is at least 0, `findById` does not throw and the id is stored. It answers INVALID_ID exactly for a negative id, whatever the store would do. It answers ID_NOT_EXIST exactly for an absent id, and DB_ERROR with the store's message otherwise. |
| Dispatch.InsertStep | src/main/java/org/client_server/server/ClientHandler.java:103-138 | INSERT answers the first failing check's error and leaves the table unchanged. After the checks pass, the table is the one `insert` leaves. The reply is DB_ERROR with the store's message when it throws, OK with the new id for a healthy store, and OK with -1 when no row was affected or no key came back. |
| Dispatch.FindStep | src/main/java/org/client_server/server/ClientHandler.java:140-161 | FIND returns a record exactly when the lookup hits, and that record is the stored row. On a miss the reply is the lookup's own error. |
| Dispatch.ListStep | src/main/java/org/client_server/server/ClientHandler.java:163-177 | LIST returns the rows in scan order exactly when the store does not throw. Otherwise it answers DB_ERROR with the store's message. |
| Dispatch.UpdateStep | src/main/java/org/client_server/server/ClientHandler.java:179-218 | UPDATE repeats a lookup miss with the table unchanged. After a hit, the merged record replaces its row exactly when the write executes and its id is stored, even if an exception follows. The reply is DB_ERROR with the store's message when `update` throws. Otherwise it is OK, echoing the merged id and name, exactly when the row was replaced, and UPDATE_FAIL otherwise. |
| Dispatch.DeleteStep | src/main/java/org/client_server/server/ClientHandler.java:220-240 | DELETE repeats a lookup miss with the table unchanged. After a hit the table is the one `delete` leaves. The reply is DB_ERROR with the store's message when it throws, DELETE_FAIL with the table unchanged when no row was affected, and otherwise OK with the requested id, which was stored. |
| Dispatch.PayloadOf | src/main/java/org/client_server/server/ClientHandler.java:104-105 | The payload is absent exactly when `validatePayload` fails. It is a non-object exactly when the cast to ObjectNode would throw. Otherwise it is a non-empty object. |
| Dispatch.ActionStep | src/main/java/org/client_server/server/ClientHandler.java:55-69 | The switch sends INSERT to the INSERT step and FIND to the FIND step. UPDATE and DELETE answer a lookup miss with the lookup's reply and the table unchanged, and otherwise do what their steps say. |
| Dispatch.PayloadStep | src/main/java/org/client_server/server/ClientHandler.java:247-253 | A missing or empty payload gets one error coded with the action name, with no store call and the table unchanged. The session aborts exactly when the payload is present but not an object. A non-empty object payload goes to the action's handler: its table and reply become the outcome and the loop continues. A payload action never quits. |
| Dispatch.Respond | src/main/java/org/client_server/server/ClientHandler.java:50-87 | One request, case by case. QUIT, and only QUIT, stops the loop with the goodbye note. An unparsed line or a non-object aborts with SERVER_ERROR and the table unchanged. An unknown action gets one UNKNOWN_ACTION error and the loop goes on. LIST and the payload actions do what their steps say. |
| Dispatch.Session | src/main/java/org/client_server/server/ClientHandler.java:48-89 | A session consumes input events from its start. It reaches the end of input unless it stops early. It writes exactly one reply per line read, and none for a failed read. |
| Dispatch.SessionAfterLine | src/main/java/org/client_server/server/ClientHandler.java:48-89 | After a line is read, the session is that line's outcome followed by the rest of the session, or just that outcome when the loop stops. |
| Handler.SetUsableFields | src/main/java/org/client_server/server/ClientHandler.java:188-203 | The setter sequence on the stored record computes the merge. |
| Handler.ClientHandler.constructor | src/main/java/org/client_server/server/ClientHandler.java:33-36 | A new handler has its client, its store and nothing written. |
| Handler.ClientHandler.Write | src/main/java/org/client_server/server/ClientHandler.java:317-319 | One line is appended to the output and the store is untouched. |
| Handler.ClientHandler.SendSuccess | src/main/java/org/client_server/server/ClientHandler.java:313-320 | One OK line with the note is appended. |
| Handler.ClientHandler.SendError | src/main/java/org/client_server/server/ClientHandler.java:322-330 | One ERROR line with the code and message is appended. |
| Handler.ClientHandler.ValidatePayload | src/main/java/org/client_server/server/ClientHandler.java:247-253 | The result is whether a payload was given. If none was, exactly one error naming the action is written. |
| Handler.ClientHandler.IdStudentExists | src/main/java/org/client_server/server/ClientHandler.java:295-311 | A hit returns the row and writes nothing. A miss returns empty and writes exactly the lookup's one error. |
| Handler.ClientHandler.ReportInvalidField | src/main/java/org/client_server/server/ClientHandler.java:108-127 | The method writes the first failing check's error, if any, and reports whether there was one. |
| Handler.ClientHandler.InsertStudent | src/main/java/org/client_server/server/ClientHandler.java:107-137 | The mapping, checks and insert change the store and the output exactly as `InsertStep` says. |
| Handler.ClientHandler.StoreStudent | src/main/java/org/client_server/server/ClientHandler.java:129-136 | The store becomes the table `insert` leaves, and one reply is written: OK with the returned id, or DB_ERROR with the exception's message. |
| Handler.ClientHandler.HandleInsert | src/main/java/org/client_server/server/ClientHandler.java:103-138 | `handleInsert` throws exactly for a non-object payload, changing nothing. It writes the missing-payload error for an absent payload and otherwise follows `InsertStep`. |
| Handler.ClientHandler.HandleFind | src/main/java/org/client_server/server/ClientHandler.java:140-161 | `handleFind` behaves in the same way, against `FindStep`. |
| Handler.ClientHandler.HandleList | src/main/java/org/client_server/server/ClientHandler.java:163-177 | `handleList` writes exactly `ListStep`'s reply. |
| Handler.ClientHandler.HandleUpdate | src/main/java/org/client_server/server/ClientHandler.java:179-218 | `handleUpdate` behaves in the same way, against `UpdateStep`. |
| Handler.ClientHandler.HandleDelete | src/main/java/org/client_server/server/ClientHandler.java:220-240 | `handleDelete` behaves in the same way, against `DeleteStep`. |
| Handler.ClientHandler.HandleQuit | src/main/java/org/client_server/server/ClientHandler.java:242-245 | `handlQuit` writes the goodbye note naming the client. |
| Handler.ClientHandler.Serve | src/main/java/org/client_server/server/ClientHandler.java:50-87 | One pass of the loop body leaves the store, the output and the loop decision exactly as `Respond` defines them. |
| Handler.ClientHandler.ServeNext | src/main/java/org/client_server/server/ClientHandler.java:48-89 | One read and its handling keep the output a prefix of the session's replies. When the loop stops, the output completes the session. |
| Handler.ClientHandler.Run | src/main/java/org/client_server/server/ClientHandler.java:39-101 | `run` leaves the store and the output exactly as `Session` defines them, and reports how many events were consumed and how the session ended. |
| Properties.LowerCaseActionAccepted | src/main/java/org/client_server/server/ClientHandler.java:54 | "insert" selects INSERT. |
| Properties.EmptyPayloadIsMissing | src/main/java/org/client_server/server/ClientHandler.java:248 | An empty payload object counts as no payload. |
| Properties.NormalizeGpa | src/main/java/org/client_server/server/ClientHandler.java:260-274 | The gpa survives exactly when it lies in [0, 4], both bounds kept, or is already -1. Anything strictly outside becomes -1. A boolean gpa becomes 1 or 0. |
| Properties.NormalizeAbsentFields | src/main/java/org/client_server/server/ClientHandler.java:258-291 | A payload without those fields maps to null texts, null dob and sex, and gpa -1. |
| Properties.InsertOnlyPersistable | src/main/java/org/client_server/server/ClientHandler.java:108-130 | A failed check leaves the table unchanged, whatever the store would do. The table changes only when the write executes and the record meets every constraint. Once the write executes, the same row is stored whatever the reply. |
| Properties.InsertWithoutKeyStillOk | src/main/java/org/client_server/server/ClientHandler.java:129-132 | When `insert` returns -1, INSERT still answers OK with id -1. With no row affected nothing is stored; with the row written but no key, the row is stored as for a healthy insert. |
| Properties.InsertErrorStillStores | src/main/java/org/client_server/server/ClientHandler.java:129-136 | An exception after the write makes INSERT answer DB_ERROR, yet the row is stored as for a healthy insert, and FIND on the id it took returns it. |
| Properties.InsertThenFind | src/main/java/org/client_server/server/ClientHandler.java:129-132 | A successful INSERT reports a fresh positive id. FIND on that id returns the normalised record under it. |
| Properties.LookupNeverTimesOut | src/main/java/org/client_server/server/ClientHandler.java:295-311 | The lookup never answers TIMEOUT. |
| Properties.ActionStepNeverTimesOut | src/main/java/org/client_server/server/ClientHandler.java:103-240 | No payload handler answers TIMEOUT. |
| Properties.RespondNeverTimesOut | src/main/java/org/client_server/server/ClientHandler.java:50-87 | No request is answered with TIMEOUT. |
| Properties.SessionNeverTimesOut | src/main/java/org/client_server/server/ClientHandler.java:77-81 | No session writes TIMEOUT, because the read that times out lies outside the block whose handler would send it. |
| Properties.QuitEndsSession | src/main/java/org/client_server/server/ClientHandler.java:70-72 | A QUIT line gets one OK, and the session ends there with the table unchanged. |
| Properties.MalformedEndsSession | src/main/java/org/client_server/server/ClientHandler.java:76-86 | A line that is not JSON gets one SERVER_ERROR with the parser's message, and the session ends there. |
| Properties.SessionIsLoop | src/main/java/org/client_server/server/ClientHandler.java:48-89 | A session is the read loop run with `Respond` as its body. |
| Properties.LoopShape | src/main/java/org/client_server/server/ClientHandler.java:48-89 | Whatever the body does, the loop stops within the input. Every consumed event but the last is a read line, and the loop ends on a failed read exactly when the last event is one. |
| Properties.LoopLastReply | src/main/java/org/client_server/server/ClientHandler.java:48-89 | When every stopping body answers as given, so does the loop's last reply. |
| Properties.RespondStops | src/main/java/org/client_server/server/ClientHandler.java:70-86 | A request that stops the loop answers with the goodbye note (QUIT) or SERVER_ERROR (abort). |
| Properties.SessionShape | src/main/java/org/client_server/server/ClientHandler.java:48-89 | Every event a session consumed before its last was a line it answered. A session ends on a failed read exactly when its last event is one. |
| Properties.SessionLastReply | src/main/java/org/client_server/server/ClientHandler.java:70-86 | A session ended by QUIT last wrote the goodbye note. One ended by an exception last wrote SERVER_ERROR. |
| Properties.InsertStepKeepsWf | src/main/java/org/client_server/server/ClientHandler.java:103-138 | INSERT keeps the table's invariant. |
| Properties.UpdateStepKeepsWf | src/main/java/org/client_server/server/ClientHandler.java:179-218 | UPDATE keeps the invariant: the merge of a stored record stays persistable and keeps its id. |
| Properties.DeleteStepKeepsWf | src/main/java/org/client_server/server/ClientHandler.java:220-240 | DELETE keeps the invariant. |
| Properties.ActionStepKeepsWf | src/main/java/org/client_server/server/ClientHandler.java:103-240 | Every payload handler keeps the invariant. |
| Properties.RespondKeepsWf | src/main/java/org/client_server/server/ClientHandler.java:50-87 | Every request keeps the invariant. |
| Properties.SessionKeepsWf | src/main/java/org/client_server/server/ClientHandler.java:48-89 | A whole session keeps the invariant, however it ends. |
| Properties.FindAfterDelete | src/main/java/org/client_server/server/ClientHandler.java:225-228 | After a successful DELETE, FIND on the same id answers ID_NOT_EXIST. |
| Properties.FindAfterUpdate | src/main/java/org/client_server/server/ClientHandler.java:205-207 | After a successful UPDATE, FIND on the same id returns the merged record. |
| Properties.ListReturnsEveryRow | src/main/java/org/client_server/server/ClientHandler.java:163-172 | LIST returns every stored row once, in scan order. |
| Properties.ListAfterInsert | src/main/java/org/client_server/server/ClientHandler.java:129-132 | After a successful INSERT, LIST returns the previous rows followed by the new record. |
| Properties.BadIdNeverReachesStore | src/main/java/org/client_server/server/ClientHandler.java:296-300 | FIND, UPDATE and DELETE with a negative id answer INVALID_ID and leave the table unchanged, whatever the store would have done. |

## Left out

- Jackson's text parsing and serialisation are not modelled. A line arrives either decoded or as `Malformed` with the
  exception's message. The message of the cast failure on a non-object (`ClassCastException`) is a fixed placeholder
  text.
- `asText` on a number node yields Jackson's rendering of the number. The model treats a number as carrying no text,
  so a numeric name, major, dob or sex maps to null.
- `asDouble` and `asLong` on a textual number parse the text. The model reads number nodes and boolean nodes (1 or 0)
  and uses the default for text, null, a missing node and containers.
- Json.Truncate: does not model the 64-bit range of `long` or its saturation for huge doubles, because ids are
  unbounded integers here.
- Ids and the auto-increment counter are unbounded; the 64-bit `long` range is not modelled.
- gpa is a `real`. NaN, infinities and double rounding are not modelled, and only the [0, 4] check and the -1 sentinel
  matter.
- Dates.ParseIsoDate: accepts only the four-digit year form `YYYY-MM-DD`. The signed and more-than-four-digit years
  that `LocalDate.parse` also takes are rejected.
- Text.UpperOf: maps only the characters whose upper case is plain ASCII and keeps every other character. Other Unicode
  case mappings and locale-specific rules, such as the Turkish dotted i, are not modelled. This can only change the
  outcome of an action match or of a sex match.
- `src/main/java/org/client_server/model/Sex.java` is not part of this model. The enum's three constants are taken
  from the client code: the switch in StudentFormController.java:57-59 and the prompt in ClientConsole.java:134. The
  handler only calls `Sex.valueOf` (ClientHandler.java:279). ServerProgramTest.java:118 and :271 send "male", which
  upper-cases to MALE, and StudentRepositoryTest.java:23 uses `Sex.FEMALE`.
- Payload.InsertChecksAreStudentConstraints: reads Student.java's `@NotBlank` as `String.isBlank`, the same test the
  handler makes, so this equivalence holds by the choice of reading. Hibernate Validator's own check is
  `trim().length() > 0`, modelled as `StudentModel.HasVisibleText`. `NotBlankReadingsAgree` and
  `NotBlankReadingsDiffer` show where the two readings agree and two texts on which they differ. Bean Validation is
  never invoked by the handler, so nothing in the model depends on the second reading.
- StudentRepository's SQL, its connection handling and DBConnector are replaced by the in-memory table in `Store`.
  How each store call goes is an input, one pair per request. An exception that comes before the write
  (`Throws`) and one that comes after it (`ThrowsAfterWrite`) are told apart, but not by which step raised them.
- Each session has its own table. In the source every handler thread uses the same database, so another connection
  can change rows between two requests of one session. The model does not capture such writes, and FindAfterDelete,
  FindAfterUpdate, InsertThenFind, InsertErrorStillStores and ListAfterInsert assume that no other connection wrote to
  the table in between. A row that another connection removes during an UPDATE or DELETE is the `NoRowAffected` input.
- The log messages and thread naming are not modelled; the handler logs nothing observable.
- Write failures on the socket's output stream are not modelled.
- Closing the socket and the `finally` block are not modelled.
- I/O errors other than a failed read are not modelled. A failed or timed-out read is the `ReadFailed` input event.
- The server's accept loop, thread pool and socket timeout (ServerProgram) are not modelled; each session is
  sequential.
- The client side is not part of this model: the console, the GUI, and ClientService.
