# Player update tool — a Dafny model

The tool reads a CSV file of music players and pushes one update to every
player. Each data row of the file starts with a player's MAC address. The
header names the columns, and every column whose name contains `app` is an
application, with its target version in that column of the first data row.
The tool builds one JSON body from those versions. It then sends
`PUT {serverUrl}/profiles/clientId:{mac}` once per player, with headers
carrying the player's id and an authentication token. Finally, it logs
what each response says.

The model follows `src/tool/player_update.py`:

| module | file | models |
|---|---|---|
| `Wrappers` | `wrappers.dfy` | `Option` / `Result` |
| `Text` | `text.dfy` | Python's `"app" in colName` substring test |
| `OrderedDict` | `ordered_dict.dfy` | a `dict[str, str]` with insertion order, as a sequence of pairs |
| `InputReader` | `input_reader.dfy` | `parseMacAddresses`, `parseVersions` |
| `Payload` | `payload.dfy` | the `applicationList` / `body` construction in `updateAllPlayers` |
| `PlayerUpdater` | `player_updater.dfy` | `updatePlayer` (URL, headers, body) and the per-response branch of the loop |
| `BatchDriver` | `batch_driver.dfy` | `updateAllPlayers`: parse, build one body, one send per address, in order |
| `Scenarios` | `scenarios.dfy` | concrete cases: three mirror `src/test/player_update_test.py`, the rest use an example table |

How the model stands in for the parts it does not run:

- **The input file** is either `Missing` or `Present(rows)`. The rows are
  what `csv.reader` yields, header first. A blank line is an empty row.
- **Python exceptions** that escape are `ReadError` values:
  - `FileNotFound` for a missing file.
  - `StopIteration` when `next(reader)` runs past the end.
  - `IndexError` when a cell is read past the end of its row.
- **`requests.put`** is a function `put: Request -> Outcome`.
  - The outcome `NoResponse` stands for the `None` that `updatePlayer`
    returns after a `RequestException`.
  - The outcome `Status(code, contentType, json)` stands for a response.
- **The token** that `generateToken` returns is a parameter of the run.
- **The batch loop's treatment of one response** is a `Handling` value:
  - skipped;
  - status logged;
  - `error`/`message` logged;
  - or crashed, when reading the details raises. That happens when the body
    is not JSON, is JSON but not an object, or lacks a key. A crash ends the
    run: the exception escapes `updateAllPlayers`.

The model keeps these behaviours of the code exactly as written:

- The URL is plain concatenation with no normalisation. A server URL ending in
  `/`, like the tests' `testServerUrl`, gives `//profiles` (`TrailingSlashDoubled`).
- The request's Content-Type is the literal `applicatino/json`.
- Responses are only told apart the way the loop does it:
  - no response;
  - status 200;
  - non-200 with Content-Type exactly `application/json`;
  - any other non-200.
- On the error-log path, a body that does not parse, is not a JSON object, or
  lacks `error` or `message` raises and stops the batch.

## Model

| member | source | states |
|---|---|---|
| InputReader.FirstCells | src/tool/player_update.py:42 | the comprehension succeeds iff every row is non-empty, otherwise raises IndexError; on success, element i is the first cell of row i, one per row |
| InputReader.ParseMacAddresses | src/tool/player_update.py:32-46 | missing file raises FileNotFound; empty file raises StopIteration; otherwise the header is skipped and the ids are column 0 of every data row in file order, duplicates kept, one per data row; a blank data row raises IndexError |
| InputReader.SelectColumns | src/tool/player_update.py:61 | every selected pair is (index, name) of a header column whose name contains "app", in increasing column order |
| InputReader.SelectColumnsComplete | src/tool/player_update.py:61 | no header column whose name contains "app" is left out of the selection |
| InputReader.AssignVersions | src/tool/player_update.py:63-65 | the dictionary the loop builds has at most one entry per selected column |
| InputReader.AssignVersionsSucceeds | src/tool/player_update.py:62-65 | the assignment loop succeeds iff every selected column lies within the first data row |
| InputReader.AssignVersionsError | src/tool/player_update.py:64-65 | the only exception the loop raises is IndexError |
| InputReader.ParseVersions | src/tool/player_update.py:48-70 | missing file raises FileNotFound; fewer than two rows raises StopIteration; otherwise success iff every "app" column exists in the first data row, and failure is IndexError |
| InputReader.ParseVersionsContents | src/tool/player_update.py:58-66 | the result's keys are unique and are exactly the header names containing "app", in order of first appearance; each value is the first data row's cell under the last column of that name (a repeated name keeps its first place, the later value wins) |
| InputReader.AssignVersionsFrame | src/tool/player_update.py:62-65 | the loop reads only the cells of the row at the selected indices: rows agreeing there give the same dictionary or the same error |
| InputReader.ParseVersionsFrame | src/tool/player_update.py:56-66 | rows after the first data row, and the first data row's cells outside the "app" columns, never affect the version map |
| Text.Contains | src/tool/player_update.py:61 | the substring scan answers true exactly when the pattern occurs at some position of the string (so the empty pattern is always found) |
| Text.IsAppColumnMeaning | src/tool/player_update.py:61 | a column is an application column iff "app" occurs in its name at some position |
| OrderedDict.Get | src/tool/player_update.py:63-65 | lookup yields nothing exactly for keys absent from the dictionary |
| OrderedDict.GetStored | src/tool/player_update.py:63-65 | with unique keys, the entry stored at each position is what lookup of its key yields |
| OrderedDict.Put | src/tool/player_update.py:65 | after `d[k] = v` the pair (k, v) is stored; the dictionary grows by at most one entry; every entry with another key stays at its position unchanged |
| OrderedDict.PutSemantics | src/tool/player_update.py:65 | `d[k] = v` makes k map to v and leaves every other key's value alone; an existing key keeps its position, a new key is appended at the end |
| OrderedDict.PutKeepsUnique | src/tool/player_update.py:65 | assignment never introduces a duplicate key |
| Payload.Applications | src/tool/player_update.py:106-111 | `applicationList` has one record per dictionary entry: record i is {applicationId: key i, version: value i} |
| Payload.BuildBody | src/tool/player_update.py:106-118 | the body's `profile.applications` has one record per version entry, in the dictionary's order, each carrying that entry's key and value |
| Payload.BodyRoundTrip | src/tool/player_update.py:106-118 | the body holds one {applicationId, version} record per dictionary entry, in the dictionary's order: reading the records back yields the dictionary unchanged |
| Payload.BodyFromVersions | src/tool/player_update.py:106-118 | every body of this shape is the one built from its own records, so building is onto as well as one-to-one |
| Payload.BuildBodyInjective | src/tool/player_update.py:106-118 | two version maps give the same body iff they are equal; the applications list is empty iff the map is empty |
| Payload.BodyLookup | src/tool/player_update.py:107-111 | for a dictionary with unique keys, no application id repeats in the body, application k appears iff the dictionary has k, and its record carries k's version |
| PlayerUpdater.ProfileUrl | src/tool/player_update.py:83 | the URL is the server URL, then "/profiles/clientId:", then the address, verbatim |
| PlayerUpdater.ProfileUrlRoundTrip | src/tool/player_update.py:83 | the address can be read back out of its URL, and only the URL built from an address reads back as that address |
| PlayerUpdater.ProfileUrlInjective | src/tool/player_update.py:83 | two addresses never share a URL under the same server |
| PlayerUpdater.TrailingSlashDoubled | src/tool/player_update.py:83 | a server URL ending in '/' yields "//" before "profiles" (no normalisation) |
| PlayerUpdater.RequestHeaders | src/tool/player_update.py:78-82 | exactly three headers are sent, Content-Type, x-client-id and x-authentication-token, in that order and each once; the Content-Type is the declared literal, x-client-id is the address, and x-authentication-token is the token |
| PlayerUpdater.MakeRequest | src/tool/player_update.py:73-86 | the request goes to the player's own URL, carries exactly the three request headers built for that address and token, and its body is the payload unchanged |
| PlayerUpdater.Handle | src/tool/player_update.py:120-130 | a missing response is only skipped; the status code is kept; the error body is read exactly when the status is not 200 and the Content-Type is application/json; the details are logged exactly when that body is an object with both "error" and "message", and they are those fields' values; otherwise reading raises JSONDecodeError for a body that is not JSON, TypeError for JSON that is not an object, and KeyError naming the first of "error", "message" that is missing |
| BatchDriver.Dispatch | src/tool/player_update.py:120-130 | one pass of the loop body: the request is exactly `updatePlayer`'s request for that address, token, body and server, so it goes to the player's URL with its id, the given token and the body; the outcome is the response to exactly that request, and the handling is the loop's branch for that outcome |
| BatchDriver.RunBatch | src/tool/player_update.py:120-130 | attempt i is the send for address i, in order, never more attempts than addresses; the run stops early iff the last attempt crashed and no earlier one did; when no send crashes, every address is attempted |
| BatchDriver.DispatchAll | src/tool/player_update.py:120-130 | the loop over the addresses returns exactly the batch of the functional definition, leaving at the first crash |
| BatchDriver.RunBatchAbortedStays | src/tool/player_update.py:120-130 | once a prefix of the addresses has crashed the run, later addresses change nothing |
| BatchDriver.RunBatchAppend | src/tool/player_update.py:120-130 | addresses are handled independently: when a first part runs to its end, the whole run is the first part's attempts followed by the rest's |
| BatchDriver.UpdateAllPlayers | src/tool/player_update.py:95-130 | the run proceeds iff both parsers succeed; otherwise the address parser's error escapes if it failed, and the version parser's error if only it failed (FileNotFound for a missing file, StopIteration for fewer than two rows); it then sends to the parsed addresses, in order, one body built once from the versions and one token |
| BatchDriver.SentRequest | src/tool/player_update.py:120-121 | each send targets the player's URL with its id and the run's token and body, and its handling is that of the response put returns for exactly that request |
| BatchDriver.RunRequests | src/tool/player_update.py:100-121 | attempt i of a run goes to the address in column 0 of data row i+1, with the run's one token and the body built from the first data row's versions |
| BatchDriver.TransportFailuresSkipped | src/tool/player_update.py:120-124 | when no request gets a response, every address is still attempted and each is skipped |
| Scenarios.ExpectedPayloadBuilt | src/test/player_update_test.py:33-42 | the test versions build exactly the expected payload |
| Scenarios.TwoPlayersAllOk | src/test/player_update_test.py:184-201 | with two addresses and every PUT answered 200: two sends, the last to the second address with the expected payload and the token, both only status-logged |
| Scenarios.TestHeaderColumns | src/tool/player_update.py:61 | in the example header mac_addresses, id1, id2, id3, music_app, diagnostic_app, settings_app, only the last three columns are application columns |
| Scenarios.TestFileParsed | src/tool/player_update.py:32-66 | the example table with two data rows parses to the two addresses and the three versions in header order |
| Scenarios.HeaderOnlyFile | src/tool/player_update.py:38-66 | a file holding only its header gives no addresses, but the version parser raises StopIteration, so the run sends nothing |
| Scenarios.MissingFile | src/test/player_update_test.py:73-83 | a missing file makes both parsers, and so the run, raise FileNotFound |

## Left out

- File access: the path is resolved against the script's directory with `os.path.join`, and the file is opened. The model starts from the file's presence and its rows.
- CSV tokenisation: quoting, the `newline=''` dialect and encodings belong to the `csv` module. The model starts from the rows it yields.
- Logging: the model records which branch the loop takes, but not the log text or levels.
- `requests.put` and the network: JSON serialisation of the body, timeouts, and which exceptions count as `RequestException` are outside the model. The call is a function parameter.
- Exceptions other than `RequestException` raised by `requests.put` are not modelled; they would end the run.
- `generateToken`: it returns a fixed string. The model takes the token as a parameter and states only that one token is used for the whole run.
- `main` and `sys.argv` handling, the hard-coded `CSV_FILE_NAME` and `SERVER_URL`, and `src/setup.py` are not part of this model. `SERVER_URL` is an unused placeholder: `main` exits without an argument and passes `sys.argv[1]` as the server URL.
- PlayerUpdater.Handle: JSON values inside an object are modelled as strings only. An `error` or `message` that is not a string is still formatted by the f-string, and the model does not distinguish it. A body that is JSON but not an object is modelled: it raises TypeError.
- BatchDriver.Dispatch: `put` is a function of the request, so within one run a request always gets the same outcome. An address listed twice therefore gets the same response both times. The real server and network could answer the two differently, for example a timeout and then a 200.
- PlayerUpdater.RequestHeaders: the header value `applicatino/json` is kept as written. No property says the server accepts it.
- Scenarios.TestFileParsed: the repository's `input_file.csv` is not part of this model. The table used is an example of the same shape.
- The unit tests that read `input_file.csv` are not mirrored. They expect four addresses and the version key `diagnositc_app`, spelled that way (player_update_test.py:59 and :69). Both depend on that file's contents.
- Only `ExpectedPayloadBuilt`, `TwoPlayersAllOk` and `MissingFile` mirror unit tests. The tests that check `updatePlayer` returns the mocked 200/401/404/409/500 response (player_update_test.py:85-177) amount to `put`'s result being passed through unchanged, which `Dispatch` states.
