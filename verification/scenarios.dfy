/** Concrete cases stated over the model. `ExpectedPayloadBuilt`,
    `TwoPlayersAllOk` and `MissingFile` mirror cases of the repository's unit
    tests; the rest work through a small example table (an address column,
    three id columns, three application columns) and a header-only file. */
module Scenarios {
  import opened Wrappers
  import opened Text
  import opened OrderedDict
  import opened InputReader
  import opened Payload
  import opened PlayerUpdater
  import opened BatchDriver

  const Mac1: string := "a1:bb:cc:dd:ee:ff"
  const Mac2: string := "a2:bb:cc:dd:ee:ff"
  const TestServerUrl: string := "https://temporaryurl.com/"
  const TestToken: string := "temporary_token"

  /** The version map the tests hand to the driver. */
  const TestVersions: VersionMap :=
    [("music_app", "v1.4.10"), ("diagnostic_app", "v1.2.6"), ("settings_app", "v1.1.5")]

  /** The body the tests expect for those versions. */
  const ExpectedPayload: Body :=
    Body(Profile([
      Application("music_app", "v1.4.10"),
      Application("diagnostic_app", "v1.2.6"),
      Application("settings_app", "v1.1.5")]))

  /** The body built from the test versions is the expected one. */
  lemma ExpectedPayloadBuilt()
    ensures BuildBody(TestVersions) == ExpectedPayload
  {
    BodyRoundTrip(TestVersions);
  }

  /** Two addresses, every PUT answered 200: two sends, none skipped or
      aborted, the last one for the second address with the expected body and
      the run's token. */
  lemma TwoPlayersAllOk(put: Request -> Outcome)
    requires forall r :: put(r) == Status(200, None, Unparseable)
    ensures var b := RunBatch([Mac1, Mac2], Sender(BuildBody(TestVersions), TestToken, TestServerUrl, put));
      && |b.attempts| == 2
      && !b.aborted
      && b.attempts[1].request == MakeRequest(Mac2, ExpectedPayload, TestToken, TestServerUrl)
      && b.attempts[0].handling == StatusLogged(200) && b.attempts[1].handling == StatusLogged(200)
  {
    ExpectedPayloadBuilt();
    var send := Sender(ExpectedPayload, TestToken, TestServerUrl, put);
    SentRequest(ExpectedPayload, TestToken, TestServerUrl, put, Mac1);
    SentRequest(ExpectedPayload, TestToken, TestServerUrl, put, Mac2);
    assert send(Mac2) == Dispatch(Mac2, ExpectedPayload, TestToken, TestServerUrl, put);
  }

  /** An example input table: a header and two players. */
  const TestRows: seq<Row> := [
    ["mac_addresses", "id1", "id2", "id3", "music_app", "diagnostic_app", "settings_app"],
    [Mac1, "1", "2", "3", "v1.4.10", "v1.2.6", "v1.1.5"],
    [Mac2, "1", "2", "3", "v1.4.10", "v1.2.6", "v1.1.5"]]

  /** Which of the example header's columns are application columns. */
  lemma TestHeaderColumns()
    ensures forall j :: 0 <= j < 4 ==> !IsAppColumn(TestRows[0][j])
    ensures forall j :: 4 <= j < 7 ==> IsAppColumn(TestRows[0][j])
  {
    LeadingColumnsPlain();
    TrailingColumnsApp();
  }

  /** The last three columns of the example header each contain "app". */
  lemma TrailingColumnsApp()
    ensures forall j :: 4 <= j < 7 ==> IsAppColumn(TestRows[0][j])
  {
    forall j | 4 <= j < 7
      ensures IsAppColumn(TestRows[0][j])
    {
      var at := if j == 4 then 6 else if j == 5 then 11 else 9;
      AppAt(TestRows[0][j], at);
    }
  }

  /** The address and id columns of the example header lack the letter 'p'. */
  lemma LeadingColumnsPlain()
    ensures forall j :: 0 <= j < 4 ==> !IsAppColumn(TestRows[0][j])
  {
    forall j | 0 <= j < 4
      ensures !IsAppColumn(TestRows[0][j])
    {
      NoP(TestRows[0][j]);
    }
  }

  /** A name without the letter 'p' is not an application column. */
  lemma NoP(name: string)
    requires forall i :: 0 <= i < |name| ==> name[i] != 'p'
    ensures !IsAppColumn(name)
  {
    MissingCharNotContained(name, AppMarker, 1);
  }

  /** Four leading columns without "app" select nothing. */
  lemma FirstFourSkipped(h: Row)
    requires |h| >= 4
    requires forall j :: 0 <= j < 4 ==> !IsAppColumn(h[j])
    ensures SelectColumns(h[..4]) == []
  {
    assert h[..0] == [];
    assert h[..1] == h[..0] + [h[0]];
    SelectColumnsAppend(h[..0], h[0]);
    assert SelectColumns(h[..1]) == [];
    assert h[..2] == h[..1] + [h[1]];
    SelectColumnsAppend(h[..1], h[1]);
    assert SelectColumns(h[..2]) == [];
    assert h[..3] == h[..2] + [h[2]];
    SelectColumnsAppend(h[..2], h[2]);
    assert SelectColumns(h[..3]) == [];
    assert h[..4] == h[..3] + [h[3]];
    SelectColumnsAppend(h[..3], h[3]);
  }

  /** A seven-column header whose last three columns are the application
      columns selects exactly those, in order. */
  lemma LastThreeSelected(h: Row)
    requires |h| == 7
    requires forall j :: 0 <= j < 4 ==> !IsAppColumn(h[j])
    requires forall j :: 4 <= j < 7 ==> IsAppColumn(h[j])
    ensures SelectColumns(h) == [(4, h[4]), (5, h[5]), (6, h[6])]
  {
    FirstFourSkipped(h);
    SelectStep(h, 4, []);
    SelectStep(h, 5, [(4, h[4])]);
    SelectStep(h, 6, [(4, h[4]), (5, h[5])]);
    assert [(4, h[4]), (5, h[5])] + [(6, h[6])] == [(4, h[4]), (5, h[5]), (6, h[6])];
    assert h[..7] == h;
  }

  lemma SelectStep(h: Row, k: nat, prev: seq<(nat, string)>)
    requires k < |h| && IsAppColumn(h[k])
    requires SelectColumns(h[..k]) == prev
    ensures SelectColumns(h[..k + 1]) == prev + [(k, h[k])]
  {
    assert h[..k + 1] == h[..k] + [h[k]];
    SelectColumnsAppend(h[..k], h[k]);
  }

  lemma TwoFirstCells(r1: Row, r2: Row)
    requires |r1| > 0 && |r2| > 0
    ensures FirstCells([r1, r2]) == Success([r1[0], r2[0]])
  {
    assert FirstCells([]) == Success([]);
    assert [r2][1..] == [];
    assert FirstCells([r2][1..]) == Success([]);
    assert [r2][0] == r2;
    assert FirstCells([r2]).Success?;
    assert FirstCells([r2]).value == [r2[0]];
    assert [r1, r2][1..] == [r2];
    assert FirstCells([r1, r2]).Success?;
    assert FirstCells([r1, r2]).value == [r1[0]] + [r2[0]] == [r1[0], r2[0]];
  }

  /** Three distinct names, each read from a cell the row has. */
  lemma ThreeAssigned(cols: seq<(nat, string)>, row: Row)
    requires |cols| == 3
    requires forall p :: 0 <= p < 3 ==> cols[p].0 < |row|
    requires cols[0].1 != cols[1].1 && cols[0].1 != cols[2].1 && cols[1].1 != cols[2].1
    ensures AssignVersions(cols, row) ==
      Success([(cols[0].1, row[cols[0].0]), (cols[1].1, row[cols[1].0]), (cols[2].1, row[cols[2].0])])
  {
    assert cols[..1] == [] + [cols[0]];
    assert cols[..2] == cols[..1] + [cols[1]];
    assert cols == cols[..2] + [cols[2]];
    var e0, e1, e2 := (cols[0].1, row[cols[0].0]), (cols[1].1, row[cols[1].0]), (cols[2].1, row[cols[2].0]);
    AssignVersionsStep([], cols[0], row);
    assert AssignVersions(cols[..1], row) == Success([e0]);
    AssignVersionsStep(cols[..1], cols[1], row);
    assert [e0][1..] == [];
    assert Put([e0], e1.0, e1.1) == [e0] + Put([], e1.0, e1.1);
    assert Put([], e1.0, e1.1) == [e1];
    assert Put([e0], e1.0, e1.1) == [e0, e1];
    assert AssignVersions(cols[..1] + [cols[1]], row) == Success([e0, e1]);
    AssignVersionsStep(cols[..2], cols[2], row);
    assert [e0, e1][1..] == [e1] && [e1][1..] == [];
    assert Put([], e2.0, e2.1) == [e2];
    assert Put([e1], e2.0, e2.1) == [e1, e2];
    assert Put([e0, e1], e2.0, e2.1) == [e0, e1, e2];
    assert AssignVersions(cols[..2] + [cols[2]], row) == Success([e0, e1, e2]);
  }

  /** The example table parses to its two addresses and to the test versions. */
  lemma TestFileParsed()
    ensures ParseMacAddresses(Present(TestRows)) == Success([Mac1, Mac2])
    ensures ParseVersions(Present(TestRows)) == Success(TestVersions)
  {
    var rows := TestRows;
    assert rows[1..] == [rows[1], rows[2]];
    TwoFirstCells(rows[1], rows[2]);
    TestHeaderColumns();
    LastThreeSelected(TestRows[0]);
    ThreeAssigned(SelectColumns(TestRows[0]), TestRows[1]);
  }

  /** A file holding only its header row: no ids, but reading the first data
      row for the versions raises, so the run stops before any request. */
  lemma HeaderOnlyFile(header: Row, serverUrl: string, token: string, put: Request -> Outcome)
    ensures ParseMacAddresses(Present([header])) == Success([])
    ensures ParseVersions(Present([header])) == Failure(StopIteration)
    ensures UpdateAllPlayers(Present([header]), serverUrl, token, put) == Failure(StopIteration)
  {
  }

  /** A missing file stops the run with `FileNotFoundError` before any request. */
  lemma MissingFile(serverUrl: string, token: string, put: Request -> Outcome)
    ensures ParseMacAddresses(Missing) == Failure(FileNotFound)
    ensures ParseVersions(Missing) == Failure(FileNotFound)
    ensures UpdateAllPlayers(Missing, serverUrl, token, put) == Failure(FileNotFound)
  {
  }
}
