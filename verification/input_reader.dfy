/** The two parsers of the input table: device ids from column 0 of every data
    row, and the application-version map from the header and the first data
    row. The table arrives already split into rows of cells, as `csv.reader`
    yields them (a blank line is an empty row); a missing file is its own value. */
module InputReader {
  import opened Wrappers
  import opened Text
  import opened OrderedDict

  type Row = seq<string>

  /** The input file: absent, or present with its rows, header first. */
  datatype Input = Missing | Present(rows: seq<Row>)

  /** The exceptions that escape the parsers. */
  datatype ReadError =
    | FileNotFound   // the file does not exist
    | StopIteration  // `next(reader)` ran past the last row
    | IndexError     // a cell was read past the end of its row

  /** Application id -> target version, in insertion order. */
  type VersionMap = Dict

  // ---------------------------------------------------------------------------
  // Device ids

  /** The first cell of every row, in order; a row with no cells raises. */
  function FirstCells(rows: seq<Row>): (r: Result<seq<string>, ReadError>)
    ensures r.Success? <==> forall i :: 0 <= i < |rows| ==> |rows[i]| > 0
    ensures r.Success? ==> |r.value| == |rows|
    ensures r.Success? ==> forall i :: 0 <= i < |rows| ==> r.value[i] == rows[i][0]
    ensures r.Failure? ==> r.error == IndexError
  {
    if |rows| == 0 then Success([])
    else if |rows[0]| == 0 then Failure(IndexError)
    else match FirstCells(rows[1..])
      case Failure(e) => Failure(e)
      case Success(rest) => Success([rows[0][0]] + rest)
  }

  /** `parseMacAddresses`: skip the header, then take column 0 of every data
      row in file order, duplicates included. */
  function ParseMacAddresses(input: Input): (r: Result<seq<string>, ReadError>)
    ensures input.Missing? ==> r == Failure(FileNotFound)
    ensures input.Present? && |input.rows| == 0 ==> r == Failure(StopIteration)
    ensures r.Success? <==>
      input.Present? && |input.rows| >= 1 &&
      forall i :: 1 <= i < |input.rows| ==> |input.rows[i]| > 0
    ensures input.Present? && |input.rows| >= 1 && r.Failure? ==> r.error == IndexError
    ensures r.Success? ==> |r.value| == |input.rows| - 1
    ensures r.Success? ==>
      forall i :: 0 <= i < |r.value| ==> r.value[i] == input.rows[i + 1][0]
  {
    match input
    case Missing => Failure(FileNotFound)
    case Present(rows) =>
      if |rows| == 0 then Failure(StopIteration)
      else FirstCells(rows[1..])
  }

  // ---------------------------------------------------------------------------
  // Positions of a name among the header's columns

  /** Index of the first column named `k`, or `|names|` when there is none. */
  function FirstPos(names: seq<string>, k: string): (p: nat)
    ensures p <= |names|
    ensures p < |names| ==> names[p] == k
    ensures forall i :: 0 <= i < p ==> names[i] != k
  {
    if |names| == 0 then 0
    else if names[0] == k then 0
    else 1 + FirstPos(names[1..], k)
  }

  /** Index of the last column named `k`, or -1 when there is none. */
  function LastPos(names: seq<string>, k: string): (p: int)
    ensures -1 <= p < |names|
    ensures p >= 0 ==> names[p] == k
    ensures forall i :: p < i < |names| ==> names[i] != k
  {
    if |names| == 0 then -1
    else if names[|names| - 1] == k then |names| - 1
    else LastPos(names[..|names| - 1], k)
  }

  /** Keys listed in the order their names first appear among `names`. */
  ghost predicate InFirstOccurrenceOrder(ks: seq<string>, names: seq<string>)
  {
    forall a, b :: 0 <= a < b < |ks| ==> FirstPos(names, ks[a]) < FirstPos(names, ks[b])
  }

  // ---------------------------------------------------------------------------
  // Version map

  /** The (index, name) pairs of the header's columns whose name contains "app", in column order. */
  function SelectColumns(header: Row): (cols: seq<(nat, string)>)
    ensures forall p :: 0 <= p < |cols| ==>
      cols[p].0 < |header| && cols[p].1 == header[cols[p].0] && IsAppColumn(cols[p].1)
    ensures forall p, q :: 0 <= p < q < |cols| ==> cols[p].0 < cols[q].0
  {
    if |header| == 0 then []
    else
      var n := |header| - 1;
      assert forall j :: 0 <= j < n ==> header[..n][j] == header[j];
      var prev := SelectColumns(header[..n]);
      var cols := prev + (if IsAppColumn(header[n]) then [(n, header[n])] else []);
      assert forall p :: 0 <= p < |prev| ==> cols[p] == prev[p];
      cols
  }

  /** No "app" column is missed. */
  lemma {:induction false} SelectColumnsComplete(header: Row)
    ensures forall j :: 0 <= j < |header| && IsAppColumn(header[j]) ==>
      exists p :: 0 <= p < |SelectColumns(header)| && SelectColumns(header)[p].0 == j
  {
    if |header| > 0 {
      var n := |header| - 1;
      var prev := SelectColumns(header[..n]);
      var cols := SelectColumns(header);
      assert header == header[..n] + [header[n]];
      SelectColumnsAppend(header[..n], header[n]);
      SelectColumnsComplete(header[..n]);
      forall j | 0 <= j < |header| && IsAppColumn(header[j])
        ensures exists p :: 0 <= p < |cols| && cols[p].0 == j
      {
        if j < n {
          assert header[..n][j] == header[j];
          var p :| 0 <= p < |prev| && prev[p].0 == j;
          assert cols[p] == prev[p];
        } else {
          assert cols[|prev|].0 == j;
        }
      }
    }
  }

  /** The version dictionary after assigning, for each selected column in
      turn, the row's cell at that column's index under the column's name; an
      index past the end of the row raises. */
  function AssignVersions(cols: seq<(nat, string)>, row: Row): (r: Result<VersionMap, ReadError>)
    ensures r.Success? ==> |r.value| <= |cols|
  {
    if |cols| == 0 then Success([])
    else
      var n := |cols| - 1;
      match AssignVersions(cols[..n], row)
      case Failure(e) => Failure(e)
      case Success(d) =>
        if cols[n].0 < |row| then Success(Put(d, cols[n].1, row[cols[n].0]))
        else Failure(IndexError)
  }

  /** Every selected column lies within the row. */
  ghost predicate Within(cols: seq<(nat, string)>, row: Row)
  {
    forall p :: 0 <= p < |cols| ==> cols[p].0 < |row|
  }

  /** The loop fails exactly when some selected column lies past the end of the row. */
  lemma {:induction false} AssignVersionsSucceeds(cols: seq<(nat, string)>, row: Row)
    ensures AssignVersions(cols, row).Success? <==> Within(cols, row)
  {
    if |cols| > 0 {
      var n := |cols| - 1;
      var front := cols[..n];
      AssignVersionsSucceeds(front, row);
      AssignVersionsLast(cols, row);
      WithinSplit(cols, row);
    }
  }

  /** Every column lies within the row exactly when all but the last do and the last does. */
  lemma WithinSplit(cols: seq<(nat, string)>, row: Row)
    requires |cols| > 0
    ensures Within(cols, row) <==> Within(cols[..|cols| - 1], row) && cols[|cols| - 1].0 < |row|
  {
    var n := |cols| - 1;
    assert forall p :: 0 <= p < n ==> cols[..n][p] == cols[p];
  }

  /** The loop over `cols` succeeds when the loop over all but the last column
      did and the last column lies within the row. */
  lemma AssignVersionsLast(cols: seq<(nat, string)>, row: Row)
    requires |cols| > 0
    ensures AssignVersions(cols, row).Success? <==>
      AssignVersions(cols[..|cols| - 1], row).Success? && cols[|cols| - 1].0 < |row|
  {
    AssignVersionsUnfold(cols, row);
  }

  /** The only exception the loop raises is `IndexError`. */
  lemma {:induction false} AssignVersionsError(cols: seq<(nat, string)>, row: Row)
    ensures AssignVersions(cols, row).Failure? ==> AssignVersions(cols, row).error == IndexError
  {
    if |cols| > 0 {
      AssignVersionsError(cols[..|cols| - 1], row);
      AssignVersionsUnfold(cols, row);
    }
  }

  /** `parseVersions`: the header's "app" columns, valued from the first data row. */
  function ParseVersions(input: Input): (r: Result<VersionMap, ReadError>)
    ensures input.Missing? ==> r == Failure(FileNotFound)
    ensures input.Present? && |input.rows| < 2 ==> r == Failure(StopIteration)
    ensures input.Present? && |input.rows| >= 2 ==>
      (r.Success? <==>
        forall j :: 0 <= j < |input.rows[0]| && IsAppColumn(input.rows[0][j]) ==> j < |input.rows[1]|)
    ensures input.Present? && |input.rows| >= 2 && r.Failure? ==> r.error == IndexError
  {
    match input
    case Missing => Failure(FileNotFound)
    case Present(rows) =>
      if |rows| == 0 then Failure(StopIteration)
      else
        SelectColumnsComplete(rows[0]);
        var cols := SelectColumns(rows[0]);
        if |rows| == 1 then Failure(StopIteration)
        else
          AssignVersionsSucceeds(cols, rows[1]);
          AssignVersionsError(cols, rows[1]);
          AssignVersions(cols, rows[1])
  }

  // ---------------------------------------------------------------------------
  // What the version map contains

  lemma FirstPosAppend(names: seq<string>, x: string, k: string)
    requires k in names
    ensures FirstPos(names + [x], k) == FirstPos(names, k)
  {
    var i :| 0 <= i < |names| && names[i] == k;
    var p, q := FirstPos(names + [x], k), FirstPos(names, k);
    assert (names + [x])[i] == k;
    assert p <= i && q <= i;
    assert (names + [x])[q] == names[q];
    assert (names + [x])[p] == names[p];
  }

  lemma FirstPosNew(names: seq<string>, x: string)
    requires x !in names
    ensures FirstPos(names + [x], x) == |names|
  {
    var p := FirstPos(names + [x], x);
    assert (names + [x])[|names|] == x;
  }

  lemma LastPosAppend(names: seq<string>, x: string, k: string)
    ensures LastPos(names + [x], k) == if k == x then |names| else LastPos(names, k)
  {
    assert (names + [x])[..|names|] == names;
  }

  lemma AssignVersionsStep(cols: seq<(nat, string)>, c: (nat, string), row: Row)
    requires AssignVersions(cols + [c], row).Success?
    ensures AssignVersions(cols, row).Success?
    ensures c.0 < |row|
    ensures AssignVersions(cols + [c], row).value == Put(AssignVersions(cols, row).value, c.1, row[c.0])
  {
    assert (cols + [c])[..|cols|] == cols;
  }

  /** `d` is the dictionary `parseVersions` should build from header columns
      `h` and first data row `row`: exactly the distinct "app" names of `h`,
      in order of first appearance, each valued with the cell under its LAST
      column of that name. */
  ghost predicate Describes(d: VersionMap, h: Row, row: Row)
  {
    && UniqueKeys(d)
    && KeysAreAppNames(d, h)
    && InFirstOccurrenceOrder(Keys(d), h)
    && ValuedFromLastColumn(d, h, row)
  }

  /** The keys are exactly the names in `h` that contain "app". */
  ghost predicate KeysAreAppNames(d: VersionMap, h: Row)
  {
    forall k :: k in Keys(d) <==> k in h && IsAppColumn(k)
  }

  /** Each key's value is the cell of `row` under the last column of `h` with that name. */
  ghost predicate ValuedFromLastColumn(d: VersionMap, h: Row, row: Row)
  {
    forall k :: k in Keys(d) ==> 0 <= LastPos(h, k) < |row| && Get(d, k) == Some(row[LastPos(h, k)])
  }

  lemma FirstPosExtend(h: Row, x: string)
    ensures forall k :: k in h ==> FirstPos(h + [x], k) == FirstPos(h, k)
  {
    forall k | k in h
      ensures FirstPos(h + [x], k) == FirstPos(h, k)
    {
      FirstPosAppend(h, x, k);
    }
  }

  lemma LastPosExtend(h: Row, x: string)
    ensures forall k :: LastPos(h + [x], k) == if k == x then |h| else LastPos(h, k)
  {
    forall k
      ensures LastPos(h + [x], k) == if k == x then |h| else LastPos(h, k)
    {
      LastPosAppend(h, x, k);
    }
  }

  /** A column whose name lacks "app" changes nothing. */
  lemma DescribesSkip(d: VersionMap, h: Row, x: string, row: Row)
    requires Describes(d, h, row)
    requires !IsAppColumn(x)
    ensures Describes(d, h + [x], row)
  {
    FirstPosExtend(h, x);
    LastPosExtend(h, x);
  }

  /** An "app" column is assigned: its name keeps an existing place or takes the
      last one, and its value becomes the current cell. */
  lemma DescribesPut(d: VersionMap, h: Row, x: string, row: Row)
    requires Describes(d, h, row)
    requires IsAppColumn(x) && |h| < |row|
    ensures Describes(Put(d, x, row[|h|]), h + [x], row)
  {
    PutSemantics(d, x, row[|h|]);
    PutKeepsUnique(d, x, row[|h|]);
    PutKeepsOrder(d, h, x, row[|h|]);
    LastPosExtend(h, x);
  }

  lemma PutKeepsOrder(d: VersionMap, h: Row, x: string, v: string)
    requires KeysAreAppNames(d, h) && InFirstOccurrenceOrder(Keys(d), h)
    requires IsAppColumn(x)
    ensures InFirstOccurrenceOrder(Keys(Put(d, x, v)), h + [x])
  {
    FirstPosExtend(h, x);
    PutKeys(d, x, v);
    if x !in Keys(d) {
      assert x !in h;
      AppendedLastInOrder(Keys(d), h, x);
    }
  }

  /** Appending a name that first appears after all of `h` keeps the order. */
  lemma AppendedLastInOrder(ks: seq<string>, h: Row, x: string)
    requires InFirstOccurrenceOrder(ks, h)
    requires forall k :: k in ks ==> k in h
    requires x !in h
    ensures InFirstOccurrenceOrder(ks + [x], h + [x])
  {
    FirstPosNew(h, x);
    forall a, b | 0 <= a < b < |ks| + 1
      ensures FirstPos(h + [x], (ks + [x])[a]) < FirstPos(h + [x], (ks + [x])[b])
    {
      OrderedPair(ks, h, x, a, b);
    }
  }

  /** One pair of positions of `AppendedLastInOrder`. */
  lemma OrderedPair(ks: seq<string>, h: Row, x: string, a: nat, b: nat)
    requires InFirstOccurrenceOrder(ks, h)
    requires forall k :: k in ks ==> k in h
    requires FirstPos(h + [x], x) == |h|
    requires a < b < |ks| + 1
    ensures FirstPos(h + [x], (ks + [x])[a]) < FirstPos(h + [x], (ks + [x])[b])
  {
    var ka := ks[a];
    assert (ks + [x])[a] == ka && ka in ks;
    FirstPosAppend(h, x, ka);
    if b < |ks| {
      var kb := ks[b];
      assert (ks + [x])[b] == kb && kb in ks;
      FirstPosAppend(h, x, kb);
    } else {
      assert (ks + [x])[b] == x;
      FirstPosFound(h, ka);
    }
  }

  /** A name that occurs has its first position inside the sequence. */
  lemma FirstPosFound(names: seq<string>, k: string)
    requires k in names
    ensures FirstPos(names, k) < |names|
  {
    var i :| 0 <= i < |names| && names[i] == k;
    assert FirstPos(names, k) <= i;
  }

  /** One more header column `x` after the columns `h`. */
  lemma SelectColumnsAppend(h: Row, x: string)
    ensures SelectColumns(h + [x]) ==
      SelectColumns(h) + (if IsAppColumn(x) then [(|h|, x)] else [])
  {
    assert (h + [x])[..|h|] == h;
  }

  lemma VersionsStep(h: Row, x: string, row: Row)
    requires AssignVersions(SelectColumns(h + [x]), row).Success?
    ensures AssignVersions(SelectColumns(h), row).Success?
    ensures Describes(AssignVersions(SelectColumns(h), row).value, h, row) ==>
      Describes(AssignVersions(SelectColumns(h + [x]), row).value, h + [x], row)
  {
    SelectColumnsAppend(h, x);
    var prev := SelectColumns(h);
    if IsAppColumn(x) {
      AssignVersionsStep(prev, (|h|, x), row);
      if Describes(AssignVersions(prev, row).value, h, row) {
        DescribesPut(AssignVersions(prev, row).value, h, x, row);
      }
    } else {
      assert SelectColumns(h + [x]) == prev;
      if Describes(AssignVersions(prev, row).value, h, row) {
        DescribesSkip(AssignVersions(prev, row).value, h, x, row);
      }
    }
  }

  /** `VersionsStep` for the prefixes `n - 1` and `n` of one header. */
  lemma VersionsStepAt(header: Row, row: Row, n: nat)
    requires 0 < n <= |header|
    requires AssignVersions(SelectColumns(header[..n]), row).Success?
    ensures AssignVersions(SelectColumns(header[..n - 1]), row).Success?
    ensures Describes(AssignVersions(SelectColumns(header[..n - 1]), row).value, header[..n - 1], row) ==>
      Describes(AssignVersions(SelectColumns(header[..n]), row).value, header[..n], row)
  {
    var h, x := header[..n - 1], header[n - 1];
    assert header[..n] == h + [x];
    VersionsStep(h, x, row);
  }

  /** An empty header selects nothing and reads nothing. */
  lemma NothingRead(row: Row)
    ensures AssignVersions(SelectColumns([]), row) == Success([])
    ensures Describes([], [], row)
  {
    assert Keys([]) == [];
  }

  /** Reading header columns `0..n` builds a dictionary that `Describes` them. */
  lemma {:induction false} VersionsOfPrefix(header: Row, row: Row, n: nat)
    requires n <= |header|
    requires AssignVersions(SelectColumns(header[..n]), row).Success?
    ensures Describes(AssignVersions(SelectColumns(header[..n]), row).value, header[..n], row)
  {
    if n == 0 {
      assert header[..0] == [];
      NothingRead(row);
    } else {
      VersionsStepAt(header, row, n);
      VersionsOfPrefix(header, row, n - 1);
    }
  }

  /** `parseVersions` on a table with a header and a first data row: the keys
      are the distinct header names containing "app", in the order they first
      appear, and each value is the first data row's cell under the last column
      of that name (a repeated name keeps its first place, the later value wins). */
  lemma ParseVersionsContents(rows: seq<Row>)
    requires ParseVersions(Present(rows)).Success?
    ensures |rows| >= 2
    ensures Describes(ParseVersions(Present(rows)).value, rows[0], rows[1])
  {
    assert rows[0][..|rows[0]|] == rows[0];
    VersionsOfPrefix(rows[0], rows[1], |rows[0]|);
  }

  /** The loop reads nothing of `row` but the cells the selected columns name. */
  lemma {:induction false} AssignVersionsFrame(cols: seq<(nat, string)>, r1: Row, r2: Row)
    requires forall p :: 0 <= p < |cols| ==> (cols[p].0 < |r1| <==> cols[p].0 < |r2|)
    requires forall p :: 0 <= p < |cols| && cols[p].0 < |r1| ==> r1[cols[p].0] == r2[cols[p].0]
    ensures AssignVersions(cols, r1) == AssignVersions(cols, r2)
  {
    if |cols| > 0 {
      var n := |cols| - 1;
      var front, c := cols[..n], cols[n];
      assert forall p :: 0 <= p < n ==> front[p] == cols[p];
      AssignVersionsFrame(front, r1, r2);
      AssignVersionsUnfold(cols, r1);
      AssignVersionsUnfold(cols, r2);
      assert c.0 < |r1| <==> c.0 < |r2|;
      assert c.0 < |r1| ==> r1[c.0] == r2[c.0];
    }
  }

  /** One unfolding of the loop: all but the last column, then the last one. */
  lemma AssignVersionsUnfold(cols: seq<(nat, string)>, row: Row)
    requires |cols| > 0
    ensures var prev, c := AssignVersions(cols[..|cols| - 1], row), cols[|cols| - 1];
      AssignVersions(cols, row) ==
        if prev.Failure? then prev
        else if c.0 < |row| then Success(Put(prev.value, c.1, row[c.0]))
        else Failure(IndexError)
  {
  }

  /** Rows after the first data row, and cells of the first data row outside
      the "app" columns, never affect the version map. */
  lemma ParseVersionsFrame(rows1: seq<Row>, rows2: seq<Row>)
    requires |rows1| >= 2 && |rows2| >= 2
    requires rows1[0] == rows2[0]
    requires forall j :: 0 <= j < |rows1[0]| && IsAppColumn(rows1[0][j]) ==>
      (j < |rows1[1]| <==> j < |rows2[1]|) && (j < |rows1[1]| ==> rows1[1][j] == rows2[1][j])
    ensures ParseVersions(Present(rows1)) == ParseVersions(Present(rows2))
  {
    AssignVersionsFrame(SelectColumns(rows1[0]), rows1[1], rows2[1]);
  }
}
