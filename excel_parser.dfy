/** ExcelParser: the mapping from the decoded sheet grid to row objects
    (the body of parseFile's reader callback), and validateRequiredFields. */
module ExcelParser {
  import opened Wrappers
  import opened Strings
  import opened JsObject
  import opened Types
  import Hospitals
  import Seqs

  // ---------------------------------------------------------------------
  // From the sheet grid to row objects
  // ---------------------------------------------------------------------

  datatype ParseError = TooFewRows | NoDataRows

  /** `row.some((cell) => cell !== '')`: the row is not skipped as empty. */
  predicate HasContent(cells: seq<string>)
  {
    exists j :: 0 <= j < |cells| && cells[j] != ""
  }

  function HasContentTest(): seq<string> -> bool
  {
    cells => HasContent(cells)
  }

  /** The value stored for column `j`: the trimmed cell, or '' when the row
      has no cell there. */
  function CellValue(cells: seq<string>, j: nat): string
  {
    if j < |cells| then Trim(cells[j]) else ""
  }

  /** The trimmed headers: the keys `header.trim()`, column by column. */
  function HeaderKeys(headers: seq<string>): (ks: seq<string>)
    ensures |ks| == |headers| && forall j :: 0 <= j < |headers| ==> ks[j] == Trim(headers[j])
  {
    seq(|headers|, j requires 0 <= j < |headers| => Trim(headers[j]))
  }

  /** The value stored for each of the `width` columns. */
  function CellValues(cells: seq<string>, width: nat): seq<string>
  {
    seq(width, j requires 0 <= j < width => CellValue(cells, j))
  }

  lemma CellValuesAt(cells: seq<string>, width: nat, j: nat)
    requires j < width
    ensures |CellValues(cells, width)| == width && CellValues(cells, width)[j] == CellValue(cells, j)
  {
  }

  /** The assignments `rowObj[key] = value` made for the first `n` columns,
      in column order; columns whose key is '' make none. */
  function ColumnPairs(keys: seq<string>, values: seq<string>, n: nat): seq<(string, Cell)>
    requires n <= |keys| == |values|
  {
    if n == 0 then []
    else
      var init := ColumnPairs(keys, values, n - 1);
      if keys[n - 1] != "" then init + [(keys[n - 1], Text(values[n - 1]))] else init
  }

  /** The assignments made for the whole header row. */
  function HeaderPairs(headers: seq<string>, cells: seq<string>): seq<(string, Cell)>
  {
    ColumnPairs(HeaderKeys(headers), CellValues(cells, |headers|), |headers|)
  }

  /** The row object built from one data row. */
  function RowObject(headers: seq<string>, cells: seq<string>): Row
  {
    FromPairs(HeaderPairs(headers, cells))
  }

  /** The `headers.forEach` loop that fills `rowObj`. */
  method BuildRowObject(headers: seq<string>, cells: seq<string>) returns (rowObj: Row)
    ensures rowObj == RowObject(headers, cells)
  {
    ghost var keys, values := HeaderKeys(headers), CellValues(cells, |headers|);
    rowObj := [];
    for colIndex := 0 to |headers|
      invariant rowObj == FromPairs(ColumnPairs(keys, values, colIndex))
    {
      var header := headers[colIndex];
      if header != "" && Trim(header) != "" {
        var value := if colIndex < |cells| then Trim(cells[colIndex]) else "";
        CellValuesAt(cells, |headers|, colIndex);
        FromPairsAppend(ColumnPairs(keys, values, colIndex), Trim(header), Text(value));
        rowObj := Set(rowObj, Trim(header), Text(value));
      }
    }
  }

  /** What parseFile resolves with, or why it rejects, given the grid that
      `sheet_to_json(worksheet, { header: 1, defval: '' })` returned. */
  function GridToRows(grid: seq<seq<string>>): Result<seq<Row>, ParseError>
  {
    if |grid| < 2 then Failure(TooFewRows)
    else
      var kept := Seqs.Filter(HasContentTest(), grid[1..]);
      if kept == [] then Failure(NoDataRows)
      else Success(seq(|kept|, i requires 0 <= i < |kept| => RowObject(grid[0], kept[i])))
  }

  /** The `.map` over the kept rows: one row object per row, in order. */
  method MapRowObjects(headers: seq<string>, kept: seq<seq<string>>) returns (parsedRows: seq<Row>)
    ensures |parsedRows| == |kept|
    ensures forall k {:trigger parsedRows[k]} :: 0 <= k < |kept| ==> parsedRows[k] == RowObject(headers, kept[k])
  {
    parsedRows := [];
    for i := 0 to |kept|
      invariant |parsedRows| == i
      invariant forall k {:trigger parsedRows[k]} :: 0 <= k < i ==> parsedRows[k] == RowObject(headers, kept[k])
    {
      var rowObj := BuildRowObject(headers, kept[i]);
      parsedRows := parsedRows + [rowObj];
    }
  }

  /** Lines 30-55 of parseFile: headers, the filter of empty rows, the map
      to row objects and the two failures. */
  method ParseGrid(grid: seq<seq<string>>) returns (result: Result<seq<Row>, ParseError>)
    ensures result == GridToRows(grid)
  {
    if |grid| < 2 {
      return Failure(TooFewRows);
    }
    var headers := grid[0];
    var rows := grid[1..];
    var kept := Seqs.Filter(HasContentTest(), rows);
    var parsedRows := MapRowObjects(headers, kept);
    if |parsedRows| == 0 {
      return Failure(NoDataRows);
    }
    assert parsedRows == seq(|kept|, i requires 0 <= i < |kept| => RowObject(headers, kept[i]));
    result := Success(parsedRows);
  }

  /** parseFile rejects a grid without a data row under the headers. */
  lemma TooFewRowsIff(grid: seq<seq<string>>)
    ensures GridToRows(grid) == Failure(TooFewRows) <==> |grid| < 2
  {
  }

  /** parseFile rejects a grid whose data rows all consist of '' cells. */
  lemma NoDataRowsIff(grid: seq<seq<string>>)
    ensures GridToRows(grid) == Failure(NoDataRows) <==>
            |grid| >= 2 && forall r :: r in grid[1..] ==> !HasContent(r)
  {
    if |grid| >= 2 {
      Seqs.FilterEmpty(HasContentTest(), grid[1..]);
    }
  }

  /** The number of data rows with content strictly before data row `p`. */
  function KeptBefore(grid: seq<seq<string>>, p: nat): nat
    requires 1 <= |grid| && p <= |grid| - 1
  {
    |Seqs.Filter(HasContentTest(), grid[1..][..p])|
  }

  /** Data row `p` (grid row `p + 1`) with a non-'' cell becomes row object
      number `KeptBefore(grid, p)`: rows are kept in their original order. */
  lemma GridRowAt(grid: seq<seq<string>>, p: nat)
    requires p + 1 < |grid| && HasContent(grid[p + 1])
    ensures GridToRows(grid).Success?
    ensures KeptBefore(grid, p) < |GridToRows(grid).value|
    ensures GridToRows(grid).value[KeptBefore(grid, p)] == RowObject(grid[0], grid[p + 1])
  {
    Seqs.FilterAt(HasContentTest(), grid[1..], p);
  }

  /** Row object number `j` comes from a data row with a non-'' cell, with
      exactly `j` such rows before it: no row is reordered or invented. */
  lemma GridRowOrigin(grid: seq<seq<string>>, j: nat)
    requires GridToRows(grid).Success? && j < |GridToRows(grid).value|
    ensures exists p :: 0 <= p < |grid| - 1 && HasContent(grid[p + 1]) && KeptBefore(grid, p) == j
                        && GridToRows(grid).value[j] == RowObject(grid[0], grid[p + 1])
  {
    var data := grid[1..];
    Seqs.FilterOrigin(HasContentTest(), data, j);
    var k :| 0 <= k < |data| && data[k] == Seqs.Filter(HasContentTest(), data)[j]
             && HasContentTest()(data[k]) && |Seqs.Filter(HasContentTest(), data[..k])| == j;
    assert data[k] == grid[k + 1];
    assert HasContent(grid[k + 1]);
    assert KeptBefore(grid, k) == j;
    assert GridToRows(grid).value[j] == RowObject(grid[0], grid[k + 1]);
  }

  /** The pairs for the first `n` columns name exactly the non-blank keys among them. */
  lemma {:induction false} ColumnPairsKeys(keys: seq<string>, values: seq<string>, n: nat, k: string)
    requires n <= |keys| == |values|
    ensures HasKey(ColumnPairs(keys, values, n), k) <==> k != "" && k in keys[..n]
  {
    if n > 0 {
      ColumnPairsKeys(keys, values, n - 1, k);
      assert keys[..n] == keys[..n - 1] + [keys[n - 1]];
      if keys[n - 1] != "" {
        HasKeyAppend(ColumnPairs(keys, values, n - 1), (keys[n - 1], Text(values[n - 1])), k);
      }
    }
  }

  /** The last column with key `k` supplies the value of `k`. */
  lemma {:induction false} ColumnPairsLast(keys: seq<string>, values: seq<string>, n: nat, j: nat)
    requires j < n <= |keys| == |values| && keys[j] != ""
    requires forall q :: j < q < n ==> keys[q] != keys[j]
    ensures LastValue(ColumnPairs(keys, values, n), keys[j]) == Some(Text(values[j]))
  {
    var init := ColumnPairs(keys, values, n - 1);
    if keys[n - 1] != "" {
      var ps := init + [(keys[n - 1], Text(values[n - 1]))];
      assert ps[..|ps| - 1] == init;
      if j < n - 1 {
        ColumnPairsLast(keys, values, n - 1, j);
      }
    } else {
      ColumnPairsLast(keys, values, n - 1, j);
    }
  }

  /** Every pair holds the value of one of the first `n` columns. */
  lemma {:induction false} ColumnPairsValues(keys: seq<string>, values: seq<string>, n: nat, i: nat)
    requires n <= |keys| == |values| && i < |ColumnPairs(keys, values, n)|
    ensures exists j :: 0 <= j < n && ColumnPairs(keys, values, n)[i].1 == Text(values[j])
  {
    var init := ColumnPairs(keys, values, n - 1);
    if i < |init| {
      ColumnPairsValues(keys, values, n - 1, i);
      if keys[n - 1] != "" {
        assert ColumnPairs(keys, values, n)[i] == init[i];
      }
    } else {
      assert ColumnPairs(keys, values, n)[i].1 == Text(values[n - 1]);
    }
  }

  /** The keys of a row object are exactly the trimmed non-blank headers,
      each once. */
  lemma RowObjectKeys(headers: seq<string>, cells: seq<string>, k: string)
    ensures UniqueKeys(RowObject(headers, cells))
    ensures HasKey(RowObject(headers, cells), k) <==>
            k != "" && exists j :: 0 <= j < |headers| && Trim(headers[j]) == k
  {
    var keys := HeaderKeys(headers);
    ColumnPairsKeys(keys, CellValues(cells, |headers|), |headers|, k);
    assert keys[..|headers|] == keys;
  }

  /** The value of a header's key is the trimmed cell of the last column
      with that header, or '' when the row is shorter. */
  lemma RowObjectValue(headers: seq<string>, cells: seq<string>, j: nat)
    requires j < |headers| && Trim(headers[j]) != ""
    requires forall q :: j < q < |headers| ==> Trim(headers[q]) != Trim(headers[j])
    ensures Get(RowObject(headers, cells), Trim(headers[j])) == Some(Text(CellValue(cells, j)))
  {
    var keys, values := HeaderKeys(headers), CellValues(cells, |headers|);
    FromPairsGet(HeaderPairs(headers, cells), keys[j]);
    ColumnPairsLast(keys, values, |headers|, j);
  }

  /** Every value of a row object is the value of one of the columns. */
  lemma RowObjectValueOrigin(headers: seq<string>, cells: seq<string>, i: nat)
    requires i < |RowObject(headers, cells)|
    ensures exists j :: 0 <= j < |headers| && RowObject(headers, cells)[i].1 == Text(CellValue(cells, j))
  {
    var keys, values := HeaderKeys(headers), CellValues(cells, |headers|);
    var ps := HeaderPairs(headers, cells);
    FromPairsEntryOrigin(ps, i);
    var p :| 0 <= p < |ps| && ps[p] == RowObject(headers, cells)[i];
    ColumnPairsValues(keys, values, |headers|, p);
    var j :| 0 <= j < |headers| && ps[p].1 == Text(values[j]);
    CellValuesAt(cells, |headers|, j);
  }

  /** Every value of a row object is a string with no whitespace at either end. */
  lemma RowObjectValuesTrimmed(headers: seq<string>, cells: seq<string>, i: nat)
    requires i < |RowObject(headers, cells)|
    ensures RowObject(headers, cells)[i].1.Text?
    ensures Trim(RowObject(headers, cells)[i].1.s) == RowObject(headers, cells)[i].1.s
  {
    RowObjectValueOrigin(headers, cells, i);
    var j :| 0 <= j < |headers| && RowObject(headers, cells)[i].1 == Text(CellValue(cells, j));
    if j < |cells| {
      TrimIdempotent(cells[j]);
    }
  }

  /** A data row whose cells are all whitespace, one of them not '', is not
      skipped (the test looks at the cells before trimming): it is kept at
      its place among the kept rows, and every value of its object is ''. */
  lemma WhitespaceRowIsKept(grid: seq<seq<string>>, p: nat)
    requires p + 1 < |grid| && HasContent(grid[p + 1])
    requires forall cell :: cell in grid[p + 1] ==> AllSpaces(cell)
    ensures GridToRows(grid).Success?
    ensures KeptBefore(grid, p) < |GridToRows(grid).value|
    ensures var row := GridToRows(grid).value[KeptBefore(grid, p)];
            row == RowObject(grid[0], grid[p + 1]) &&
            forall i :: 0 <= i < |row| ==> row[i].1 == Text("")
  {
    GridRowAt(grid, p);
    var headers, cells := grid[0], grid[p + 1];
    forall i | 0 <= i < |RowObject(headers, cells)|
      ensures RowObject(headers, cells)[i].1 == Text("")
    {
      RowObjectValueOrigin(headers, cells, i);
      var j :| 0 <= j < |headers| && RowObject(headers, cells)[i].1 == Text(CellValue(cells, j));
      if j < |cells| {
        TrimEmptyIffAllSpaces(cells[j]);
      }
    }
  }

  // ---------------------------------------------------------------------
  // validateRequiredFields
  // ---------------------------------------------------------------------

  datatype ErrorKind =
    | MissingField(field: string)
    | InvalidPhone
    | InvalidCenter(centerName: string, suggestions: seq<string>)

  /** One problem found in the data row at 0-based position `index`. */
  datatype RowError = RowError(index: nat, kind: ErrorKind)

  const RequiredFields: seq<string> := ["Name", "Phone"]

  /** The error string pushed for `e`. */
  function Message(e: RowError): string
  {
    match e.kind
    case MissingField(f) =>
      "Row " + NatToString(e.index + 2) + ": Missing required field \"" + f + "\""
    case InvalidPhone =>
      "Row " + NatToString(e.index + 2) + ": Invalid phone number format"
    case InvalidCenter(name, suggestions) =>
      var base := "Row " + NatToString(e.index) + ": Invalid Center Name \"" + name
                  + "\". Must exactly match one of the approved hospitals.";
      if |suggestions| > 0 then base + " Did you mean: " + Join(suggestions, ", ") + "?" else base
  }

  /** The row number a message prints: the index plus 2 (header row, 1-based
      numbering), except for the centre-name message, which prints the bare index. */
  function ReportedRow(e: RowError): nat
  {
    if e.kind.InvalidCenter? then e.index else e.index + 2
  }

  /** Every message opens with "Row <ReportedRow(e)>:". */
  lemma MessageRowPrefix(e: RowError)
    ensures "Row " + NatToString(ReportedRow(e)) + ":" <= Message(e)
  {
    var p := "Row " + NatToString(ReportedRow(e)) + ":";
    var m := Message(e);
    assert m[..|p|] == p;
  }

  function Messages(es: seq<RowError>): (ms: seq<string>)
    ensures |ms| == |es|
  {
    seq(|es|, i requires 0 <= i < |es| => Message(es[i]))
  }

  /** `!row[field] || row[field].trim() === ''` */
  predicate IsBlank(c: Cell)
  {
    c.Missing? || c.s == "" || Trim(c.s) == ""
  }

  /** A cell that JavaScript treats as true: a non-empty string. */
  predicate IsTruthy(c: Cell)
  {
    c.Text? && c.s != ""
  }

  /** The class `[\d\s\-\(\)]`. */
  predicate IsPhoneChar(c: char)
  {
    ('0' <= c <= '9') || IsSpace(c) || c == '-' || c == '(' || c == ')'
  }

  predicate AllPhoneChars(s: string)
  {
    forall i :: 0 <= i < |s| ==> IsPhoneChar(s[i])
  }

  /** The strings the pattern `^\+?[\d\s\-\(\)]{10,}$` accepts: with or without
      the optional `+`, then at least ten characters of the class. */
  predicate PhonePattern(s: string)
  {
    (|s| >= 10 && AllPhoneChars(s)) || (|s| >= 11 && s[0] == '+' && AllPhoneChars(s[1..]))
  }

  /** The phone test as a single pass: a leading `+` is always taken by `\+?`,
      since `+` is not in the class. */
  function TestPhone(s: string): (b: bool)
    ensures b <==> PhonePattern(s)
  {
    var body := if s != [] && s[0] == '+' then s[1..] else s;
    |body| >= 10 && AllPhoneChars(body)
  }

  /** The required-field errors of a row for the fields in `fields`, in order. */
  function MissingErrors(row: Row, index: nat, fields: seq<string>): seq<RowError>
  {
    if fields == [] then []
    else
      var n := |fields| - 1;
      MissingErrors(row, index, fields[..n]) +
      (if IsBlank(Lookup(row, fields[n])) then [RowError(index, MissingField(fields[n]))] else [])
  }

  function PhoneErrors(row: Row, index: nat): seq<RowError>
  {
    var phone := Lookup(row, "Phone");
    if IsTruthy(phone) && !TestPhone(phone.s) then [RowError(index, InvalidPhone)] else []
  }

  /** The centre-name error of a row, checked against `allowList`. With
      `Hospitals.ValidHospitals` as the list, `Trim(center.s) !in allowList`
      is `!Hospitals.IsValidHospital(...)` and the suggestions are
      `Hospitals.GetSimilarHospitals(...)`: the same functions with the
      list as a parameter. */
  function CenterErrors(allowList: seq<string>, row: Row, index: nat): seq<RowError>
  {
    var center := Lookup(row, "Center Name");
    if IsTruthy(center) && Trim(center.s) !in allowList then
      [RowError(index, InvalidCenter(Trim(center.s), Hospitals.SuggestFrom(allowList, Trim(center.s))))]
    else []
  }

  /** The errors of one row, in the order the checks run. */
  function RowErrors(allowList: seq<string>, row: Row, index: nat): seq<RowError>
  {
    MissingErrors(row, index, RequiredFields) + PhoneErrors(row, index) + CenterErrors(allowList, row, index)
  }

  function RowCheck(allowList: seq<string>): (Row, nat) -> seq<RowError>
  {
    (row: Row, index: nat) => RowErrors(allowList, row, index)
  }

  /** The errors of all rows, row after row. */
  function AllErrors(allowList: seq<string>, rows: seq<Row>): seq<RowError>
  {
    Seqs.FlatMapIndexed(RowCheck(allowList), rows)
  }

  /** One more row adds that row's errors at the end. */
  lemma AllErrorsStep(allowList: seq<string>, data: seq<Row>, i: nat)
    requires i < |data|
    ensures AllErrors(allowList, data[..i + 1]) == AllErrors(allowList, data[..i]) + RowErrors(allowList, data[i], i)
  {
    Seqs.FlatMapStep(RowCheck(allowList), data, i);
  }

  lemma MessagesAppend(a: seq<RowError>, b: seq<RowError>)
    ensures Messages(a + b) == Messages(a) + Messages(b)
  {
  }

  lemma MessagesNone()
    ensures Messages([]) == []
  {
  }

  lemma MessagesOne(e: RowError)
    ensures Messages([e]) == [Message(e)]
  {
  }

  lemma MissingFieldText(index: nat, field: string)
    ensures Message(RowError(index, MissingField(field)))
            == "Row " + NatToString(index + 2) + ": Missing required field \"" + field + "\""
  {
  }

  lemma InvalidPhoneText(index: nat)
    ensures Message(RowError(index, InvalidPhone))
            == "Row " + NatToString(index + 2) + ": Invalid phone number format"
  {
  }

  lemma InvalidCenterText(index: nat, name: string, suggestions: seq<string>)
    ensures var base := "Row " + NatToString(index) + ": Invalid Center Name \"" + name
                        + "\". Must exactly match one of the approved hospitals.";
            Message(RowError(index, InvalidCenter(name, suggestions)))
            == if |suggestions| > 0 then base + " Did you mean: " + Join(suggestions, ", ") + "?" else base
  {
  }

  /** The `requiredFields.forEach` loop for the row at `index`: the messages
      it pushes. CheckRow passes RequiredFields. */
  method CheckRequired(row: Row, index: nat, fields: seq<string>) returns (pushed: seq<string>)
    ensures pushed == Messages(MissingErrors(row, index, fields))
  {
    pushed := [];
    for f := 0 to |fields|
      invariant pushed == Messages(MissingErrors(row, index, fields[..f]))
    {
      var field := fields[f];
      var value := Lookup(row, field);
      assert fields[..f + 1][..f] == fields[..f];
      if value.Missing? || value.s == "" || Trim(value.s) == "" {
        var msg := "Row " + NatToString(index + 2) + ": Missing required field \"" + field + "\"";
        MissingFieldText(index, field);
        MessagesOne(RowError(index, MissingField(field)));
        MessagesAppend(MissingErrors(row, index, fields[..f]), [RowError(index, MissingField(field))]);
        pushed := pushed + [msg];
      }
    }
    assert fields[..|fields|] == fields;
  }

  /** The centre-name check for the row at `index`: the message it pushes,
      if any. The allow-list is a parameter so that the proof does not
      depend on the list's contents; ValidateRequiredFields passes
      `Hospitals.ValidHospitals`, for which the membership test and the
      suggestions are `Hospitals.IsValidHospital` and
      `Hospitals.GetSimilarHospitals`. */
  method CheckCenter(allowList: seq<string>, row: Row, index: nat) returns (pushed: seq<string>)
    ensures pushed == Messages(CenterErrors(allowList, row, index))
  {
    MessagesNone();
    pushed := [];
    var center := Lookup(row, "Center Name");
    if center.Text? && center.s != "" {
      var centerName := Trim(center.s);
      if centerName !in allowList {
        var suggestions := Hospitals.SuggestFrom(allowList, centerName);
        var errorMsg := "Row " + NatToString(index) + ": Invalid Center Name \"" + centerName
                        + "\". Must exactly match one of the approved hospitals.";
        if |suggestions| > 0 {
          errorMsg := errorMsg + " Did you mean: " + Join(suggestions, ", ") + "?";
        }
        InvalidCenterText(index, centerName, suggestions);
        MessagesOne(RowError(index, InvalidCenter(centerName, suggestions)));
        pushed := [errorMsg];
      }
    }
  }

  /** The phone-format check for the row at `index`: the message it pushes, if any. */
  method CheckPhone(row: Row, index: nat) returns (pushed: seq<string>)
    ensures pushed == Messages(PhoneErrors(row, index))
  {
    pushed := [];
    var phone := Lookup(row, "Phone");
    if phone.Text? && phone.s != "" && !TestPhone(phone.s) {
      InvalidPhoneText(index);
      pushed := ["Row " + NatToString(index + 2) + ": Invalid phone number format"];
    }
    MessagesNone();
    MessagesOne(RowError(index, InvalidPhone));
  }

  /** The `forEach` callback for the row at `index`: its three checks push
      onto `errors`, in this order. */
  method CheckRow(allowList: seq<string>, row: Row, index: nat, errors: seq<string>) returns (errors': seq<string>)
    ensures errors' == errors + Messages(RowErrors(allowList, row, index))
  {
    var required := CheckRequired(row, index, RequiredFields);
    var phone := CheckPhone(row, index);
    var center := CheckCenter(allowList, row, index);
    ghost var missing := MissingErrors(row, index, RequiredFields);
    MessagesAppend(missing, PhoneErrors(row, index));
    MessagesAppend(missing + PhoneErrors(row, index), CenterErrors(allowList, row, index));
    errors' := errors + (required + phone + center);
  }

  /** validateRequiredFields: `data.forEach` over the rows, then the verdict. */
  method ValidateRequiredFields(data: seq<Row>) returns (valid: bool, errors: seq<string>)
    ensures errors == Messages(AllErrors(Hospitals.ValidHospitals, data))
    ensures valid <==> errors == []
  {
    var allowList := Hospitals.ValidHospitals;
    errors := [];
    for index := 0 to |data|
      invariant errors == Messages(AllErrors(allowList, data[..index]))
    {
      AllErrorsStep(allowList, data, index);
      MessagesAppend(AllErrors(allowList, data[..index]), RowErrors(allowList, data[index], index));
      errors := CheckRow(allowList, data[index], index, errors);
    }
    assert data[..|data|] == data;
    valid := |errors| == 0;
  }

  // ---------------------------------------------------------------------
  // What validateRequiredFields reports
  // ---------------------------------------------------------------------

  /** The required-field errors name exactly the listed fields that are blank. */
  lemma {:induction false} MissingErrorsSpec(row: Row, index: nat, fields: seq<string>, e: RowError)
    ensures e in MissingErrors(row, index, fields) <==>
            e.index == index && e.kind.MissingField? && e.kind.field in fields && IsBlank(Lookup(row, e.kind.field))
  {
    if fields != [] {
      var n := |fields| - 1;
      MissingErrorsSpec(row, index, fields[..n], e);
      assert fields == fields[..n] + [fields[n]];
    }
  }

  /** The errors of a row whose Name, Phone and Center Name cells are
      `name`, `phone` and `center`, written out check by check. */
  function CellErrors(allowList: seq<string>, index: nat, name: Cell, phone: Cell, center: Cell): seq<RowError>
  {
    (if IsBlank(name) then [RowError(index, MissingField("Name"))] else []) +
    (if IsBlank(phone) then [RowError(index, MissingField("Phone"))] else []) +
    (if IsTruthy(phone) && !PhonePattern(phone.s) then [RowError(index, InvalidPhone)] else []) +
    (if IsTruthy(center) && Trim(center.s) !in allowList
     then [RowError(index, InvalidCenter(Trim(center.s), Hospitals.SuggestFrom(allowList, Trim(center.s))))]
     else [])
  }

  /** The errors of a row are those of its three cells, in the order a
      missing Name, a missing Phone, a badly formatted Phone, an unknown centre. */
  lemma RowErrorsShape(allowList: seq<string>, row: Row, index: nat)
    ensures RowErrors(allowList, row, index) ==
            CellErrors(allowList, index, Lookup(row, "Name"), Lookup(row, "Phone"), Lookup(row, "Center Name"))
  {
    var name, phone := Lookup(row, "Name"), Lookup(row, "Phone");
    assert RequiredFields[..1] == ["Name"];
    assert RequiredFields[..1][..0] == [];
    assert MissingErrors(row, index, []) == [];
    assert MissingErrors(row, index, ["Name"]) == (if IsBlank(name) then [RowError(index, MissingField("Name"))] else []);
    assert MissingErrors(row, index, RequiredFields) ==
           (if IsBlank(name) then [RowError(index, MissingField("Name"))] else []) +
           (if IsBlank(phone) then [RowError(index, MissingField("Phone"))] else []);
  }

  /** A row reports at most four errors, all carrying its own index. */
  lemma RowErrorsBound(allowList: seq<string>, row: Row, index: nat)
    ensures |RowErrors(allowList, row, index)| <= 4
    ensures forall e :: e in RowErrors(allowList, row, index) ==> e.index == index
  {
    MissingErrorsLength(row, index, RequiredFields);
    forall e | e in MissingErrors(row, index, RequiredFields) ensures e.index == index {
      MissingErrorsSpec(row, index, RequiredFields, e);
    }
  }

  lemma {:induction false} MissingErrorsLength(row: Row, index: nat, fields: seq<string>)
    ensures |MissingErrors(row, index, fields)| <= |fields|
  {
    if fields != [] {
      MissingErrorsLength(row, index, fields[..|fields| - 1]);
    }
  }

  /** The format error is reported exactly when Phone is a non-empty string
      that the pattern rejects. */
  lemma PhoneFormatReported(allowList: seq<string>, row: Row, index: nat)
    ensures RowError(index, InvalidPhone) in RowErrors(allowList, row, index) <==>
            IsTruthy(Lookup(row, "Phone")) && !PhonePattern(Lookup(row, "Phone").s)
  {
    MissingErrorsSpec(row, index, RequiredFields, RowError(index, InvalidPhone));
  }

  /** The missing-field error for Name or Phone is reported exactly when the
      field is absent or blank after trimming. */
  lemma MissingFieldReported(allowList: seq<string>, row: Row, index: nat, field: string)
    requires field in RequiredFields
    ensures RowError(index, MissingField(field)) in RowErrors(allowList, row, index) <==> IsBlank(Lookup(row, field))
  {
    MissingErrorsSpec(row, index, RequiredFields, RowError(index, MissingField(field)));
  }

  /** A centre error is reported exactly when the centre name is a non-empty
      string whose trim is not on the allow-list; it then carries the trimmed
      name and the suggestions for it. */
  lemma CenterReported(allowList: seq<string>, row: Row, index: nat)
    ensures var center := Lookup(row, "Center Name");
            (exists e :: e in RowErrors(allowList, row, index) && e.kind.InvalidCenter?) <==>
            IsTruthy(center) && Trim(center.s) !in allowList
    ensures forall e :: e in RowErrors(allowList, row, index) && e.kind.InvalidCenter? ==>
              var name := Trim(Lookup(row, "Center Name").s);
              e.kind == InvalidCenter(name, Hospitals.SuggestFrom(allowList, name))
  {
    forall e | e in MissingErrors(row, index, RequiredFields) ensures !e.kind.InvalidCenter? {
      MissingErrorsSpec(row, index, RequiredFields, e);
    }
    var center := Lookup(row, "Center Name");
    if IsTruthy(center) && Trim(center.s) !in allowList {
      assert CenterErrors(allowList, row, index)[0] in RowErrors(allowList, row, index);
    }
  }

  /** The centre message ends with "?" exactly when it carries suggestions. */
  lemma SuggestionSuffix(index: nat, name: string, suggestions: seq<string>)
    ensures var m := Message(RowError(index, InvalidCenter(name, suggestions)));
            m[|m| - 1] == '?' <==> |suggestions| > 0
  {
  }

  /** An error belongs to the whole report exactly when it is one of the
      errors of the row its index names. */
  lemma AllErrorsMembership(allowList: seq<string>, data: seq<Row>, e: RowError)
    ensures e in AllErrors(allowList, data) <==> e.index < |data| && e in RowErrors(allowList, data[e.index], e.index)
  {
    Seqs.FlatMapMember(RowCheck(allowList), data, e);
    if e in AllErrors(allowList, data) {
      var i :| 0 <= i < |data| && e in RowCheck(allowList)(data[i], i);
      RowErrorsBound(allowList, data[i], i);
    }
    if e.index < |data| && e in RowErrors(allowList, data[e.index], e.index) {
      assert e in RowCheck(allowList)(data[e.index], e.index);
    }
  }

  /** Errors come in row order. */
  lemma AllErrorsOrdered(allowList: seq<string>, data: seq<Row>)
    ensures forall a, b :: 0 <= a < b < |AllErrors(allowList, data)| ==>
              AllErrors(allowList, data)[a].index <= AllErrors(allowList, data)[b].index
  {
    forall i | 0 <= i < |data| {
      RowErrorsBound(allowList, data[i], i);
    }
    Seqs.FlatMapOrdered(RowCheck(allowList), (e: RowError) => e.index, data);
  }

  /** The data is valid exactly when no row has an error. */
  lemma NoErrorsIffRowsClean(allowList: seq<string>, data: seq<Row>)
    ensures AllErrors(allowList, data) == [] <==> forall i :: 0 <= i < |data| ==> RowErrors(allowList, data[i], i) == []
  {
    Seqs.FlatMapEmpty(RowCheck(allowList), data);
  }

  /** A whitespace-only Phone shorter than ten characters is reported twice:
      as missing (it trims to '') and as badly formatted (it is a non-empty
      string the pattern rejects). */
  lemma ShortBlankPhoneReportedTwice(allowList: seq<string>, row: Row, index: nat)
    requires Lookup(row, "Phone").Text? && AllSpaces(Lookup(row, "Phone").s)
    requires 0 < |Lookup(row, "Phone").s| < 10
    ensures RowError(index, MissingField("Phone")) in RowErrors(allowList, row, index)
    ensures RowError(index, InvalidPhone) in RowErrors(allowList, row, index)
  {
    TrimEmptyIffAllSpaces(Lookup(row, "Phone").s);
    MissingFieldReported(allowList, row, index, "Phone");
    PhoneFormatReported(allowList, row, index);
  }

  /** A whitespace-only Phone of ten characters or more passes the pattern,
      which admits whitespace, so it is reported only as missing. */
  lemma LongBlankPhoneReportedOnce(allowList: seq<string>, row: Row, index: nat)
    requires Lookup(row, "Phone").Text? && AllSpaces(Lookup(row, "Phone").s)
    requires |Lookup(row, "Phone").s| >= 10
    ensures RowError(index, MissingField("Phone")) in RowErrors(allowList, row, index)
    ensures RowError(index, InvalidPhone) !in RowErrors(allowList, row, index)
  {
    var s := Lookup(row, "Phone").s;
    TrimEmptyIffAllSpaces(s);
    assert AllPhoneChars(s) by {
      forall i | 0 <= i < |s| ensures IsPhoneChar(s[i]) { assert IsSpace(s[i]); }
    }
    MissingFieldReported(allowList, row, index, "Phone");
    PhoneFormatReported(allowList, row, index);
  }
}
