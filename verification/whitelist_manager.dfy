/** The whitelist manager (components/UserWhitelistManager.tsx): the CSV
    import, the rule that accepts or rejects an upload, clearing the list,
    and the CSV template. */
module WhitelistManager {
  import opened Common
  import opened Strings
  import opened Types
  import opened AuthUtils
  import FormValidation

  datatype UploadStatus = Idle | Success | Failed

  /** The component state: the store it writes, the list it shows, and the
      status line. */
  datatype Manager = Manager(store: Store, shown: seq<WhitelistUser>, status: UploadStatus, message: string)

  /** The chosen file: its name and its text content. */
  datatype UploadFile = UploadFile(name: string, content: string)

  const ErrorMessage := "Error parsing file. Please check the format."

  function SuccessMessage(n: nat): string
  {
    "Successfully imported " + NatToString(n) + " users"
  }

  // ------------------------------------------------------------- CSV parsing

  /** `values.map(v => v.trim())`. */
  function TrimAll(cells: seq<string>): (r: seq<string>)
    ensures |r| == |cells|
    ensures forall i :: 0 <= i < |cells| ==> r[i] == Trim(cells[i])
  {
    seq(|cells|, i requires 0 <= i < |cells| => Trim(cells[i]))
  }

  /** `if (values[index])`: the cell exists and is not empty. */
  predicate Filled(values: seq<string>, i: nat)
  {
    i < |values| && values[i] != []
  }

  /** Column `i` is the last of the first `n` that fills its header's key. */
  predicate LastFilled(headers: seq<string>, values: seq<string>, n: nat, i: nat)
    requires i < n <= |headers|
  {
    Filled(values, i) && forall j :: i < j < n && headers[j] == headers[i] ==> !Filled(values, j)
  }

  /** The record built by the `headers.forEach` over the first `n` columns. */
  function RowFields(headers: seq<string>, values: seq<string>, n: nat): map<string, string>
    requires n <= |headers|
  {
    if n == 0 then map[]
    else
      var m := RowFields(headers, values, n - 1);
      if Filled(values, n - 1) then m[headers[n - 1] := values[n - 1]] else m
  }

  /** A key is in the record iff some column with that header has a value. */
  lemma {:induction false} RowFieldsKeys(headers: seq<string>, values: seq<string>, n: nat)
    requires n <= |headers|
    ensures forall k :: k in RowFields(headers, values, n) <==> exists i :: 0 <= i < n && headers[i] == k && Filled(values, i)
  {
    if n > 0 {
      RowFieldsKeys(headers, values, n - 1);
      var prev := RowFields(headers, values, n - 1);
      var m := RowFields(headers, values, n);
      forall k | k in m ensures exists i :: 0 <= i < n && headers[i] == k && Filled(values, i) {
        if k !in prev {
          assert headers[n - 1] == k && Filled(values, n - 1);
        }
      }
    }
  }

  /** A key holds the value of the last column with that header that has
      one: later columns overwrite earlier ones. */
  lemma {:induction false} RowFieldsLast(headers: seq<string>, values: seq<string>, n: nat)
    requires n <= |headers|
    ensures forall i :: 0 <= i < n && LastFilled(headers, values, n, i) ==>
      headers[i] in RowFields(headers, values, n) && RowFields(headers, values, n)[headers[i]] == values[i]
  {
    if n > 0 {
      RowFieldsLast(headers, values, n - 1);
      var prev := RowFields(headers, values, n - 1);
      forall i | 0 <= i < n && LastFilled(headers, values, n, i)
        ensures headers[i] in RowFields(headers, values, n) && RowFields(headers, values, n)[headers[i]] == values[i]
      {
        if i == n - 1 {
          assert RowFields(headers, values, n) == prev[headers[n - 1] := values[n - 1]];
        } else {
          assert LastFilled(headers, values, n - 1, i);
          if Filled(values, n - 1) {
            assert headers[n - 1] != headers[i];
            assert RowFields(headers, values, n) == prev[headers[n - 1] := values[n - 1]];
          } else {
            assert RowFields(headers, values, n) == prev;
          }
        }
      }
    }
  }

  /** One data line as a record. */
  function RowRecord(headers: seq<string>, line: string): WhitelistUser
  {
    var values := TrimAll(Split(line, ','));
    WhitelistUser(RowFields(headers, values, |headers|))
  }

  /** `if (user.email) users.push(user)` for one line. */
  function KeptRecord(headers: seq<string>, line: string): (r: seq<WhitelistUser>)
    ensures |r| <= 1
    ensures forall i :: 0 <= i < |r| ==> HasEmail(r[i])
  {
    var u := RowRecord(headers, line);
    if HasEmail(u) then [u] else []
  }

  /** The loop over the data lines: the records that have an e-mail, in line
      order. */
  function CsvRows(headers: seq<string>, lines: seq<string>): (users: seq<WhitelistUser>)
    ensures |users| <= |lines|
    ensures forall i :: 0 <= i < |users| ==> HasEmail(users[i])
  {
    if |lines| == 0 then []
    else KeptRecord(headers, lines[0]) + CsvRows(headers, lines[1..])
  }

  lemma {:induction false} CsvRowsConcat(headers: seq<string>, a: seq<string>, b: seq<string>)
    ensures CsvRows(headers, a + b) == CsvRows(headers, a) + CsvRows(headers, b)
  {
    if |a| == 0 {
      assert a + b == b;
    } else {
      assert (a + b)[1..] == a[1..] + b;
      CsvRowsConcat(headers, a[1..], b);
    }
  }

  /** A line whose record has no e-mail is skipped and the rest is kept; one
      with an e-mail is appended. Neither rejects the batch. */
  lemma RowWithoutEmailSkipped(headers: seq<string>, a: seq<string>, line: string)
    ensures !HasEmail(RowRecord(headers, line)) ==> CsvRows(headers, a + [line]) == CsvRows(headers, a)
    ensures HasEmail(RowRecord(headers, line)) ==> CsvRows(headers, a + [line]) == CsvRows(headers, a) + [RowRecord(headers, line)]
  {
    var u := RowRecord(headers, line);
    CsvRowsConcat(headers, a, [line]);
    assert [line][1..] == [];
    assert CsvRows(headers, [line]) == KeptRecord(headers, line);
    assert KeptRecord(headers, line) == if HasEmail(u) then [u] else [];
  }

  /** `content.split('\n').filter(line => line.trim())`. */
  function NonBlankLines(content: string): (r: seq<string>)
    ensures forall i :: 0 <= i < |r| ==> !IsBlank(r[i])
  {
    Filter(Split(content, '\n'), (l: string) => !IsBlank(l))
  }

  /** The CSV branch. With no non-blank line `lines[0].split` throws, which
      the handler reports like any other failure; otherwise the first line
      gives the keys and every later line a record, kept when it has an
      e-mail. */
  function ParseCsv(content: string): (r: Option<seq<WhitelistUser>>)
    ensures r.None? <==> NonBlankLines(content) == []
    ensures r.Some? ==> forall i :: 0 <= i < |r.value| ==> HasEmail(r.value[i])
  {
    var lines := NonBlankLines(content);
    if |lines| == 0 then None
    else Some(CsvRows(FormValidation.Normalized(Split(lines[0], ',')), lines[1..]))
  }

  // ------------------------------------------------------------ the upload

  /** `users` after the branch on the file name: CSV, JSON through the
      supplied `parseJson` (None when it throws or gives no list), or [] for
      any other name. */
  function ParsedUsers(file: UploadFile, parseJson: string -> Option<seq<WhitelistUser>>): Option<seq<WhitelistUser>>
  {
    if EndsWith(file.name, ".csv") then ParseCsv(file.content)
    else if EndsWith(file.name, ".json") then parseJson(file.content)
    else Some([])
  }

  /** `users.length > 0 && users.every(user => user.email)`. */
  predicate Acceptable(users: seq<WhitelistUser>)
  {
    |users| > 0 && forall i :: 0 <= i < |users| ==> HasEmail(users[i])
  }

  /** `handleFileUpload`: no file, nothing happens; an acceptable list
      replaces the stored whitelist wholesale and is shown; anything else
      leaves the store and the list alone and reports the error. */
  function HandleFileUpload(m: Manager, file: Option<UploadFile>, parseJson: string -> Option<seq<WhitelistUser>>): (r: Manager)
    ensures file.None? ==> r == m
    ensures file.Some? ==>
      match ParsedUsers(file.value, parseJson)
      case Some(users) =>
        if Acceptable(users) then r == Manager(SetWhitelistedUsers(m.store, users), users, Success, SuccessMessage(|users|))
        else r == m.(status := Failed, message := ErrorMessage)
      case None => r == m.(status := Failed, message := ErrorMessage)
  {
    match file
    case None => m
    case Some(f) =>
      match ParsedUsers(f, parseJson)
      case Some(users) =>
        if Acceptable(users) then Manager(SetWhitelistedUsers(m.store, users), users, Success, SuccessMessage(|users|))
        else m.(status := Failed, message := ErrorMessage)
      case None => m.(status := Failed, message := ErrorMessage)
  }

  /** An upload either succeeds and the stored whitelist becomes exactly the
      parsed list, or fails and the store is untouched. */
  lemma UploadAllOrNothing(m: Manager, f: UploadFile, parseJson: string -> Option<seq<WhitelistUser>>)
    ensures var r := HandleFileUpload(m, Some(f), parseJson);
      && (r.status == Success <==> ParsedUsers(f, parseJson).Some? && Acceptable(ParsedUsers(f, parseJson).value))
      && (r.status == Success ==> GetWhitelistedUsers(r.store) == ParsedUsers(f, parseJson).value && r.shown == GetWhitelistedUsers(r.store))
      && (r.status != Success ==> r.status == Failed && r.store == m.store && r.shown == m.shown)
  {
    var r := HandleFileUpload(m, Some(f), parseJson);
    match ParsedUsers(f, parseJson)
    case Some(users) =>
      if Acceptable(users) { WhitelistRoundTrip(m.store, users); }
    case None =>
  }

  /** A CSV file is accepted exactly when it yields at least one record: the
      rows without an e-mail were already dropped one by one. */
  lemma CsvAcceptedIffNonEmpty(m: Manager, f: UploadFile, parseJson: string -> Option<seq<WhitelistUser>>)
    requires EndsWith(f.name, ".csv")
    ensures HandleFileUpload(m, Some(f), parseJson).status == Success <==>
      ParseCsv(f.content).Some? && |ParseCsv(f.content).value| > 0
  {
  }

  /** A name ending in neither ".csv" nor ".json" yields no records and is
      rejected. */
  lemma OtherFileRejected(m: Manager, f: UploadFile, parseJson: string -> Option<seq<WhitelistUser>>)
    requires !EndsWith(f.name, ".csv") && !EndsWith(f.name, ".json")
    ensures var r := HandleFileUpload(m, Some(f), parseJson);
      r.status == Failed && r.store == m.store
  {
  }

  /** `clearWhitelist`. */
  function ClearWhitelist(m: Manager): (r: Manager)
    ensures GetWhitelistedUsers(r.store) == [] && r.shown == []
    ensures r.status == Idle && r.message == []
    ensures forall k :: k != WhitelistKey ==> (k in r.store <==> k in m.store) && (k in m.store ==> r.store[k] == m.store[k])
  {
    Manager(SetWhitelistedUsers(m.store, []), [], Idle, [])
  }

  // -------------------------------------------------------------- round trip

  /** A cell the CSV text carries unchanged: non-empty, trimmed, and free of
      both separators. */
  predicate CleanCell(c: string)
  {
    c != [] && IsTrimmed(c) && forall k :: 0 <= k < |c| ==> c[k] != ',' && c[k] != '\n'
  }

  predicate NoUpper(c: string)
  {
    forall i :: 0 <= i < |c| ==> !('A' <= c[i] <= 'Z')
  }

  /** A line whose first cell is clean is not blank. */
  lemma CleanLineNotBlank(parts: seq<string>)
    requires |parts| >= 1 && CleanCell(parts[0])
    ensures !IsBlank(Join(parts, ','))
  {
    JoinHead(parts, ',');
  }

  /** The text lines of the data rows. */
  function Lines(rows: seq<seq<string>>): (r: seq<string>)
    ensures |r| == |rows|
    ensures forall i :: 0 <= i < |rows| ==> r[i] == Join(rows[i], ',')
  {
    if |rows| == 0 then [] else [Join(rows[0], ',')] + Lines(rows[1..])
  }

  predicate CleanRow(header: seq<string>, row: seq<string>)
  {
    |row| == |header| && forall j :: 0 <= j < |row| ==> CleanCell(row[j])
  }

  /** With distinct keys and every cell filled, the record maps each key to
      the cell of its column and has no other key. */
  lemma FullRowFields(header: seq<string>, row: seq<string>)
    requires Distinct(header) && CleanRow(header, row)
    ensures var m := RowFields(header, row, |header|);
      && (forall k :: k in m <==> k in header)
      && (forall j :: 0 <= j < |header| ==> m[header[j]] == row[j])
  {
    var m := RowFields(header, row, |header|);
    RowFieldsKeys(header, row, |header|);
    RowFieldsLast(header, row, |header|);
    forall j | 0 <= j < |header| ensures header[j] in m && m[header[j]] == row[j] {
      assert LastFilled(header, row, |header|, j);
    }
    forall k | k in header ensures k in m {
      var j :| 0 <= j < |header| && header[j] == k;
    }
  }

  /** Reading back one clean data line gives its record. */
  lemma CleanLineRecord(header: seq<string>, row: seq<string>)
    requires |header| >= 1 && CleanRow(header, row)
    ensures RowRecord(header, Join(row, ',')) == WhitelistUser(RowFields(header, row, |header|))
  {
    SplitJoin(row, ',');
    forall j | 0 <= j < |row| ensures Trim(row[j]) == row[j] {
      TrimTrimmed(row[j]);
    }
    assert TrimAll(row) == row;
  }

  /** A clean data line is kept, since its e-mail cell is filled. */
  lemma CleanLineKept(header: seq<string>, row: seq<string>)
    requires |header| >= 1 && Distinct(header) && EmailField in header && CleanRow(header, row)
    ensures KeptRecord(header, Join(row, ',')) == [WhitelistUser(RowFields(header, row, |header|))]
  {
    CleanLineRecord(header, row);
    FullRowFields(header, row);
    var j :| 0 <= j < |header| && header[j] == EmailField;
    assert RowFields(header, row, |header|)[EmailField] == row[j];
  }

  /** The records the data rows should import as. */
  function Records(header: seq<string>, rows: seq<seq<string>>): (r: seq<WhitelistUser>)
    ensures |r| == |rows|
    ensures forall i :: 0 <= i < |rows| ==> r[i] == WhitelistUser(RowFields(header, rows[i], |header|))
  {
    if |rows| == 0 then [] else [WhitelistUser(RowFields(header, rows[0], |header|))] + Records(header, rows[1..])
  }

  lemma {:induction false} CleanRowsParse(header: seq<string>, rows: seq<seq<string>>)
    requires |header| >= 1 && Distinct(header) && EmailField in header
    requires forall i :: 0 <= i < |rows| ==> CleanRow(header, rows[i])
    ensures CsvRows(header, Lines(rows)) == Records(header, rows)
  {
    if |rows| > 0 {
      CleanLineKept(header, rows[0]);
      CleanRowsParse(header, rows[1..]);
    }
  }

  /** Clean, non-blank lines joined by line breaks split back into the same
      lines, none filtered out. */
  lemma CleanLinesSurvive(lines: seq<string>)
    requires |lines| >= 1
    requires forall k :: 0 <= k < |lines| ==> '\n' !in lines[k] && !IsBlank(lines[k])
    ensures NonBlankLines(Join(lines, '\n')) == lines
  {
    SplitJoin(lines, '\n');
    FilterAll(lines, (l: string) => !IsBlank(l));
  }

  /** A clean, lower-case header line reads back as its own keys. */
  lemma HeaderRoundTrip(header: seq<string>)
    requires |header| >= 1
    requires forall j :: 0 <= j < |header| ==> CleanCell(header[j]) && NoUpper(header[j])
    ensures FormValidation.Normalized(Split(Join(header, ','), ',')) == header
  {
    SplitJoin(header, ',');
    forall j | 0 <= j < |header| ensures Lower(Trim(header[j])) == header[j] {
      TrimTrimmed(header[j]);
      LowerNoUpper(header[j]);
    }
  }

  /** A clean line contains no line break and is not blank. */
  lemma CleanLine(row: seq<string>)
    requires |row| >= 1 && forall j :: 0 <= j < |row| ==> CleanCell(row[j])
    ensures '\n' !in Join(row, ',') && !IsBlank(Join(row, ','))
  {
    JoinAvoids(row, ',', '\n');
    CleanLineNotBlank(row);
  }

  /** The CSV text made of a clean header line and clean data lines parses
      back to one record per data line, each mapping the header keys to its
      cells. */
  lemma CsvRoundTrip(header: seq<string>, rows: seq<seq<string>>)
    requires |header| >= 1 && Distinct(header) && EmailField in header
    requires forall j :: 0 <= j < |header| ==> CleanCell(header[j]) && NoUpper(header[j])
    requires forall i :: 0 <= i < |rows| ==> CleanRow(header, rows[i])
    ensures ParseCsv(Join([Join(header, ',')] + Lines(rows), '\n')) == Some(Records(header, rows))
  {
    var lines := [Join(header, ',')] + Lines(rows);
    forall k | 0 <= k < |lines| ensures '\n' !in lines[k] && !IsBlank(lines[k]) {
      if k == 0 {
        CleanLine(header);
      } else {
        CleanLine(rows[k - 1]);
      }
    }
    CleanLinesSurvive(lines);
    HeaderRoundTrip(header);
    assert lines[1..] == Lines(rows);
    CleanRowsParse(header, rows);
  }
}
