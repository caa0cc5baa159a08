/** The CSV template the whitelist manager offers for download
    (components/UserWhitelistManager.tsx) and its round trip through the
    CSV import. */
module WhitelistTemplate {
  import opened Common
  import opened Strings
  import opened Types
  import opened WhitelistManager

  /** One entry of `templateData`. */
  datatype TemplateEntry = TemplateEntry(email: string, name: string, department: string)

  const John := TemplateEntry("john.doe@company.com", "John Doe", "Engineering")
  const Jane := TemplateEntry("jane.smith@company.com", "Jane Smith", "Marketing")
  const Bob := TemplateEntry("bob.wilson@company.com", "Bob Wilson", "Sales")

  function TemplateData(): seq<TemplateEntry>
  {
    [John, Jane, Bob]
  }

  const TemplateHeader: seq<string> := ["email", "name", "department"]

  /** `${user.email},${user.name},${user.department}`. */
  function TemplateLine(e: TemplateEntry): string
  {
    e.email + "," + e.name + "," + e.department
  }

  /** `templateData.map(...)`: one text line per entry. */
  function TemplateLines(data: seq<TemplateEntry>): (r: seq<string>)
    ensures |r| == |data|
    ensures forall i :: 0 <= i < |data| ==> r[i] == TemplateLine(data[i])
  {
    seq(|data|, i requires 0 <= i < |data| => TemplateLine(data[i]))
  }

  /** The downloadable text for `data`: the header line, then the entries
      joined by line breaks. */
  function TemplateText(data: seq<TemplateEntry>): string
  {
    "email,name,department\n" + Join(TemplateLines(data), '\n')
  }

  function TemplateCsv(): string
  {
    TemplateText(TemplateData())
  }

  /** The record an entry should import as. */
  function TemplateRecord(e: TemplateEntry): WhitelistUser
  {
    WhitelistUser(map["email" := e.email, "name" := e.name, "department" := e.department])
  }

  /** The records a list of entries should import as, in order. */
  function TemplateRecords(data: seq<TemplateEntry>): (r: seq<WhitelistUser>)
    ensures |r| == |data|
    ensures forall i :: 0 <= i < |data| ==> r[i] == TemplateRecord(data[i])
  {
    seq(|data|, i requires 0 <= i < |data| => TemplateRecord(data[i]))
  }

  predicate CleanEntry(e: TemplateEntry)
  {
    CleanCell(e.email) && CleanCell(e.name) && CleanCell(e.department)
  }

  function EntryRow(e: TemplateEntry): seq<string>
  {
    [e.email, e.name, e.department]
  }

  function EntryRows(data: seq<TemplateEntry>): (r: seq<seq<string>>)
    ensures |r| == |data|
    ensures forall i :: 0 <= i < |data| ==> r[i] == EntryRow(data[i])
  {
    seq(|data|, i requires 0 <= i < |data| => EntryRow(data[i]))
  }

  lemma HeaderIsClean()
    ensures Distinct(TemplateHeader) && EmailField in TemplateHeader
    ensures forall j :: 0 <= j < |TemplateHeader| ==> CleanCell(TemplateHeader[j]) && NoUpper(TemplateHeader[j])
  {
    assert CleanCell("email") && NoUpper("email");
    assert CleanCell("name") && NoUpper("name");
    assert CleanCell("department") && NoUpper("department");
  }

  /** The text is the header line and the entry lines joined by breaks. */
  lemma TemplateTextLines(data: seq<TemplateEntry>)
    requires |data| >= 1
    ensures TemplateText(data) == Join([Join(TemplateHeader, ',')] + Lines(EntryRows(data)), '\n')
  {
    assert Join(TemplateHeader, ',') == "email,name,department";
    forall i | 0 <= i < |data| ensures Lines(EntryRows(data))[i] == TemplateLines(data)[i] {
      EntryLine(data[i]);
    }
    assert Lines(EntryRows(data)) == TemplateLines(data);
  }

  lemma EntryLine(e: TemplateEntry)
    ensures Join(EntryRow(e), ',') == TemplateLine(e)
  {
    var r := EntryRow(e);
    assert r[1..] == [e.name, e.department];
    assert r[1..][1..] == [e.department];
    assert Join(r[1..], ',') == e.name + [','] + e.department;
    assert Join(r, ',') == e.email + [','] + (e.name + [','] + e.department);
  }

  /** A clean entry imports as its own record. */
  lemma EntryRecord(e: TemplateEntry)
    requires CleanEntry(e)
    ensures WhitelistUser(RowFields(TemplateHeader, EntryRow(e), |TemplateHeader|)) == TemplateRecord(e)
  {
    HeaderIsClean();
    FullRowFields(TemplateHeader, EntryRow(e));
    var m := RowFields(TemplateHeader, EntryRow(e), |TemplateHeader|);
    assert m.Keys == {"email", "name", "department"};
    assert m == TemplateRecord(e).fields;
  }

  /** Any non-empty list of clean entries, written out as the template is,
      imports back as exactly those entries, in order, with their e-mail,
      name and department. */
  lemma TemplateTextRoundTrip(data: seq<TemplateEntry>)
    requires |data| >= 1
    requires forall i :: 0 <= i < |data| ==> CleanEntry(data[i])
    ensures ParseCsv(TemplateText(data)) == Some(TemplateRecords(data))
  {
    HeaderIsClean();
    TemplateTextLines(data);
    CsvRoundTrip(TemplateHeader, EntryRows(data));
    var want := TemplateRecords(data);
    forall i | 0 <= i < |data| ensures Records(TemplateHeader, EntryRows(data))[i] == want[i] {
      EntryRecord(data[i]);
    }
    assert Records(TemplateHeader, EntryRows(data)) == want;
  }

  lemma JohnIsClean()
    ensures CleanEntry(John)
  {
    assert CleanCell("john.doe@company.com");
    assert CleanCell("John Doe");
    assert CleanCell("Engineering");
  }

  lemma JaneIsClean()
    ensures CleanEntry(Jane)
  {
    assert CleanCell("jane.smith@company.com");
    assert CleanCell("Jane Smith");
    assert CleanCell("Marketing");
  }

  lemma BobIsClean()
    ensures CleanEntry(Bob)
  {
    assert CleanCell("bob.wilson@company.com");
    assert CleanCell("Bob Wilson");
    assert CleanCell("Sales");
  }

  lemma TemplateDataClean()
    ensures forall i :: 0 <= i < |TemplateData()| ==> CleanEntry(TemplateData()[i])
  {
    forall i | 0 <= i < |TemplateData()| ensures CleanEntry(TemplateData()[i]) {
      if i == 0 { JohnIsClean(); } else if i == 1 { JaneIsClean(); } else { BobIsClean(); }
    }
  }

  /** The downloaded template, uploaded as a ".csv" file, imports its three
      entries. */
  lemma TemplateRoundTrip()
    ensures ParseCsv(TemplateCsv()) == Some([TemplateRecord(John), TemplateRecord(Jane), TemplateRecord(Bob)])
  {
    TemplateDataClean();
    TemplateTextRoundTrip(TemplateData());
    TemplateDataRecords();
  }

  lemma TemplateDataRecords()
    ensures TemplateRecords(TemplateData()) == [TemplateRecord(John), TemplateRecord(Jane), TemplateRecord(Bob)]
  {
  }
}
