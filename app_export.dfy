/*
 * The pure helpers of the web front end (app.py) and the two loops that
 * deduplicate addresses on export: the flattening of the categorized
 * records into one sheet, and the merging of several sheets.
 */
module AppExport {
  import opened Strings
  import opened Categorize

  // ---------------------------------------------------------------------
  // is_csv_file

  /** `filename.lower().endswith(('.csv', '.CSV'))`. */
  predicate IsCsvFile(filename: string) {
    EndsWith(Lower(filename), ".csv") || EndsWith(Lower(filename), ".CSV")
  }

  /** Lower-cased text has no upper-case letter, so the second suffix can
      never match. */
  lemma LowerNeverEndsUpper(filename: string)
    ensures !EndsWith(Lower(filename), ".CSV")
  {
    if |filename| >= 4 {
      var l := Lower(filename);
      assert l[|l| - 1] == LowerChar(filename[|filename| - 1]);
      assert !IsAsciiUpper(l[|l| - 1]);
      assert l[|l| - 4..][3] == l[|l| - 1];
    }
  }

  /** A file is taken as CSV exactly when its name ends in `.csv` in any
      mix of cases. */
  lemma CsvFileIff(filename: string)
    ensures IsCsvFile(filename) <==> EndsWith(Lower(filename), ".csv")
    ensures IsCsvFile(Upper(filename)) <==> IsCsvFile(filename)
  {
    LowerNeverEndsUpper(filename);
    LowerNeverEndsUpper(Upper(filename));
    LowerForgetsCase(filename);
  }

  /** `report.CsV` is a CSV file name; `report.xlsx` is not. */
  lemma CsvFileExamples(a: string, b: string)
    requires a == "report.CsV" && b == "report.xlsx"
    ensures IsCsvFile(a) && !IsCsvFile(b)
  {
    CsvFileIff(a);
    CsvFileIff(b);
    assert Lower(a)[6..] == ".csv";
    assert Lower(b)[7] == 'x';
  }

  // ---------------------------------------------------------------------
  // sanitize_filename

  /** The characters `re.sub(r'[<>:"/\\|?*]', '', ...)` removes. */
  const Forbidden: set<char> := {'<', '>', ':', '"', '/', '\\', '|', '?', '*'}

  /** `s.replace(' ', '_')`. */
  function ReplaceSpaces(s: string): (r: string)
    ensures |r| == |s|
  {
    seq(|s|, i requires 0 <= i < |s| => if s[i] == ' ' then '_' else s[i])
  }

  /** `sanitize_filename`: the forbidden characters are deleted, then each
      space becomes `_`. */
  function SanitizeFilename(filename: string): string {
    ReplaceSpaces(Without(filename, Forbidden))
  }

  /** What one character becomes. */
  function SanitizeChar(c: char): string {
    if c in Forbidden then "" else if c == ' ' then "_" else [c]
  }

  lemma ReplaceSpacesAppend(a: string, b: string)
    ensures ReplaceSpaces(a + b) == ReplaceSpaces(a) + ReplaceSpaces(b)
  {
  }

  /** The file name is sanitized one character at a time: each forbidden
      character disappears, each space becomes `_`, and every other
      character is kept, in order. */
  lemma {:induction false} SanitizeByCharacter(filename: string)
    ensures filename == [] ==> SanitizeFilename(filename) == []
    ensures filename != [] ==>
      SanitizeFilename(filename) == SanitizeChar(filename[0]) + SanitizeFilename(filename[1..])
  {
    if filename != [] {
      var c := filename[0];
      var head := if c in Forbidden then [] else [c];
      assert Without(filename, Forbidden) == head + Without(filename[1..], Forbidden);
      ReplaceSpacesAppend(head, Without(filename[1..], Forbidden));
    }
  }

  /** A sanitized name has no forbidden character and no space, and is no
      longer than the original. */
  lemma {:induction false} SanitizeClean(filename: string)
    ensures |SanitizeFilename(filename)| <= |filename|
    ensures forall c :: c in SanitizeFilename(filename) ==> c !in Forbidden && c != ' '
    decreases |filename|
  {
    SanitizeByCharacter(filename);
    if filename != [] {
      SanitizeClean(filename[1..]);
    }
  }

  /** A name with no forbidden character and no space is its own
      sanitized form, and only such a name is. */
  lemma {:induction false} SanitizeFixedPoint(filename: string)
    ensures SanitizeFilename(filename) == filename <==>
      forall c :: c in filename ==> c !in Forbidden && c != ' '
    decreases |filename|
  {
    SanitizeClean(filename);
    SanitizeByCharacter(filename);
    if filename != [] {
      SanitizeFixedPoint(filename[1..]);
      var c := filename[0];
      if forall d :: d in filename ==> d !in Forbidden && d != ' ' {
        assert forall d :: d in filename[1..] ==> d in filename;
      }
    }
  }

  /** Sanitizing twice is sanitizing once. */
  lemma SanitizeIdempotent(filename: string)
    ensures SanitizeFilename(SanitizeFilename(filename)) == SanitizeFilename(filename)
  {
    SanitizeClean(filename);
    SanitizeFixedPoint(SanitizeFilename(filename));
  }

  // ---------------------------------------------------------------------
  // extract_company_name

  /** `email.split('@')[1].split('.')[0]`, and `''` when there is no `@`
      (the `IndexError` is caught). */
  function ExtractCompanyName(email: string): string {
    var at := FirstIndexOf(email, '@');
    if at == |email| then ""
    else
      var domain := email[at + 1..];
      var piece := domain[..FirstIndexOf(domain, '@')];
      piece[..FirstIndexOf(piece, '.')]
  }

  lemma PrefixAvoids(s: string, k: nat, c: char)
    requires c !in s && k <= |s|
    ensures c !in s[..k]
  {
    assert forall i :: 0 <= i < k ==> s[..k][i] == s[i];
  }

  /** The company is empty when there is no `@`, and never holds `@` or
      `.`. */
  lemma CompanyNameChars(email: string)
    ensures '@' !in email ==> ExtractCompanyName(email) == ""
    ensures '@' !in ExtractCompanyName(email) && '.' !in ExtractCompanyName(email)
  {
    var at := FirstIndexOf(email, '@');
    if at < |email| {
      var domain := email[at + 1..];
      var piece := domain[..FirstIndexOf(domain, '@')];
      PrefixAvoids(piece, FirstIndexOf(piece, '.'), '@');
    } else {
      FirstIndexOfFound(email, '@');
    }
  }

  /** The company is the text right after the first `@`, up to the next
      `@` or `.` or the end. */
  lemma CompanyNamePlace(email: string, at: nat, r: string)
    requires '@' in email && at == FirstIndexOf(email, '@') && r == ExtractCompanyName(email)
    ensures at + 1 + |r| <= |email| && email[at + 1..at + 1 + |r|] == r
    ensures at + 1 + |r| == |email| || email[at + 1 + |r|] in {'@', '.'}
  {
    FirstIndexOfFound(email, '@');
    var domain := email[at + 1..];
    var j := FirstIndexOf(domain, '@');
    var piece := domain[..j];
    var i := FirstIndexOf(piece, '.');
    CompanyNameUnfold(email, at, domain, j, piece, i);
    CompanySlice(email, at, domain, j, piece, i, r);
  }

  lemma CompanyNameUnfold(email: string, at: nat, domain: string, j: nat, piece: string, i: nat)
    requires at < |email| && at == FirstIndexOf(email, '@') && domain == email[at + 1..]
    requires j == FirstIndexOf(domain, '@') && piece == domain[..j] && i == FirstIndexOf(piece, '.')
    ensures ExtractCompanyName(email) == piece[..i]
  {
  }

  lemma CompanySlice(email: string, at: nat, domain: string, j: nat, piece: string, i: nat, r: string)
    requires at < |email| && domain == email[at + 1..] && j == FirstIndexOf(domain, '@')
    requires piece == domain[..j] && i == FirstIndexOf(piece, '.') && r == piece[..i]
    ensures at + 1 + |r| <= |email| && email[at + 1..at + 1 + |r|] == r
    ensures at + 1 + |r| == |email| || email[at + 1 + |r|] in {'@', '.'}
  {
    assert |r| == i;
    assert r == domain[..i];
    if i < |piece| {
      assert email[at + 1 + i] == piece[i];
    } else if j < |domain| {
      assert email[at + 1 + i] == domain[j];
    }
  }

  /** The company of `local@company.rest` is `company`. */
  lemma CompanyNameOf(local: string, company: string, rest: string)
    requires '@' !in local && '@' !in company && '.' !in company
    ensures ExtractCompanyName(local + "@" + company + "." + rest) == company
  {
    var email := local + "@" + company + "." + rest;
    FirstIndexOfIs(email, '@', |local|);
    var domain := email[|local| + 1..];
    assert domain == company + "." + rest;
    var k := FirstIndexOf(domain, '@');
    assert k >= |company|;
    var piece := domain[..k];
    assert piece[|company|] == '.';
    FirstIndexOfIs(piece, '.', |company|);
  }

  /** `user@acme.com` gives `acme`. */
  lemma CompanyNameExample(email: string, company: string)
    requires email == "user@acme.com" && company == "acme"
    ensures ExtractCompanyName(email) == company
  {
    assert email == "user" + "@" + company + "." + "com";
    CompanyNameOf("user", company, "com");
  }

  // ---------------------------------------------------------------------
  // extract_name_from_text

  /** The labels `extract_name_from_text` removes, in the order it tests
      them. */
  const NamePrefixes: seq<string> := [
    "To:", "Cc:", "From:", "Gönderen:", "Gönderen :",
    "To :", "Cc :", "From :", ";", "Bilgi:", "Bilgi :"
  ]

  /** `extract_name_from_text`: the text before the first `<`, stripped,
      then each listed label in turn cut off the front (and the rest
      stripped) when it is there. */
  function NameFromText(text: string): string {
    StripListedPrefixes(Strip(text[..FirstIndexOf(text, '<')]), NamePrefixes)
  }

  /** `extract_name_from_text`, with its prefix loop. */
  method ExtractNameFromText(text: string) returns (name: string)
    ensures name == NameFromText(text)
  {
    name := Strip(text[..FirstIndexOf(text, '<')]);
    name := StripPrefixes(name, NamePrefixes);
  }

  /** The name is trimmed, has no `<`, and is a tail of the text before
      the first `<`. */
  lemma NameFromTextShape(text: string)
    ensures Trimmed(NameFromText(text)) && '<' !in NameFromText(text)
    ensures EndsWith(Strip(text[..FirstIndexOf(text, '<')]), NameFromText(text))
  {
    var head := Strip(text[..FirstIndexOf(text, '<')]);
    StripListedPrefixesTail(head, NamePrefixes);
    var r := NameFromText(text);
    assert forall c :: c in r ==> c in head by {
      assert r == head[|head| - |r|..];
    }
  }

  /** The display text built for each record, `name <email>`, gives its
      name back, provided the name is trimmed, has no `<`, and starts with
      none of the labels. */
  lemma NameRoundTrip(name: string, email: string)
    requires Trimmed(name) && '<' !in name
    requires forall k :: 0 <= k < |NamePrefixes| ==> !StartsWith(name, NamePrefixes[k])
    ensures NameFromText(name + " <" + email + ">") == name
  {
    var text := name + " <" + email + ">";
    DisplayHead(name, email, text);
    StripListedPrefixesNone(name, NamePrefixes);
  }

  /** The stripped text before the `<` of `name <email>` is `name`. */
  lemma DisplayHead(name: string, email: string, text: string)
    requires Trimmed(name) && '<' !in name && text == name + " <" + email + ">"
    ensures Strip(text[..FirstIndexOf(text, '<')]) == name
  {
    FirstIndexOfIs(text, '<', |name| + 1);
    assert text[..|name| + 1] == name + " ";
    if name != [] {
      StripPadded(name, "", " ");
      assert "" + name + " " == name + " ";
    } else {
      assert Strip(" ") == [];
    }
  }

  // ---------------------------------------------------------------------
  // The flattening loop of process_file (app.py:187-204).

  /** One line of the exported sheet. */
  datatype ExportRow = ExportRow(category: Category, email: string, company: string, name: string)

  /** A category's records, each tagged with the category. */
  function Tagged(c: Category, rs: seq<EmailRecord>): (r: seq<(Category, EmailRecord)>)
    ensures |r| == |rs|
    ensures forall i :: 0 <= i < |rs| ==> r[i] == (c, rs[i])
  {
    seq(|rs|, i requires 0 <= i < |rs| => (c, rs[i]))
  }

  /** The records of the categories in `cats` present in `data`, in that
      order. */
  function Listed(data: map<Category, seq<EmailRecord>>, cats: seq<Category>): seq<(Category, EmailRecord)> {
    if cats == [] then []
    else
      var c := cats[|cats| - 1];
      Listed(data, cats[..|cats| - 1]) + (if c in data then Tagged(c, data[c]) else [])
  }

  /** The sheet line for a record of category `c`. */
  function ExportOf(item: (Category, EmailRecord)): ExportRow {
    ExportRow(item.0, item.1.email, ExtractCompanyName(item.1.email), NameFromText(item.1.originalText))
  }

  function RowEmails(rows: seq<ExportRow>): set<string> {
    set k | 0 <= k < |rows| :: rows[k].email
  }

  /** The records in order, each address exported once: a record whose
      address was already exported is passed over. */
  function FlattenItems(items: seq<(Category, EmailRecord)>): seq<ExportRow> {
    if items == [] then []
    else
      var prev := FlattenItems(items[..|items| - 1]);
      var item := items[|items| - 1];
      if item.1.email in RowEmails(prev) then prev else prev + [ExportOf(item)]
  }

  /** The exported sheet: categories in the order Kimden, Kime, Bilgi,
      Gizli, records in list order. */
  function Flattened(data: map<Category, seq<EmailRecord>>): seq<ExportRow> {
    FlattenItems(Listed(data, Categories))
  }

  lemma RowEmailsAppend(rows: seq<ExportRow>, row: ExportRow)
    ensures RowEmails(rows + [row]) == RowEmails(rows) + {row.email}
  {
    var all := rows + [row];
    assert all[|rows|].email == row.email;
    forall e | e in RowEmails(rows) ensures e in RowEmails(all) {
      var k :| 0 <= k < |rows| && rows[k].email == e;
      assert all[k].email == e;
    }
  }

  lemma ListedStep(data: map<Category, seq<EmailRecord>>, cats: seq<Category>, c: Category)
    ensures Listed(data, cats + [c]) == Listed(data, cats) + (if c in data then Tagged(c, data[c]) else [])
  {
    assert (cats + [c])[..|cats|] == cats;
  }

  lemma TaggedStep(c: Category, rs: seq<EmailRecord>, k: nat)
    requires k < |rs|
    ensures Tagged(c, rs[..k + 1]) == Tagged(c, rs[..k]) + [(c, rs[k])]
  {
  }

  lemma AppendAssoc<T>(a: seq<T>, b: seq<T>, x: T)
    ensures a + (b + [x]) == (a + b) + [x]
  {
  }

  lemma FlattenItemsStep(items: seq<(Category, EmailRecord)>, item: (Category, EmailRecord))
    ensures FlattenItems(items + [item]) ==
      if item.1.email in RowEmails(FlattenItems(items)) then FlattenItems(items)
      else FlattenItems(items) + [ExportOf(item)]
  {
    assert (items + [item])[..|items|] == items;
  }

  /** The flattening loop. */
  method Flatten(data: map<Category, seq<EmailRecord>>) returns (allData: seq<ExportRow>)
    ensures allData == Flattened(data)
  {
    allData := [];
    var seen: set<string> := {};
    ghost var items: seq<(Category, EmailRecord)> := [];
    for ci := 0 to |Categories|
      invariant items == Listed(data, Categories[..ci])
      invariant allData == FlattenItems(items)
      invariant seen == RowEmails(allData)
    {
      var category := Categories[ci];
      assert Categories[..ci + 1] == Categories[..ci] + [category];
      ListedStep(data, Categories[..ci], category);
      if category in data {
        var records := data[category];
        ghost var before := items;
        for k := 0 to |records|
          invariant items == before + Tagged(category, records[..k])
          invariant allData == FlattenItems(items)
          invariant seen == RowEmails(allData)
        {
          var email := records[k].email;
          TaggedStep(category, records, k);
          AppendAssoc(before, Tagged(category, records[..k]), (category, records[k]));
          FlattenItemsStep(items, (category, records[k]));
          items := items + [(category, records[k])];
          if email !in seen {
            seen := seen + {email};
            var name := ExtractNameFromText(records[k].originalText);
            var row := ExportRow(category, email, ExtractCompanyName(email), name);
            RowEmailsAppend(allData, row);
            allData := allData + [row];
          }
        }
        assert records[..|records|] == records;
      }
    }
    assert Categories[..|Categories|] == Categories;
  }

  /** Whether item `n` is the first with its address. */
  predicate FirstItem(items: seq<(Category, EmailRecord)>, n: nat)
    requires n < |items|
  {
    forall m :: 0 <= m < n ==> items[m].1.email != items[n].1.email
  }

  function ItemEmails(items: seq<(Category, EmailRecord)>): set<string> {
    set k | 0 <= k < |items| :: items[k].1.email
  }

  lemma ItemEmailsAppend(items: seq<(Category, EmailRecord)>, item: (Category, EmailRecord))
    ensures ItemEmails(items + [item]) == ItemEmails(items) + {item.1.email}
  {
    var all := items + [item];
    assert all[|items|].1.email == item.1.email;
    forall e | e in ItemEmails(all) ensures e in ItemEmails(items) + {item.1.email} {
      var k :| 0 <= k < |all| && all[k].1.email == e;
      if k < |items| {
        assert items[k].1.email == e;
      }
    }
    forall e | e in ItemEmails(items) ensures e in ItemEmails(all) {
      var k :| 0 <= k < |items| && items[k].1.email == e;
      assert all[k].1.email == e;
    }
  }

  /** Every address among the records is exported, and no other. */
  lemma {:induction false} FlattenItemsEmails(items: seq<(Category, EmailRecord)>)
    ensures RowEmails(FlattenItems(items)) == ItemEmails(items)
    decreases |items|
  {
    if items != [] {
      var init := items[..|items| - 1];
      var item := items[|items| - 1];
      assert items == init + [item];
      FlattenItemsEmails(init);
      FlattenItemsStep(init, item);
      ItemEmailsAppend(init, item);
      if item.1.email !in RowEmails(FlattenItems(init)) {
        RowEmailsAppend(FlattenItems(init), ExportOf(item));
      }
    }
  }

  predicate DistinctRows(rows: seq<ExportRow>) {
    forall i, j :: 0 <= i < j < |rows| ==> rows[i].email != rows[j].email
  }

  /** No address is exported twice. */
  lemma {:induction false} FlattenItemsDistinct(items: seq<(Category, EmailRecord)>)
    ensures DistinctRows(FlattenItems(items))
    decreases |items|
  {
    if items != [] {
      var init := items[..|items| - 1];
      var item := items[|items| - 1];
      assert items == init + [item];
      FlattenItemsDistinct(init);
      FlattenItemsStep(init, item);
      var prev := FlattenItems(init);
      if item.1.email !in RowEmails(prev) {
        DistinctAppend(prev, ExportOf(item));
      }
    }
  }

  lemma DistinctAppend(rows: seq<ExportRow>, row: ExportRow)
    requires DistinctRows(rows) && row.email !in RowEmails(rows)
    ensures DistinctRows(rows + [row])
  {
    forall k | 0 <= k < |rows| ensures rows[k].email != row.email {
      assert rows[k].email in RowEmails(rows);
    }
  }

  /** `row` is the export of the first record carrying its address. */
  predicate ExportedFirst(items: seq<(Category, EmailRecord)>, row: ExportRow) {
    exists n :: 0 <= n < |items| && FirstItem(items, n) && row == ExportOf(items[n])
  }

  /** Each exported line is the export of the first record carrying its
      address. */
  lemma {:induction false} FlattenItemsFirst(items: seq<(Category, EmailRecord)>)
    ensures forall k :: 0 <= k < |FlattenItems(items)| ==> ExportedFirst(items, FlattenItems(items)[k])
    decreases |items|
  {
    if items != [] {
      var init := items[..|items| - 1];
      var item := items[|items| - 1];
      assert items == init + [item];
      FlattenItemsFirst(init);
      FlattenItemsEmails(init);
      FlattenItemsStep(init, item);
      ExportedFirstStep(init, item, FlattenItems(init), FlattenItems(items));
    }
  }

  lemma ExportedFirstStep(init: seq<(Category, EmailRecord)>, item: (Category, EmailRecord), prev: seq<ExportRow>, rows: seq<ExportRow>)
    requires forall k :: 0 <= k < |prev| ==> ExportedFirst(init, prev[k])
    requires RowEmails(prev) == ItemEmails(init)
    requires rows == if item.1.email in RowEmails(prev) then prev else prev + [ExportOf(item)]
    ensures forall k :: 0 <= k < |rows| ==> ExportedFirst(init + [item], rows[k])
  {
    forall k | 0 <= k < |rows| ensures ExportedFirst(init + [item], rows[k]) {
      if k < |prev| {
        FirstItemsKept(init, item, prev[k]);
      } else {
        FirstItemLast(init, item);
        assert (init + [item])[|init|] == item;
      }
    }
  }

  lemma FirstItemsKept(init: seq<(Category, EmailRecord)>, item: (Category, EmailRecord), row: ExportRow)
    requires ExportedFirst(init, row)
    ensures ExportedFirst(init + [item], row)
  {
    var items := init + [item];
    var n :| 0 <= n < |init| && FirstItem(init, n) && row == ExportOf(init[n]);
    assert items[n] == init[n];
    assert FirstItem(items, n);
  }

  lemma FirstItemLast(init: seq<(Category, EmailRecord)>, item: (Category, EmailRecord))
    requires item.1.email !in ItemEmails(init)
    ensures FirstItem(init + [item], |init|)
  {
    var items := init + [item];
    forall m | 0 <= m < |init| ensures items[m].1.email != item.1.email {
      assert items[m] == init[m];
      assert init[m].1.email in ItemEmails(init);
    }
  }

  /** The export lines of a category table: one per distinct address,
      taken from the first category (in the order Kimden, Kime, Bilgi,
      Gizli) and first record carrying it, with the company taken from the
      address and the name from the display text. */
  lemma FlattenedShape(data: map<Category, seq<EmailRecord>>)
    ensures RowEmails(Flattened(data)) == ItemEmails(Listed(data, Categories))
    ensures forall i, j :: 0 <= i < j < |Flattened(data)| ==> Flattened(data)[i].email != Flattened(data)[j].email
    ensures forall k :: 0 <= k < |Flattened(data)| ==>
      Flattened(data)[k].company == ExtractCompanyName(Flattened(data)[k].email)
  {
    var items := Listed(data, Categories);
    FlattenItemsEmails(items);
    FlattenItemsDistinct(items);
    FlattenItemsFirst(items);
    forall k | 0 <= k < |Flattened(data)|
      ensures Flattened(data)[k].company == ExtractCompanyName(Flattened(data)[k].email)
    {
      assert ExportedFirst(items, Flattened(data)[k]);
    }
  }

  // ---------------------------------------------------------------------
  // The row loop of merge_excel (app.py:322-331).

  /** One uploaded sheet: the column chosen as the address column and the
      rows, each a map from column name to cell text. */
  datatype Sheet = Sheet(emailColumn: string, rows: seq<Row>)

  /** A kept line: the normalised address and the other columns. */
  datatype MergedRow = MergedRow(email: string, others: map<string, string>)

  /** `str(row[email_column]).strip().lower()`. */
  function MergeKey(row: Row, column: string): string {
    Lower(Strip(Cell(row, column)))
  }

  /** Every column of the row but the address column. */
  function OtherColumns(row: Row, column: string): map<string, string> {
    map k | k in row && k != column :: row[k]
  }

  function MergedEmails(rows: seq<MergedRow>): set<string> {
    set k | 0 <= k < |rows| :: rows[k].email
  }

  /** A sheet's rows, each with the sheet's address column. */
  function SheetRows(s: Sheet): (r: seq<(Row, string)>)
    ensures |r| == |s.rows|
    ensures forall i :: 0 <= i < |r| ==> r[i] == (s.rows[i], s.emailColumn)
  {
    seq(|s.rows|, i requires 0 <= i < |s.rows| => (s.rows[i], s.emailColumn))
  }

  /** The rows of the sheets one after the other; the set of kept
      addresses is shared by all sheets. */
  function SheetItems(sheets: seq<Sheet>): seq<(Row, string)> {
    if sheets == [] then []
    else SheetItems(sheets[..|sheets| - 1]) + SheetRows(sheets[|sheets| - 1])
  }

  /** The line kept for a row: its normalised address and its other
      columns. */
  function MergedOf(item: (Row, string)): MergedRow {
    MergedRow(MergeKey(item.0, item.1), OtherColumns(item.0, item.1))
  }

  /** `f` applied to each element, in order. */
  function MapSeq<A, B>(f: A -> B, xs: seq<A>): (r: seq<B>)
    ensures |r| == |xs|
    ensures forall i :: 0 <= i < |xs| ==> r[i] == f(xs[i])
  {
    seq(|xs|, i requires 0 <= i < |xs| => f(xs[i]))
  }

  lemma MapSeqAppend<A, B>(f: A -> B, xs: seq<A>, x: A)
    ensures MapSeq(f, xs + [x]) == MapSeq(f, xs) + [f(x)]
  {
    assert MapSeq(f, xs + [x])[|xs|] == f(x);
    forall i | 0 <= i < |xs| ensures MapSeq(f, xs + [x])[i] == MapSeq(f, xs)[i] {
      assert (xs + [x])[i] == xs[i];
    }
  }

  /** The line each row would give, in row order. */
  function MergeCandidates(items: seq<(Row, string)>): (r: seq<MergedRow>)
    ensures |r| == |items|
    ensures forall i :: 0 <= i < |items| ==> r[i] == MergedOf(items[i])
  {
    MapSeq(MergedOf, items)
  }

  /** A line is kept when its address contains `@` and no line kept
      before has it. */
  function KeepFirst(rows: seq<MergedRow>): seq<MergedRow> {
    if rows == [] then []
    else
      var prev := KeepFirst(rows[..|rows| - 1]);
      var row := rows[|rows| - 1];
      if '@' in row.email && row.email !in MergedEmails(prev) then prev + [row]
      else prev
  }

  /** The lines kept from the rows. */
  function MergeItems(items: seq<(Row, string)>): seq<MergedRow> {
    KeepFirst(MergeCandidates(items))
  }

  lemma MergedEmailsAppend(rows: seq<MergedRow>, row: MergedRow)
    ensures MergedEmails(rows + [row]) == MergedEmails(rows) + {row.email}
  {
    var all := rows + [row];
    assert all[|rows|].email == row.email;
    forall e | e in MergedEmails(rows) ensures e in MergedEmails(all) {
      var k :| 0 <= k < |rows| && rows[k].email == e;
      assert all[k].email == e;
    }
  }

  lemma SheetItemsStep(sheets: seq<Sheet>, s: Sheet)
    ensures SheetItems(sheets + [s]) == SheetItems(sheets) + SheetRows(s)
  {
    assert (sheets + [s])[..|sheets|] == sheets;
  }

  lemma SheetItemsPrefix(sheets: seq<Sheet>, f: nat)
    requires f < |sheets|
    ensures SheetItems(sheets[..f + 1]) == SheetItems(sheets[..f]) + SheetRows(sheets[f])
  {
    assert sheets[..f + 1] == sheets[..f] + [sheets[f]];
    SheetItemsStep(sheets[..f], sheets[f]);
  }

  lemma SheetRowsStep(s: Sheet, k: nat)
    requires k < |s.rows|
    ensures SheetRows(s)[..k + 1] == SheetRows(s)[..k] + [(s.rows[k], s.emailColumn)]
  {
  }

  lemma MergeCandidatesAppend(items: seq<(Row, string)>, item: (Row, string))
    ensures MergeCandidates(items + [item]) == MergeCandidates(items) + [MergedOf(item)]
  {
    MapSeqAppend(MergedOf, items, item);
  }

  lemma KeepFirstStep(rows: seq<MergedRow>, row: MergedRow)
    ensures KeepFirst(rows + [row]) ==
      if '@' in row.email && row.email !in MergedEmails(KeepFirst(rows)) then KeepFirst(rows) + [row]
      else KeepFirst(rows)
  {
    assert (rows + [row])[..|rows|] == rows;
  }

  /** One more row: its line is kept when its address has an `@` and has
      not been kept. */
  lemma MergeItemsStep(items: seq<(Row, string)>, item: (Row, string), email: string)
    requires email == MergeKey(item.0, item.1)
    ensures MergeItems(items + [item]) ==
      if '@' in email && email !in MergedEmails(MergeItems(items)) then MergeItems(items) + [MergedOf(item)]
      else MergeItems(items)
  {
    MergeCandidatesAppend(items, item);
    KeepFirstStep(MergeCandidates(items), MergedOf(item));
  }

  /** The loop over the uploaded sheets. */
  method MergeSheets(sheets: seq<Sheet>) returns (allData: seq<MergedRow>)
    ensures allData == MergeItems(SheetItems(sheets))
  {
    allData := [];
    var allEmails: set<string> := {};
    ghost var items: seq<(Row, string)> := [];
    assert sheets[..0] == [];
    for f := 0 to |sheets|
      invariant items == SheetItems(sheets[..f])
      invariant allData == MergeItems(items)
      invariant allEmails == MergedEmails(allData)
    {
      var sheet := sheets[f];
      SheetItemsPrefix(sheets, f);
      allData, allEmails := MergeSheetRows(sheet, allData, allEmails, items);
      items := items + SheetRows(sheet);
    }
    assert sheets[..|sheets|] == sheets;
  }

  /** The loop over one sheet's rows, after the rows `items` of the
      earlier sheets. */
  method MergeSheetRows(sheet: Sheet, data: seq<MergedRow>, emails: set<string>, ghost items: seq<(Row, string)>)
    returns (allData: seq<MergedRow>, allEmails: set<string>)
    requires data == MergeItems(items) && emails == MergedEmails(data)
    ensures allData == MergeItems(items + SheetRows(sheet))
    ensures allEmails == MergedEmails(allData)
  {
    allData, allEmails := data, emails;
    assert items + SheetRows(sheet)[..0] == items;
    for k := 0 to |sheet.rows|
      invariant allData == MergeItems(items + SheetRows(sheet)[..k])
      invariant allEmails == MergedEmails(allData)
    {
      var row := sheet.rows[k];
      var email := MergeKey(row, sheet.emailColumn);
      var line := MergedRow(email, OtherColumns(row, sheet.emailColumn));
      ghost var done := items + SheetRows(sheet)[..k];
      assert MergeItems(items + SheetRows(sheet)[..k + 1]) ==
        if '@' in email && email !in MergedEmails(allData) then allData + [line] else allData
      by {
        SheetRowsStep(sheet, k);
        AppendAssoc(items, SheetRows(sheet)[..k], (row, sheet.emailColumn));
        MergeItemsStep(done, (row, sheet.emailColumn), email);
      }
      if '@' in email && email !in allEmails {
        MergedEmailsAppend(allData, line);
        allEmails := allEmails + {email};
        allData := allData + [line];
      }
    }
    assert SheetRows(sheet)[..|sheet.rows|] == SheetRows(sheet);
  }

  /** The addresses with an `@` among the lines. */
  function AtEmails(rows: seq<MergedRow>): set<string> {
    set n | 0 <= n < |rows| && '@' in rows[n].email :: rows[n].email
  }

  lemma AtEmailsAppend(rows: seq<MergedRow>, row: MergedRow)
    ensures AtEmails(rows + [row]) == AtEmails(rows) + (if '@' in row.email then {row.email} else {})
  {
    var all := rows + [row];
    assert all[|rows|] == row;
    forall e | e in AtEmails(all) ensures e in AtEmails(rows) + (if '@' in row.email then {row.email} else {}) {
      var n :| 0 <= n < |all| && '@' in all[n].email && all[n].email == e;
      if n < |rows| {
        assert all[n] == rows[n];
      }
    }
    forall e | e in AtEmails(rows) ensures e in AtEmails(all) {
      var n :| 0 <= n < |rows| && '@' in rows[n].email && rows[n].email == e;
      assert all[n] == rows[n];
    }
  }

  lemma {:induction false} KeepFirstEmails(rows: seq<MergedRow>)
    ensures MergedEmails(KeepFirst(rows)) == AtEmails(rows)
    decreases |rows|
  {
    if rows != [] {
      var init := rows[..|rows| - 1];
      var row := rows[|rows| - 1];
      assert rows == init + [row];
      KeepFirstEmails(init);
      KeepFirstStep(init, row);
      AtEmailsAppend(init, row);
      if '@' in row.email && row.email !in MergedEmails(KeepFirst(init)) {
        MergedEmailsAppend(KeepFirst(init), row);
      }
    }
  }

  /** The normalised addresses with an `@` among the rows. */
  function KeyEmails(items: seq<(Row, string)>): set<string> {
    set n | 0 <= n < |items| && '@' in MergeKey(items[n].0, items[n].1) :: MergeKey(items[n].0, items[n].1)
  }

  lemma KeyEmailsAre(items: seq<(Row, string)>)
    ensures KeyEmails(items) == AtEmails(MergeCandidates(items))
  {
    var rows := MergeCandidates(items);
    forall e | e in KeyEmails(items) ensures e in AtEmails(rows) {
      var n :| 0 <= n < |items| && '@' in MergeKey(items[n].0, items[n].1) && MergeKey(items[n].0, items[n].1) == e;
      assert rows[n].email == e;
    }
    forall e | e in AtEmails(rows) ensures e in KeyEmails(items) {
      var n :| 0 <= n < |rows| && '@' in rows[n].email && rows[n].email == e;
      assert rows[n].email == MergeKey(items[n].0, items[n].1);
    }
  }

  /** The kept addresses are exactly the normalised addresses with an `@`
      among the rows. */
  lemma MergeItemsEmails(items: seq<(Row, string)>)
    ensures MergedEmails(MergeItems(items)) == KeyEmails(items)
  {
    KeepFirstEmails(MergeCandidates(items));
    KeyEmailsAre(items);
  }

  predicate DistinctMerged(rows: seq<MergedRow>) {
    forall i, j :: 0 <= i < j < |rows| ==> rows[i].email != rows[j].email
  }

  lemma {:induction false} KeepFirstDistinct(rows: seq<MergedRow>)
    ensures DistinctMerged(KeepFirst(rows))
    decreases |rows|
  {
    if rows != [] {
      var init := rows[..|rows| - 1];
      var row := rows[|rows| - 1];
      assert rows == init + [row];
      KeepFirstDistinct(init);
      KeepFirstStep(init, row);
      var prev := KeepFirst(init);
      if '@' in row.email && row.email !in MergedEmails(prev) {
        forall k | 0 <= k < |prev| ensures prev[k].email != row.email {
          assert prev[k].email in MergedEmails(prev);
        }
      }
    }
  }

  /** No address is kept twice. */
  lemma MergeItemsDistinct(items: seq<(Row, string)>)
    ensures forall i, j :: 0 <= i < j < |MergeItems(items)| ==> MergeItems(items)[i].email != MergeItems(items)[j].email
  {
    KeepFirstDistinct(MergeCandidates(items));
  }

  /** Whether line `n` is the first with its address. */
  predicate FirstEmail(rows: seq<MergedRow>, n: nat)
    requires n < |rows|
  {
    forall m :: 0 <= m < n ==> rows[m].email != rows[n].email
  }

  /** `row` is the first line carrying its address, and that address has
      an `@`. */
  predicate KeptFirst(rows: seq<MergedRow>, row: MergedRow) {
    exists n :: 0 <= n < |rows| && FirstEmail(rows, n) && '@' in row.email && row == rows[n]
  }

  lemma {:induction false} KeepFirstFirst(rows: seq<MergedRow>)
    ensures forall k :: 0 <= k < |KeepFirst(rows)| ==> KeptFirst(rows, KeepFirst(rows)[k])
    decreases |rows|
  {
    if rows != [] {
      var init := rows[..|rows| - 1];
      var row := rows[|rows| - 1];
      assert rows == init + [row];
      KeepFirstFirst(init);
      KeepFirstEmails(init);
      KeepFirstStep(init, row);
      KeptFirstStep(init, row, KeepFirst(init), KeepFirst(rows));
    }
  }

  lemma KeptFirstStep(init: seq<MergedRow>, row: MergedRow, prev: seq<MergedRow>, kept: seq<MergedRow>)
    requires forall k :: 0 <= k < |prev| ==> KeptFirst(init, prev[k])
    requires MergedEmails(prev) == AtEmails(init)
    requires kept == if '@' in row.email && row.email !in MergedEmails(prev) then prev + [row] else prev
    ensures forall k :: 0 <= k < |kept| ==> KeptFirst(init + [row], kept[k])
  {
    forall k | 0 <= k < |kept| ensures KeptFirst(init + [row], kept[k]) {
      if k < |prev| {
        KeptFirstKept(init, row, prev[k]);
      } else {
        FirstEmailLast(init, row);
        assert (init + [row])[|init|] == row;
      }
    }
  }

  lemma KeptFirstKept(init: seq<MergedRow>, row: MergedRow, kept: MergedRow)
    requires KeptFirst(init, kept)
    ensures KeptFirst(init + [row], kept)
  {
    var rows := init + [row];
    var n :| 0 <= n < |init| && FirstEmail(init, n) && '@' in kept.email && kept == init[n];
    assert rows[n] == init[n];
    assert FirstEmail(rows, n);
  }

  lemma FirstEmailLast(init: seq<MergedRow>, row: MergedRow)
    requires row.email !in AtEmails(init) && '@' in row.email
    ensures FirstEmail(init + [row], |init|)
  {
    var rows := init + [row];
    forall m | 0 <= m < |init| ensures rows[m].email != row.email {
      assert rows[m] == init[m];
      if '@' in init[m].email {
        assert init[m].email in AtEmails(init);
      }
    }
  }

  /** Whether row `n` is the first with its normalised address. */
  predicate FirstKey(items: seq<(Row, string)>, n: nat)
    requires n < |items|
  {
    forall m :: 0 <= m < n ==> MergeKey(items[m].0, items[m].1) != MergeKey(items[n].0, items[n].1)
  }

  /** `row` is the line of the first row carrying its address, and that
      address has an `@`. */
  predicate MergedFirst(items: seq<(Row, string)>, row: MergedRow) {
    exists n :: 0 <= n < |items| && FirstKey(items, n) && '@' in row.email && row == MergedOf(items[n])
  }

  lemma FirstEmailKey(items: seq<(Row, string)>, n: nat)
    requires n < |items| && FirstEmail(MergeCandidates(items), n)
    ensures FirstKey(items, n)
  {
    var rows := MergeCandidates(items);
    forall m | 0 <= m < n ensures MergeKey(items[m].0, items[m].1) != MergeKey(items[n].0, items[n].1) {
      assert rows[m].email != rows[n].email;
    }
  }

  /** Each kept line is built from the first row carrying its address. */
  lemma MergeItemsFirst(items: seq<(Row, string)>)
    ensures forall k :: 0 <= k < |MergeItems(items)| ==> MergedFirst(items, MergeItems(items)[k])
  {
    var rows := MergeCandidates(items);
    KeepFirstFirst(rows);
    forall k | 0 <= k < |KeepFirst(rows)| ensures MergedFirst(items, KeepFirst(rows)[k]) {
      var row := KeepFirst(rows)[k];
      var n :| 0 <= n < |rows| && FirstEmail(rows, n) && '@' in row.email && row == rows[n];
      FirstEmailKey(items, n);
    }
  }

  /** The kept addresses are lower-case: normalising a kept address again
      changes nothing. */
  lemma MergedLowerCase(items: seq<(Row, string)>)
    ensures forall k :: 0 <= k < |MergeItems(items)| ==>
      Lower(MergeItems(items)[k].email) == MergeItems(items)[k].email
  {
    MergeItemsFirst(items);
    forall k | 0 <= k < |MergeItems(items)|
      ensures Lower(MergeItems(items)[k].email) == MergeItems(items)[k].email
    {
      var n :| 0 <= n < |items| && FirstKey(items, n) && '@' in MergeItems(items)[k].email
        && MergeItems(items)[k] == MergedOf(items[n]);
      LowerForgetsCase(Strip(Cell(items[n].0, items[n].1)));
    }
  }
}
