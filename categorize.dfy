/*
 * The per-row loop of find_categorized_emails_in_file (find_emails.py):
 * each row of an Outlook CSV export is read, for each recipient category,
 * from its address and name columns; the addresses found are paired with
 * names and appended to the category's list unless that list already has
 * the address.
 */
module Categorize {
  import opened Strings
  import opened EmailSyntax
  import opened SystemInfo
  import opened Cleaning
  import opened Extraction

  /** The four recipient categories, under their Turkish keys. */
  datatype Category = Kimden | Kime | Bilgi | Gizli

  const Categories: seq<Category> := [Kimden, Kime, Bilgi, Gizli]

  function CategoryKey(c: Category): string {
    match c
    case Kimden => "Kimden"
    case Kime => "Kime"
    case Bilgi => "Bilgi"
    case Gizli => "Gizli"
  }

  /** The column holding the category's addresses, `'<Cat>: (Adres)'`. */
  function AddressColumn(c: Category): string {
    CategoryKey(c) + ": (Adres)"
  }

  /** The column holding the category's display names, `'<Cat>: (Ad)'`. */
  function NameColumn(c: Category): string {
    CategoryKey(c) + ": (Ad)"
  }

  /** A CSV row: column name to cell text. */
  type Row = map<string, string>

  /** `row.get(column, '')`. */
  function Cell(row: Row, column: string): string {
    if column in row then row[column] else ""
  }

  datatype EmailRecord = EmailRecord(email: string, originalText: string, name: string, row: nat)

  /** The name for the `i`-th address of a cell: the `i`-th name, else the
      first name, else the name derived from the address. */
  function PairedName(names: seq<string>, i: nat, email: string): string {
    if i < |names| then names[i]
    else if names != [] then names[0]
    else ConvertEmailToName(email)
  }

  function MakeRecord(name: string, email: string, rowNum: nat): (r: EmailRecord)
    ensures r.email == email && r.name == name && r.row == rowNum
    ensures r.originalText == name + " <" + email + ">"
  {
    EmailRecord(email, name + " <" + email + ">", name, rowNum)
  }

  /** The address cell, stripped. */
  function AddressText(row: Row, c: Category): string {
    Strip(Cell(row, AddressColumn(c)))
  }

  /** The name cell, stripped and passed through `format_name`. */
  function NameText(row: Row, c: Category): string {
    FormattedName(Strip(Cell(row, NameColumn(c))))
  }

  /** An address cell that is empty or holds Exchange metadata is skipped. */
  predicate Skipped(text: string) {
    text == [] || IsSystemInfo(text)
  }

  /** The addresses found in a cell's cleaned text. */
  function CellEmails(text: string): seq<string> {
    ExtractedEmails(CleanedText(text))
  }

  /** One record per address, each paired with its name. */
  function PairedRecords(emails: seq<string>, names: seq<string>, rowNum: nat): (r: seq<EmailRecord>)
    ensures |r| == |emails|
  {
    seq(|emails|, i requires 0 <= i < |emails| => MakeRecord(PairedName(names, i, emails[i]), emails[i], rowNum))
  }

  /** The records one cell offers, one per extracted address, before the
      duplicate check. */
  function CellRecords(row: Row, rowNum: nat, c: Category): seq<EmailRecord> {
    var text := AddressText(row, c);
    if Skipped(text) then []
    else PairedRecords(CellEmails(text), NameList(NameText(row, c)), rowNum)
  }

  /** Every record the rows offer to a category, in row order (rows are
      numbered from 1). */
  function Candidates(rows: seq<Row>, c: Category): seq<EmailRecord> {
    if rows == [] then []
    else Candidates(rows[..|rows| - 1], c) + CellRecords(rows[|rows| - 1], |rows|, c)
  }

  predicate HasEmail(acc: seq<EmailRecord>, email: string) {
    exists k :: 0 <= k < |acc| && acc[k].email == email
  }

  /** The duplicate check: a record is appended only if the list has no
      record with the same address (compared case-sensitively). */
  function AddRecord(acc: seq<EmailRecord>, r: EmailRecord): seq<EmailRecord> {
    if HasEmail(acc, r.email) then acc else acc + [r]
  }

  function AddAll(acc: seq<EmailRecord>, rs: seq<EmailRecord>): seq<EmailRecord> {
    if rs == [] then acc else AddRecord(AddAll(acc, rs[..|rs| - 1]), rs[|rs| - 1])
  }

  function CategoryRecords(rows: seq<Row>, c: Category): seq<EmailRecord> {
    AddAll([], Candidates(rows, c))
  }

  /** Each category with the records kept for it. */
  function CategoryTable(rows: seq<Row>): map<Category, seq<EmailRecord>> {
    map c | c in Categories :: CategoryRecords(rows, c)
  }

  /** The table without its empty lists. */
  function NonEmptyLists(data: map<Category, seq<EmailRecord>>): map<Category, seq<EmailRecord>> {
    map c | c in data && data[c] != [] :: data[c]
  }

  /** The result: each category with its records; empty categories are
      left out. */
  function CategorizedEmails(rows: seq<Row>): map<Category, seq<EmailRecord>> {
    NonEmptyLists(CategoryTable(rows))
  }

  // ---------------------------------------------------------------------
  // The loops.

  /** The email loop for one cell: pairs each address with a name and
      appends the records that pass the duplicate check. */
  method AddPaired(acc: seq<EmailRecord>, emails: seq<string>, names: seq<string>, rowNum: nat)
    returns (r: seq<EmailRecord>)
    ensures r == AddAll(acc, PairedRecords(emails, names, rowNum))
  {
    r := acc;
    ghost var offered := PairedRecords(emails, names, rowNum);
    for i := 0 to |emails|
      invariant r == AddAll(acc, offered[..i])
    {
      var name;
      if i < |names| {
        name := names[i];
      } else if names != [] {
        name := names[0];
      } else {
        name := ConvertEmailToName(emails[i]);
      }
      var record := EmailRecord(emails[i], name + " <" + emails[i] + ">", name, rowNum);
      assert record == offered[i];
      if !(exists k :: 0 <= k < |r| && r[k].email == emails[i]) {
        r := r + [record];
      }
      assert offered[..i + 1][..i] == offered[..i];
    }
    assert offered[..|emails|] == offered;
  }

  /** One cell of one row: the skip rule, then cleaning, extraction, name
      splitting and the email loop. */
  method AddCell(acc: seq<EmailRecord>, row: Row, rowNum: nat, c: Category) returns (r: seq<EmailRecord>)
    ensures r == AddAll(acc, CellRecords(row, rowNum, c))
  {
    var emailText := Strip(Cell(row, AddressColumn(c)));
    var nameText := Strip(Cell(row, NameColumn(c)));
    nameText := FormatName(nameText);
    if emailText != [] && !IsSystemInfo(emailText) {
      var cleanText := CleanEmailText(emailText);
      var emails := ExtractEmails(cleanText);
      var names := SplitNames(nameText);
      r := AddPaired(acc, emails, names, rowNum);
    } else {
      r := acc;
    }
  }

  /** The position of a category in the order the source visits them. */
  function CategoryIndex(c: Category): (k: nat)
    ensures k < |Categories| && Categories[k] == c
  {
    match c
    case Kimden => 0
    case Kime => 1
    case Bilgi => 2
    case Gizli => 3
  }

  /** The categories are listed once each, in order. */
  lemma CategoryAt(i: nat)
    requires i < |Categories|
    ensures CategoryIndex(Categories[i]) == i
  {
  }

  /** A table with a list for every category. */
  predicate Complete(data: map<Category, seq<EmailRecord>>) {
    forall c :: c in data
  }

  /** The table after the first `n` categories have taken the records
      `offers` holds for them. */
  function RowTable(data: map<Category, seq<EmailRecord>>, offers: map<Category, seq<EmailRecord>>, n: nat): map<Category, seq<EmailRecord>>
    requires Complete(data) && Complete(offers) && n <= |Categories|
  {
    if n == 0 then data
    else
      var c := Categories[n - 1];
      RowTable(data, offers, n - 1)[c := AddAll(data[c], offers[c])]
  }

  /** After `n` categories, those visited hold their new records and the
      others are untouched. */
  lemma {:induction false} RowTableAt(data: map<Category, seq<EmailRecord>>, offers: map<Category, seq<EmailRecord>>, n: nat, c: Category)
    requires Complete(data) && Complete(offers) && n <= |Categories|
    ensures c in RowTable(data, offers, n)
    ensures RowTable(data, offers, n)[c] == if CategoryIndex(c) < n then AddAll(data[c], offers[c]) else data[c]
  {
    if n > 0 {
      RowTableAt(data, offers, n - 1, c);
      CategoryAt(n - 1);
    }
  }

  lemma RowTableStep(data: map<Category, seq<EmailRecord>>, offers: map<Category, seq<EmailRecord>>, n: nat)
    requires Complete(data) && Complete(offers) && n < |Categories|
    ensures RowTable(data, offers, n + 1) ==
      RowTable(data, offers, n)[Categories[n] := AddAll(data[Categories[n]], offers[Categories[n]])]
  {
  }

  /** Every category is listed. */
  lemma AllListed()
    ensures forall c :: c in Categories
  {
    forall c ensures c in Categories {
      assert Categories[CategoryIndex(c)] == c;
    }
  }

  /** What one row offers each category. */
  function RowOffers(row: Row, rowNum: nat): (r: map<Category, seq<EmailRecord>>)
    ensures Complete(r)
  {
    AllListed();
    map c | c in Categories :: CellRecords(row, rowNum, c)
  }

  lemma RowOffersAt(row: Row, rowNum: nat, c: Category)
    ensures RowOffers(row, rowNum)[c] == CellRecords(row, rowNum, c)
  {
    AllListed();
  }

  /** The category loop for one row: every category's list receives the
      records of its cells. */
  method AddRow(data: map<Category, seq<EmailRecord>>, row: Row, rowNum: nat)
    returns (r: map<Category, seq<EmailRecord>>)
    requires Complete(data)
    ensures Complete(r)
    ensures forall c :: r[c] == AddAll(data[c], CellRecords(row, rowNum, c))
  {
    ghost var offers := RowOffers(row, rowNum);
    r := data;
    for ci := 0 to |Categories|
      invariant r == RowTable(data, offers, ci)
    {
      var c := Categories[ci];
      RowTableAt(data, offers, ci, c);
      CategoryAt(ci);
      var updated := AddCell(r[c], row, rowNum, c);
      RowOffersAt(row, rowNum, c);
      RowTableStep(data, offers, ci);
      r := r[c := updated];
    }
    RowTableComplete(data, offers);
    forall c ensures r[c] == AddAll(data[c], CellRecords(row, rowNum, c)) {
      RowOffersAt(row, rowNum, c);
    }
  }

  /** Every category's list receives what the row offers it. */
  lemma RowTableComplete(data: map<Category, seq<EmailRecord>>, offers: map<Category, seq<EmailRecord>>)
    requires Complete(data) && Complete(offers)
    ensures Complete(RowTable(data, offers, |Categories|))
    ensures forall c :: RowTable(data, offers, |Categories|)[c] == AddAll(data[c], offers[c])
  {
    forall c ensures c in RowTable(data, offers, |Categories|)
      && RowTable(data, offers, |Categories|)[c] == AddAll(data[c], offers[c])
    {
      RowTableAt(data, offers, |Categories|, c);
    }
  }

  /** One more row extends each category's list by that row's records. */
  lemma CategoryRecordsStep(rows: seq<Row>, j: nat, c: Category)
    requires j < |rows|
    ensures CategoryRecords(rows[..j + 1], c) == AddAll(CategoryRecords(rows[..j], c), CellRecords(rows[j], j + 1, c))
  {
    assert rows[..j + 1][..j] == rows[..j];
    AddAllAppend([], Candidates(rows[..j], c), CellRecords(rows[j], j + 1, c));
  }

  /** The table the source starts from: an empty list per category. */
  const EmptyTable: map<Category, seq<EmailRecord>> := map[Kimden := [], Kime := [], Bilgi := [], Gizli := []]

  lemma EmptyTableComplete()
    ensures Complete(EmptyTable)
    ensures forall c :: EmptyTable[c] == []
  {
    forall c ensures c in EmptyTable && EmptyTable[c] == [] {
      match c
      case Kimden =>
      case Kime =>
      case Bilgi =>
      case Gizli =>
    }
  }

  /** `find_categorized_emails_in_file` after the file is read: the row
      loop, the category loop inside it, and the removal of empty
      categories. */
  method CategorizeRows(rows: seq<Row>) returns (result: map<Category, seq<EmailRecord>>)
    ensures result == CategorizedEmails(rows)
  {
    var data := EmptyTable;
    EmptyTableComplete();
    for j := 0 to |rows|
      invariant Complete(data)
      invariant forall c :: data[c] == CategoryRecords(rows[..j], c)
    {
      data := AddRow(data, rows[j], j + 1);
      forall c ensures data[c] == CategoryRecords(rows[..j + 1], c) {
        CategoryRecordsStep(rows, j, c);
      }
    }
    assert rows[..|rows|] == rows;
    TableMatches(data, rows);
    result := map c | c in data && data[c] != [] :: data[c];
  }

  lemma TableMatches(data: map<Category, seq<EmailRecord>>, rows: seq<Row>)
    requires Complete(data)
    requires forall c :: data[c] == CategoryRecords(rows, c)
    ensures data == CategoryTable(rows)
  {
    AllListed();
  }

  // ---------------------------------------------------------------------
  // Properties of the duplicate check.

  /** Adding a list of records one by one is adding its two halves in turn. */
  lemma {:induction false} AddAllAppend(acc: seq<EmailRecord>, xs: seq<EmailRecord>, ys: seq<EmailRecord>)
    ensures AddAll(acc, xs + ys) == AddAll(AddAll(acc, xs), ys)
    decreases |ys|
  {
    if ys == [] {
      assert xs + ys == xs;
    } else {
      assert (xs + ys)[..|xs + ys| - 1] == xs + ys[..|ys| - 1];
      AddAllAppend(acc, xs, ys[..|ys| - 1]);
    }
  }

  predicate DistinctEmails(acc: seq<EmailRecord>) {
    forall i, j :: 0 <= i < j < |acc| ==> acc[i].email != acc[j].email
  }

  /** A category never holds two records with the same address. */
  lemma {:induction false} AddAllDistinct(acc: seq<EmailRecord>, rs: seq<EmailRecord>)
    requires DistinctEmails(acc)
    ensures DistinctEmails(AddAll(acc, rs))
    decreases |rs|
  {
    if rs != [] {
      AddAllDistinct(acc, rs[..|rs| - 1]);
    }
  }

  /** The addresses a list of records carries. */
  function EmailSet(rs: seq<EmailRecord>): set<string> {
    set k | 0 <= k < |rs| :: rs[k].email
  }

  lemma HasEmailIff(rs: seq<EmailRecord>, e: string)
    ensures HasEmail(rs, e) <==> e in EmailSet(rs)
  {
    if e in EmailSet(rs) {
      var k :| 0 <= k < |rs| && rs[k].email == e;
    }
  }

  lemma EmailSetAppend(xs: seq<EmailRecord>, ys: seq<EmailRecord>)
    ensures EmailSet(xs + ys) == EmailSet(xs) + EmailSet(ys)
  {
    forall e | e in EmailSet(xs + ys) ensures e in EmailSet(xs) + EmailSet(ys) {
      var k :| 0 <= k < |xs + ys| && (xs + ys)[k].email == e;
      if k >= |xs| {
        assert ys[k - |xs|].email == e;
      }
    }
    forall e | e in EmailSet(xs) ensures e in EmailSet(xs + ys) {
      var k :| 0 <= k < |xs| && xs[k].email == e;
      assert (xs + ys)[k].email == e;
    }
    forall e | e in EmailSet(ys) ensures e in EmailSet(xs + ys) {
      var k :| 0 <= k < |ys| && ys[k].email == e;
      assert (xs + ys)[|xs| + k].email == e;
    }
  }

  /** Completeness and soundness of the duplicate check: the addresses
      after adding are those before and those offered; every record kept
      was there before or was offered; and the records already there stay,
      in place. */
  lemma {:induction false} AddAllContents(acc: seq<EmailRecord>, rs: seq<EmailRecord>)
    ensures EmailSet(AddAll(acc, rs)) == EmailSet(acc) + EmailSet(rs)
    ensures forall r :: r in AddAll(acc, rs) ==> r in acc || r in rs
    ensures acc <= AddAll(acc, rs)
    decreases |rs|
  {
    if rs != [] {
      var init := rs[..|rs| - 1];
      var last := rs[|rs| - 1];
      assert rs == init + [last];
      AddAllContents(acc, init);
      var before := AddAll(acc, init);
      EmailSetAppend(init, [last]);
      HasEmailIff(before, last.email);
      if !HasEmail(before, last.email) {
        EmailSetAppend(before, [last]);
      }
    }
  }

  /** Whether the `n`-th record is the first one offered with its address. */
  predicate FirstOfEmail(rs: seq<EmailRecord>, n: nat)
    requires n < |rs|
  {
    forall k :: 0 <= k < n ==> rs[k].email != rs[n].email
  }

  /** A reference reading of the duplicate check: keep, in order, the
      records offered first for their address. */
  function FirstOccurrences(rs: seq<EmailRecord>, n: nat): seq<EmailRecord>
    requires n <= |rs|
  {
    if n == 0 then []
    else FirstOccurrences(rs, n - 1) + (if FirstOfEmail(rs, n - 1) then [rs[n - 1]] else [])
  }

  /** The first record offered for each address wins. */
  lemma {:induction false} AddAllKeepsFirst(rs: seq<EmailRecord>, n: nat)
    requires n <= |rs|
    ensures AddAll([], rs[..n]) == FirstOccurrences(rs, n)
  {
    if n > 0 {
      AddAllKeepsFirst(rs, n - 1);
      var init := rs[..n - 1];
      assert rs[..n][..n - 1] == init;
      AddAllContents([], init);
      var e := rs[n - 1].email;
      HasEmailIff(AddAll([], init), e);
      assert EmailSet([]) == {};
      if !FirstOfEmail(rs, n - 1) {
        var k :| 0 <= k < n - 1 && rs[k].email == e;
        assert init[k].email == e;
      }
      if e in EmailSet(init) {
        var k :| 0 <= k < |init| && init[k].email == e;
        assert rs[k].email == e;
      }
    }
  }

  // ---------------------------------------------------------------------
  // Properties of the result.

  /** The addresses of a cell passed the validator. */
  lemma CellEmailsValid(text: string)
    ensures forall k :: 0 <= k < |CellEmails(text)| ==> IsValidEmail(CellEmails(text)[k])
  {
    ExtractedAreValid(CleanedText(text));
  }

  /** The `k`-th record carries the `k`-th address, the row number, the
      paired name and the display text `name <email>`. */
  lemma PairedRecordsShape(emails: seq<string>, names: seq<string>, rowNum: nat)
    ensures forall k :: 0 <= k < |emails| ==>
      var r := PairedRecords(emails, names, rowNum)[k];
      && r.email == emails[k] && r.row == rowNum
      && r.name == PairedName(names, k, emails[k])
      && r.originalText == r.name + " <" + r.email + ">"
  {
  }

  /** Every record in the list has an address the validator accepts. */
  predicate AllValid(rs: seq<EmailRecord>) {
    forall k :: 0 <= k < |rs| ==> IsValidEmail(rs[k].email)
  }

  /** A skipped cell offers nothing; otherwise it offers one record per
      address found in its cleaned text. */
  lemma CellRecordsOf(row: Row, rowNum: nat, c: Category)
    ensures Skipped(AddressText(row, c)) ==> CellRecords(row, rowNum, c) == []
    ensures !Skipped(AddressText(row, c)) ==>
      CellRecords(row, rowNum, c) == PairedRecords(CellEmails(AddressText(row, c)), NameList(NameText(row, c)), rowNum)
  {
  }

  /** Records built from valid addresses are valid. */
  lemma PairedRecordsValid(emails: seq<string>, names: seq<string>, rowNum: nat)
    requires forall k :: 0 <= k < |emails| ==> IsValidEmail(emails[k])
    ensures AllValid(PairedRecords(emails, names, rowNum))
  {
    PairedRecordsShape(emails, names, rowNum);
  }

  /** Each record a cell offers has a valid address. */
  lemma CellRecordsValid(row: Row, rowNum: nat, c: Category)
    ensures AllValid(CellRecords(row, rowNum, c))
  {
    var text := AddressText(row, c);
    if !Skipped(text) {
      CellEmailsValid(text);
      PairedRecordsValid(CellEmails(text), NameList(NameText(row, c)), rowNum);
    }
  }

  /** Each record a cell offers carries the cell's row number. */
  lemma CellRecordsRow(row: Row, rowNum: nat, c: Category)
    ensures forall k :: 0 <= k < |CellRecords(row, rowNum, c)| ==> CellRecords(row, rowNum, c)[k].row == rowNum
  {
    var text := AddressText(row, c);
    if !Skipped(text) {
      PairedRecordsShape(CellEmails(text), NameList(NameText(row, c)), rowNum);
    }
  }

  /** A paired name is one of the cell's names when it has any, and
      otherwise the name derived from the address. */
  lemma PairedNameFrom(names: seq<string>, i: nat, email: string)
    ensures names != [] ==> PairedName(names, i, email) in names
    ensures i < |names| ==> PairedName(names, i, email) == names[i]
    ensures names == [] ==> PairedName(names, i, email) == ConvertEmailToName(email)
  {
  }

  /** Every record offered has a valid address. */
  lemma {:induction false} CandidatesValid(rows: seq<Row>, c: Category)
    ensures AllValid(Candidates(rows, c))
    decreases |rows|
  {
    if rows != [] {
      var init := rows[..|rows| - 1];
      CandidatesValid(init, c);
      CellRecordsValid(rows[|rows| - 1], |rows|, c);
      AllValidAppend(Candidates(init, c), CellRecords(rows[|rows| - 1], |rows|, c));
    }
  }

  /** Every record carries a row number between 1 and `n`. */
  predicate RowsWithin(rs: seq<EmailRecord>, n: nat) {
    forall k :: 0 <= k < |rs| ==> 1 <= rs[k].row <= n
  }

  lemma RowsWithinAppend(xs: seq<EmailRecord>, ys: seq<EmailRecord>, n: nat)
    requires n > 0 && RowsWithin(xs, n - 1)
    requires forall k :: 0 <= k < |ys| ==> ys[k].row == n
    ensures RowsWithin(xs + ys, n)
  {
    forall k | 0 <= k < |xs + ys| ensures 1 <= (xs + ys)[k].row <= n {
      if k >= |xs| {
        assert (xs + ys)[k] == ys[k - |xs|];
      }
    }
  }

  /** Every record offered carries the number of its row, counted from 1. */
  lemma {:induction false} CandidatesRows(rows: seq<Row>, c: Category)
    ensures RowsWithin(Candidates(rows, c), |rows|)
    decreases |rows|
  {
    if rows != [] {
      var init := rows[..|rows| - 1];
      CandidatesRows(init, c);
      CellRecordsRow(rows[|rows| - 1], |rows|, c);
      RowsWithinAppend(Candidates(init, c), CellRecords(rows[|rows| - 1], |rows|, c), |rows|);
    }
  }

  lemma AllValidAppend(xs: seq<EmailRecord>, ys: seq<EmailRecord>)
    requires AllValid(xs) && AllValid(ys)
    ensures AllValid(xs + ys)
  {
    forall k | 0 <= k < |xs + ys| ensures IsValidEmail((xs + ys)[k].email) {
      if k >= |xs| {
        assert (xs + ys)[k] == ys[k - |xs|];
      }
    }
  }

  /** The duplicate check on a whole list: the records kept have pairwise
      distinct addresses; they are the first record offered for each
      address; every address offered is kept; nothing is kept only when
      nothing was offered; and any property every offered record has, the
      kept ones have. */
  lemma AddAllShape(cands: seq<EmailRecord>, n: nat)
    ensures var recs := AddAll([], cands);
      && DistinctEmails(recs)
      && recs == FirstOccurrences(cands, |cands|)
      && EmailSet(recs) == EmailSet(cands)
      && (recs == [] <==> cands == [])
      && (AllValid(cands) ==> AllValid(recs))
      && (RowsWithin(cands, n) ==> RowsWithin(recs, n))
  {
    var recs := AddAll([], cands);
    AddAllDistinct([], cands);
    AddAllContents([], cands);
    assert recs == FirstOccurrences(cands, |cands|) by {
      assert cands[..|cands|] == cands;
      AddAllKeepsFirst(cands, |cands|);
    }
    KeptRecords(recs, cands, n);
    assert recs == [] <==> cands == [] by {
      assert EmailSet([]) == {};
      if cands != [] {
        assert cands[0].email in EmailSet(cands);
      }
    }
  }

  /** Records drawn from `cands` share every property all of `cands` have. */
  lemma KeptRecords(recs: seq<EmailRecord>, cands: seq<EmailRecord>, n: nat)
    requires forall r :: r in recs ==> r in cands
    ensures AllValid(cands) ==> AllValid(recs)
    ensures RowsWithin(cands, n) ==> RowsWithin(recs, n)
  {
    forall k | 0 <= k < |recs| ensures exists j :: 0 <= j < |cands| && cands[j] == recs[k] {
      assert recs[k] in cands;
    }
  }

  /** The records kept for a category have pairwise distinct, valid
      addresses carrying row numbers in range; every address offered is
      kept, by the first record that offered it; and the list is empty only
      when nothing was offered. */
  lemma CategoryRecordsShape(rows: seq<Row>, c: Category)
    ensures var recs := CategoryRecords(rows, c);
      && DistinctEmails(recs)
      && recs == FirstOccurrences(Candidates(rows, c), |Candidates(rows, c)|)
      && EmailSet(recs) == EmailSet(Candidates(rows, c))
      && (recs == [] <==> Candidates(rows, c) == [])
      && AllValid(recs)
      && RowsWithin(recs, |rows|)
  {
    CandidatesValid(rows, c);
    CandidatesRows(rows, c);
    AddAllShape(Candidates(rows, c), |rows|);
  }

  /** The result holds exactly the categories some row offered an address
      to, each with its kept records. */
  lemma CategorizedKeys(rows: seq<Row>, c: Category)
    ensures c in CategorizedEmails(rows) <==> Candidates(rows, c) != []
    ensures c in CategorizedEmails(rows) ==> CategorizedEmails(rows)[c] == CategoryRecords(rows, c)
  {
    assert c in Categories;
    CategoryRecordsShape(rows, c);
  }
}
