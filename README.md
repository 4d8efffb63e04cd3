# Outlook address extraction, modelled in Dafny

The tool reads an Outlook CSV export of mail messages. It then collects,
for each recipient category, the addresses found there:

- Kimden (sender)
- Kime (to)
- Bilgi (cc)
- Gizli (bcc)

Each address is paired with a display name. The web front end exports
the result as a spreadsheet, and it can merge several spreadsheets into
one list of distinct addresses.

The model covers the text-processing core:

- `find_emails.py`:
  - address validation (`is_valid_email`);
  - the name derived from an address (`convert_email_to_name`);
  - name normalisation (`format_name`, `split_names`);
  - the system-metadata filter (`is_system_info`);
  - the cleaning of an address cell (`clean_email_text`);
  - address extraction (`extract_emails_from_text`);
  - the per-row loop of `find_categorized_emails_in_file`, which builds the
    category table.
- `app.py`:
  - the upload helpers (`is_csv_file`, `sanitize_filename`);
  - company and name extraction (`extract_company_name`,
    `extract_name_from_text`);
  - the loop that flattens the table into export rows, keeping each address
    once;
  - the loop that merges spreadsheets by normalised address.
- `show_csv.py`: the simpler cleaning and name reader.

Modules:

- `Strings` (strings.dfy): Python string operations on `seq<char>`:
  - `strip`, `split`, `join`, `lower`, `' '.join(s.split())`;
  - prefix removal;
  - first and last index.
- `EmailSyntax` (email_syntax.dfy): `is_valid_email`,
  `convert_email_to_name`, `split_names`, `format_name`.
- `SystemInfo` (system_info.dfy): `is_system_info`.
- `Cleaning` (cleaning.dfy): `clean_email_text` of find_emails.py.
- `Extraction` (extraction.dfy): `extract_emails_from_text`.
- `Categorize` (categorize.dfy): the row loop of
  `find_categorized_emails_in_file`.
- `AppExport` (app_export.dfy): the functions and the two dedup loops of
  app.py.
- `ShowCsv` (show_csv.py's two functions, in show_csv.dfy).

Each regular expression is modelled as a scanner over the suffix at the
search position:

- where the pattern matches, the replacement is emitted and the scan goes
  on after the match;
- otherwise one character is kept.

This is the leftmost, non-overlapping order of `re.sub` and `re.findall`.
Alternatives are tried in the backtracking engine's order: greedy runs
longest first, lazy runs shortest first. Every loop of the source is a
method. Each method is proved equal to a recursive specification
function, and the lemmas state what that function guarantees.

Behaviour of the code as written. Some descriptions of the tool promise
otherwise; the model follows the code.

- The label loop of `clean_email_text` tests the labels in list order
  against the text it keeps shortening. So `"From: To: x"` loses both
  labels (`Cleaning.CleanStripsSeveralLabels`). `"To: From: x"` loses only
  `To:`, because `From:` was tested earlier in the list. Cleaning is
  therefore not idempotent: a second pass removes `From:`
  (`Cleaning.CleanIsNotIdempotent`).
- The double-bracket step `<([^>]+)\s*<[^>]+>>` keeps the OUTER text:
  `<n <e>>` becomes `<n >`, not `<e>` (`Cleaning.InnerBracketKeepsName`).
- The address finder `[\w.-]+@…` has no `+` or `%`. So for the valid
  address `a+b@x.com` it returns `b@x.com` (`Extraction.ExtractPlusAddress`).
  Only valid addresses without those characters are returned unchanged
  (`Extraction.ExtractValidAddress`).
- The Exchange test at the top of `is_valid_email` never changes the
  answer, because `/` is not in the address pattern
  (`EmailSyntax.ExchangeTestRedundant`).
- A valid address can still be dropped as system metadata. For example,
  `exchange.team@corp.com` contains `Exchange`
  (`SystemInfo.ValidAddressCanBeSystemInfo`).
- Every marker that `clean_email_text` deletes is also an `is_system_info`
  pattern. A cell holding a marker is therefore skipped by the row loop
  before cleaning (`Cleaning.MarkerIsSystemInfo`).
- The `'.CSV'` alternative in `is_csv_file` can never match after
  `lower()` (`AppExport.LowerNeverEndsUpper`).
- `get_names_from_text` in show_csv.py keeps separators in the following
  name: `A <a@x.com>; B <b@x.com>` gives `A` and `; B`
  (`ShowCsv.NamesKeepSeparator`).

## Model

| member | source | states |
|---|---|---|
| EmailSyntax.MatchesEmailPatternIsRegex | find_emails.py:16-17 | the scan that splits at the first `@` and the last `.` accepts exactly the strings the regular expression `^[a-zA-Z0-9._%+-]+@[a-zA-Z0-9.-]+\.[a-zA-Z]{2,}$` matches (both directions) |
| EmailSyntax.ValidEmailShape | find_emails.py:9-17 | an accepted address has exactly one `@`, a non-empty local part, a domain ending in a dot and two or more letters, and only address characters; it starts with no `@` and ends with a letter |
| EmailSyntax.ExchangeTestRedundant | find_emails.py:12-17 | `is_valid_email` accepts a string exactly when the pattern does: the `/o=ExchangeLabs/` and `/ou=` test never changes the answer |
| EmailSyntax.Capitalize | find_emails.py:29 | `str.capitalize` keeps the length and agrees with the input up to case |
| EmailSyntax.LocalPart | find_emails.py:23 | `email.split('@')[0]` is a prefix of the address without `@` |
| EmailSyntax.ConvertEmailToNameChars | find_emails.py:19-36 | a non-letter other than space in the derived name comes from the local part and is not `.`, `_` or `@` |
| EmailSyntax.ConvertEmailToNameSpacing | find_emails.py:26-32 | when the local part has no white space, the derived name is single-spaced: words joined by one space, no leading or trailing space |
| EmailSyntax.ConvertEmailToNameKeepsText | find_emails.py:23-32 | up to case and spaces, the derived name is the local part without its `.` and `_` separators |
| EmailSyntax.ValidEmailName | find_emails.py:19-36 | the name derived from a valid address is single-spaced and has no `;` or `,`, so `split_names` reads it back as one name |
| EmailSyntax.ConvertJohnDoe | find_emails.py:19-36 | `john.doe@example.com` gives `John Doe` |
| EmailSyntax.SplitNames | find_emails.py:157-173 | the loop returns the pieces between `;` and `,`, stripped, with the empty ones dropped; empty text gives no names |
| EmailSyntax.NameListEntries | find_emails.py:157-173 | every name returned is non-empty, stripped and free of `;` and `,` |
| EmailSyntax.NameListOfJoin | find_emails.py:157-173 | splitting names joined with `;` gives back exactly the non-empty ones, in order |
| EmailSyntax.SplitNamesRoundTrip | find_emails.py:157-173 | joining the result with `;` and splitting again gives the same names |
| EmailSyntax.FormatName | find_emails.py:38-58 | the loop replaces each valid address by its derived name and keeps the other non-empty pieces stripped; an address that is the whole text is converted as a whole; the result never holds `,`, and empty text gives empty text |
| EmailSyntax.FormattedPartsEntries | find_emails.py:45-55 | every entry `format_name` joins is stripped and free of `;` and `,` |
| EmailSyntax.SplitFormattedName | find_emails.py:38-58 | `split_names` of a formatted name gives back the non-empty formatted entries, in order; a formatted name holds no `,`, and empty text formats to empty text |
| EmailSyntax.FormatNameWithoutAddress | find_emails.py:45-55 | on text without `@`, `format_name` is `split_names` joined with `;`, and splitting it again gives the same names |
| SystemInfo.PatternMakesSystemInfo | find_emails.py:60-85 | text that contains one of the eighteen patterns, in any case, is system information |
| SystemInfo.SystemInfoIgnoresCase | find_emails.py:85 | upper- or lower-casing the text does not change the verdict |
| SystemInfo.ValidAddressCanBeSystemInfo | find_emails.py:60-85 | `exchange.team@corp.com` is a valid address that is also classed as system information |
| Strings.StripPrefixes | find_emails.py:108-111 | the prefix loop (also app.py:79-82) cuts off, in list order, each prefix the shrinking text still starts with, stripping the rest |
| Cleaning.DeleteAllMarkers | find_emails.py:113-132 | the marker loop deletes each marker with the non-space run after it, marker by marker |
| Cleaning.UnwrapAllMailto | find_emails.py:134-137 | the `while re.search` loop computes the repeated substitution; the result is no longer than the text |
| Cleaning.UnwrapMailto | find_emails.py:134-137 | the repeated substitution ends with no `Name <e <mailto:…>>` match left and never lengthens the text |
| Cleaning.CleanEmailText | find_emails.py:87-155 | the method runs the nine steps in the source's order: collapse, labels, markers, nested mailto, mailto tags, echo, double brackets, squeeze, strip |
| Cleaning.CleanedTextShape | find_emails.py:87-155 | empty text stays empty; otherwise the result is single-spaced (no leading, trailing or doubled space) and no longer than the input |
| Cleaning.BracketFreeUnchanged | find_emails.py:134-146 | on text without `<`, the four bracket steps change nothing |
| Cleaning.CleanPlainText | find_emails.py:87-155 | on single-spaced text without `<` or markers, cleaning only strips the leading labels |
| Cleaning.CleanStripsSeveralLabels | find_emails.py:108-111 | `From: To: x` is cleaned to `x`: more than one label is stripped |
| Cleaning.CleanIsNotIdempotent | find_emails.py:108-111 | `To: From: x` is cleaned to `From: x`, and cleaning that again gives `x` |
| Cleaning.UnwrapNestedMailto | find_emails.py:134-137 | `n <e <mailto:e2>>` becomes `n <e>` |
| Cleaning.NestedMailtoTwoBrackets | find_emails.py:135 | text the nested-mailto pattern matches has at least two `<` |
| Cleaning.DropMailtoTagsWithoutBracket | find_emails.py:140 | text without `<` keeps all of its characters when `<mailto:…>` tags are dropped |
| Cleaning.CollapseEchoOfAddress | find_emails.py:143 | a valid address followed by itself in brackets, `e <e>`, collapses to `e` |
| Cleaning.InnerBracketKeepsName | find_emails.py:146 | `<n <e>>` becomes `<n >`: the outer text is kept and the inner address dropped |
| Cleaning.MarkerIsSystemInfo | find_emails.py:114-132 | text holding any marker the cleaning deletes is classed as system information |
| Extraction.DomainDot | find_emails.py:183 | the dot the greedy `[\w.-]+\.\w+` settles on is the last dot in range that is followed by a word character |
| Extraction.MatchSpans | find_emails.py:183 | the matches are ordered, non-overlapping spans within the text, and text without `@` has none |
| Extraction.ExtractEmails | find_emails.py:175-194 | the loop keeps the valid matches in order and falls back to the whole text when none is valid and the text itself is |
| Extraction.ExtractedAreValid | find_emails.py:175-194 | empty text gives no addresses; every address returned is valid and occurs in the text |
| Extraction.FindLooseShape | find_emails.py:183 | every match has the shape `[\w.-]+@[\w.-]+\.\w+` |
| Extraction.ExtractWithoutAt | find_emails.py:175-194 | text without `@` yields no address |
| Extraction.ExtractValidAddress | find_emails.py:175-194 | a valid address without `+` or `%` is extracted as itself, alone |
| Extraction.ExtractPlusAddress | find_emails.py:183-189 | for the valid `a+b@x.com` the finder returns `b@x.com`, so the whole address is never returned |
| Categorize.MakeRecord | find_emails.py:271-276 | a record holds the address, the name, the row number and `name <email>` |
| Categorize.PairedRecordsShape | find_emails.py:261-276 | the k-th record of a cell carries the k-th address, the row number, the paired name and `name <email>` |
| Categorize.PairedNameFrom | find_emails.py:264-269 | the i-th address takes the i-th name, else the first name, else the name derived from the address |
| Categorize.CellRecordsOf | find_emails.py:241-269 | an empty or system-information address cell gives no record; otherwise one record per address extracted from the cleaned cell, paired with the split formatted names |
| Categorize.CellRecordsValid | find_emails.py:247-276 | every record a cell offers has a valid address |
| Categorize.CellRecordsRow | find_emails.py:233-276 | every record a cell offers carries that row's number |
| Categorize.AddPaired | find_emails.py:261-280 | the address loop appends each record whose address the category's list does not hold yet |
| Categorize.AddCell | find_emails.py:236-280 | one category of one row: the cell's records go through the duplicate check |
| Categorize.AddRow | find_emails.py:236-280 | every category of a row has its list extended by that row's records, with the duplicate check |
| Categorize.CategorizeRows | find_emails.py:198-286 | the row loop, followed by dropping the empty categories, yields the categorised table of the rows |
| Categorize.CandidatesValid | find_emails.py:233-276 | every record offered by any row has a valid address |
| Categorize.CandidatesRows | find_emails.py:233 | every record offered by rows 1..n carries a row number between 1 and n |
| Categorize.AddAllAppend | find_emails.py:279-280 | adding two batches of records is adding the first and then the second |
| Categorize.AddAllDistinct | find_emails.py:279-280 | the duplicate check keeps the addresses of a list distinct |
| Categorize.AddAllContents | find_emails.py:279-280 | after the check, the list's addresses are the old ones plus the offered ones; no record is invented and none already kept is lost |
| Categorize.AddAllKeepsFirst | find_emails.py:279-280 | starting from an empty list, the records kept are exactly the first occurrence of each address, in order |
| Categorize.AddAllShape | find_emails.py:279-280 | a category's list is distinct, holds the first occurrence of each offered address and every offered address, is empty only when nothing was offered, and keeps validity and row bounds |
| Categorize.CategoryRecordsShape | find_emails.py:233-280 | each category's list has distinct addresses, all of them valid, with rows in range, and is the first occurrence of every address its cells offer |
| Categorize.CategorizedKeys | find_emails.py:286 | a category is in the result exactly when some row offers it a record, and then it maps to its list |
| AppExport.CsvFileIff | app.py:48-49 | a file is accepted exactly when its lower-cased name ends in `.csv`, so the test ignores case |
| AppExport.LowerNeverEndsUpper | app.py:49 | a lower-cased name never ends in `.CSV`, so that alternative never matches |
| AppExport.CsvFileExamples | app.py:48-49 | `report.CsV` is accepted and `report.xlsx` is not |
| AppExport.SanitizeByCharacter | app.py:51-56 | each character is sanitized on its own: a forbidden one is deleted, a space becomes `_`, any other is kept |
| AppExport.SanitizeClean | app.py:51-56 | the result is no longer than the name and holds no forbidden character and no space |
| AppExport.SanitizeFixedPoint | app.py:51-56 | a name is unchanged exactly when it has no forbidden character and no space |
| AppExport.SanitizeIdempotent | app.py:51-56 | sanitizing twice is sanitizing once |
| AppExport.CompanyNameChars | app.py:58-65 | without `@` the company is empty; a company never contains `@` or `.` |
| AppExport.CompanyNamePlace | app.py:58-65 | the company is the text right after the first `@`, ending at the end, at the next `@` or at the next `.` |
| AppExport.CompanyNameOf | app.py:58-65 | `local@company.rest` gives `company` |
| AppExport.CompanyNameExample | app.py:58-65 | `user@acme.com` gives `acme` |
| AppExport.ExtractNameFromText | app.py:67-85 | the method strips the text before the first `<` and then, in list order, each unwanted prefix the name still starts with |
| AppExport.NameFromTextShape | app.py:67-85 | the name is stripped, free of `<`, and a suffix of the stripped text before the first `<` |
| AppExport.NameRoundTrip | app.py:67-85 | for a stripped name without `<` or unwanted prefix, the name is read back from the `name <email>` text the row loop builds |
| AppExport.Flatten | app.py:187-204 | the loop walks the categories in the order Kimden, Kime, Bilgi, Gizli and exports each record whose address was not exported before |
| AppExport.FlattenItemsEmails | app.py:191-197 | the exported addresses are exactly the addresses of the listed records |
| AppExport.FlattenItemsDistinct | app.py:196-197 | no address is exported twice |
| AppExport.FlattenItemsFirst | app.py:191-204 | each exported row comes from the first record with its address, with that record's category, company and name |
| AppExport.FlattenedShape | app.py:187-204 | the exported addresses are those of the table, each exported once, and each row's company is the company of its address |
| AppExport.MergeSheets | app.py:322-331 | the loop keeps, sheet by sheet and row by row, each row whose normalised address contains `@` and was not kept before |
| AppExport.MergeItemsEmails | app.py:322-325 | the kept addresses are exactly the normalised addresses with an `@` |
| AppExport.MergeItemsDistinct | app.py:324-325 | no normalised address is kept twice |
| AppExport.MergeItemsFirst | app.py:322-331 | each kept row is the first row with its address, with that row's other columns |
| AppExport.MergedLowerCase | app.py:323 | every kept address is already in lower case |
| ShowCsv.CleanEmailText | show_csv.py:3-8 | the two substitutions never lengthen the text |
| ShowCsv.CleanWithoutBracket | show_csv.py:3-8 | text without `<` is returned unchanged |
| ShowCsv.UnwrapBracketsEntry | show_csv.py:7 | `name<addr>rest` becomes `addr` followed by the rest, unwrapped in turn |
| ShowCsv.CleanDisplayAddress | show_csv.py:3-8 | `name<addr>` cleans to `addr`, for an address that is not a `mailto:` target |
| ShowCsv.CleanKubraExample | show_csv.py:6-7 | `Kübra Binzat <kubra.binzat@yzf.com.tr>` cleans to `kubra.binzat@yzf.com.tr` |
| ShowCsv.NameGroupsShape | show_csv.py:12 | the captured names hold no bracket, and there are no more of them than `<` in the text |
| ShowCsv.GetNamesShape | show_csv.py:10-13 | every name is stripped and bracket-free; there are no more names than `<`; text without `<` gives none |
| ShowCsv.NameGroupsEntry | show_csv.py:12 | `name<addr>rest` captures `name`, then the names of the rest |
| ShowCsv.NameGroupsTwo | show_csv.py:12 | two `name<addr>` entries in a row capture their two names |
| ShowCsv.NamesKeepSeparator | show_csv.py:10-13 | `A <a@x.com>; B <b@x.com>` gives `A` and `; B`: the separator stays with the next name |

## Left out

- File input is not modelled: the CSV reader, the `utf-8-sig` decoding and the `csv.DictReader` header handling. The row loop takes the rows as a sequence of maps from column name to cell text, and a missing column reads as empty.
- Logging and the `try`/`except` fallbacks are not modelled. Every modelled operation is total on strings, so the fallbacks cannot fire. A row whose processing raises part-way is not modelled either.
- The Flask routes, temporary files, the Excel writing and its formatting are not modelled: upload handling, `send_file`, openpyxl fonts and column widths.
- `is_airtable_csv`, `process_airtable`, `analyze_csv` in show_csv.py, export_to_excel.py and the command-line `__main__` block are not part of this model.
- `merge_excel`'s search for the address column (app.py:311-319) is not modelled: it reads pandas column names. Each sheet comes with the column already chosen.
- pandas cell conversion is not modelled: `str()` of numbers and of NaN. Cells are already text.
- Case mapping is not modelled for every script. `lower`, `upper` and `capitalize` change ASCII letters only. `\w` covers `_` and the characters `str.isalnum` accepts in ASCII, Latin-1 (letters including `ª`, `µ` and `º`, the superscript digits `¹²³` and the fractions `¼½¾`) and Latin Extended-A, which hold the Turkish letters. Letters and digits of other scripts are not word characters here. `\s` is the set of white-space characters that `str.isspace` accepts.
- EmailSyntax.MatchesEmailPatternIsRegex: in `is_valid_email` (find_emails.py:17), Python's `$` also accepts one final `\n`, so `a@b.co\n` is valid in the source and not in the model. Every address the program tests comes from stripped or split text, which cannot end in a newline, so no result changes.
- In the markers, `$` also matches before a final newline. The model does not distinguish this: a match ends at white space or at the end, and a newline is white space, so the result is the same.
- Cleaning.UnwrapAllMailto: only one nesting level, `n <e <mailto:e2>>`, is proved to unwrap (Cleaning.UnwrapNestedMailto). Deeper nestings are covered only by the general guarantee: the loop ends, the text never grows, and no match is left.
- ShowCsv.CleanEmailText: only the bracket-free and single-entry cases are proved exactly. For other input the contract states only a length bound.
