# Lab website data layer, modelled in Dafny

The lab website keeps its content in delimited text files. These are the people, publications, alumni and selected-publications tables. `script.js` turns them into row records and renders them as HTML. This project models the data side of that script and proves what it promises:

- the quote-aware line splitter `parseDelimitedLine` and its comma form `parseCSVLine`;
- the text-to-records parser `parseCSV`;
- the path fixer `normalizePath`;
- the author formatter `formatAuthors`, which bolds the principal investigator;
- the key/value trimmer `normalizeSelectedPubRows` for spreadsheet-exported rows;
- the Paper/Preprint/Code links of `createPublicationHTML`;
- the grouping of publications by year, newest year first (`renderPublications`);
- the grouping of alumni by section, in first-appearance order (`renderAlumni`).

Modules, one per file:

| module | models |
|---|---|
| `Wrappers` | `Option` |
| `Seqs` | two generic sequence-splitting lemmas and the subsequence predicate |
| `JsString` | the JavaScript string built-ins the script relies on: `trim` (ECMAScript white space), `split`, `join`, `replace(/\r/g, '')`, `startsWith`, `includes`, `toLowerCase` and `parseInt` (NaN is `None`) |
| `Rows` | a row record is a `map<string, string>`, filled by a sequence of assignments `out[k] = v` in which the last write wins |
| `Csv` | `parseDelimitedLine`, `parseCSVLine` and `parseCSV`, as methods with loops, each proved equal to a specification function |
| `CsvExamples` | a quoted field that keeps its comma |
| `Paths` | `normalizePath` |
| `Authors` | `formatAuthors` |
| `SelectedPublications` | `normalizeSelectedPubRows`, as methods with loops |
| `Links` | the link list and links section of one publication entry |
| `Grouping` | the `byKey[key] ||= []; byKey[key].push(row)` loop as a method, and the sections it yields |
| `Publications` | year grouping and the descending `parseInt` sort |
| `Alumni` | section grouping, default `Other` |

Two comments in the script do not say what the code next to them does. The model follows the code:

- The comment at script.js:82 says "Handle Windows line endings". The code at script.js:83 (`replace(/\r/g, '')`) removes every carriage return, not only those before a newline.
- The comment at script.js:390 says "Sort years descending". The comparator at script.js:391 returns NaN for a year that `parseInt` cannot read, so such a year has no place in a descending order. Putting those years last is the model's own choice; see Publications.SortYearsOrder under "Left out".

## Model

| member | source | states |
|---|---|---|
| Csv.ParseDelimitedLine | script.js:111-130 | Its loop computes the left-to-right quote-toggling scan. There is one more field than unquoted delimiters, and no field holds a quote. Joined with nothing, the fields give the line without its quotes and separators. Joined with the delimiter, they give the line with only its quotes removed. |
| Csv.ParseCsvLine | script.js:106-108 | It is the splitter with a comma delimiter: one more field than unquoted commas. |
| Csv.SplitFieldsCount | script.js:111-130 | Field count = 1 + the number of delimiters preceded by an even number of quotes. |
| Csv.SplitFieldsContent | script.js:111-130 | No field contains a quote. Concatenated, the fields give the line without its quotes and field separators. |
| Csv.SplitFieldsRoundTrip | script.js:111-130 | Joining the fields with the delimiter gives the line with its quotes removed. On a quote-free line this is the line itself, and the fields are exactly a plain `split` on the delimiter. |
| CsvExamples.QuotedFieldExample | script.js:111-130 | `"x,y",z` splits into the two fields `x,y` and `z`: a quoted comma does not separate. |
| Csv.ParseCsv | script.js:81-103 | Its loop returns the records of the cleaned text: there are none when the text has fewer than two lines. Otherwise there is one record per non-blank data line, built from the trimmed header fields and that line's trimmed fields. |
| Csv.TooFewLines | script.js:83-84 | The text has fewer than two lines exactly when the cleaned text contains no newline. Then there are no records, and in particular for any text without a newline. |
| Csv.RecordsPerLine | script.js:91-101 | The records correspond one-to-one, in order, to the non-blank lines after the header, each parsed against the headers. |
| Csv.NonBlankLinesSpec | script.js:92-93 | The kept lines are exactly the non-blank lines. Every kept line is a non-blank input line and every non-blank input line is kept. Each non-blank line is kept exactly as many times as it occurs, a blank line never, and there are never more kept lines than input lines. |
| Csv.NonBlankLinesCount | script.js:91-100 | A non-blank line occurs among the kept lines exactly as often as among the input lines, so two equal data lines give two records. |
| Csv.NonBlankLinesInOrder | script.js:91-100 | The kept lines are a subsequence of the input lines, so their order is kept. |
| Csv.MakeRowShape | script.js:96-99 | A record's keys are exactly the headers. A header not repeated later holds its trimmed field, or '' when the line has too few fields. A later duplicate header overwrites an earlier one. |
| Rows.AssignLastWins | script.js:98 | After a sequence of assignments, a key holds the value of its last assignment. |
| Rows.AssignKeys | script.js:98 | The record's keys are exactly the keys assigned. |
| Paths.NormalizePath | script.js:133-137 | The result is empty iff the path is. The path is a suffix of the result, which is at most one character longer, and a non-empty result is absolute ('/…' or 'http…'). |
| Paths.NormalizePathCases | script.js:133-137 | '' stays ''. A path starting with '/' or 'http' is unchanged. Any other path gets a leading '/'. |
| Paths.NormalizePathIdempotent | script.js:133-137 | Normalizing twice is normalizing once. |
| Authors.AuthorNamesClean | script.js:325 | Every kept author name is non-empty, comma-free and trimmed at both ends. |
| Authors.AuthorNamesEmptyIff | script.js:325 | No author name is kept iff the string holds only commas and white space. |
| Authors.FormatAuthorsEmptyIff | script.js:322-334 | The formatted string is empty iff the input is missing or holds only commas and white space. |
| Authors.AuthorNamesRoundTrip | script.js:325 | Splitting a ", "-joined list of clean names gives back exactly those names. |
| Authors.FormatAuthorsRoundTrip | script.js:322-334 | Formatting a ", "-joined list of clean names gives the emphasized names joined by ", ". |
| Authors.KinneyEmphasized | script.js:327-331 | A name containing any capitalisation of "kinney" is wrapped in `<strong>…</strong>`. |
| Authors.KinneyNotEmphasized | script.js:328-332 | A name that contains "kinney" in no letter case is returned unchanged. |
| Authors.ContainsLower | script.js:328 | Containment survives lower-casing both strings. |
| Authors.ContainsUnlower | script.js:328 | Whatever the lower-cased name contains is the lower-case form of some piece of the name. |
| SelectedPublications.NormalizeRow | script.js:265-270 | Its loop builds the record from every entry, assigned in order with a trimmed key and a trimmed value ('' for null). |
| SelectedPublications.NormalizeSelectedPubRows | script.js:263-272 | One normalized record per input row, in order. |
| SelectedPublications.NormalizedKeys | script.js:267-268 | The keys are exactly the trimmed entry keys. |
| SelectedPublications.NormalizedTrimmed | script.js:267-268 | Every key and every value of the result is trimmed. |
| SelectedPublications.NormalizedLastWins | script.js:267-268 | When two keys trim to the same name, the later entry's value wins. |
| SelectedPublications.NormalizeIdempotent | script.js:263-272 | Normalizing an already normalized record, whose entries are listed once each in any order, gives it back unchanged. |
| Links.LinksPointToFields | script.js:343-345 | Every link targets the value of its field, and that value is non-empty. |
| Links.LinksInOrder | script.js:343-347 | The links appear in the order Paper, Preprint, Code. |
| Links.LinkPresentIff | script.js:343-345 | A link of a kind is present iff its field is non-empty. |
| Links.JoinNonEmpty | script.js:347 | Dropping the empty link strings does not change their join with ''. |
| Links.LinksHtmlIsAnchors | script.js:343-347 | The filtered, joined link HTML is the anchors of the present links, in order. |
| Links.LinksSectionSpec | script.js:347-348 | There is no links section iff paper, preprint and code are all empty. Otherwise it is a `pub-links` div around the anchors. |
| Grouping.GroupBy | script.js:380-389 | Its loop yields the distinct keys in first-appearance order. The map holds a group for exactly those keys, and each group is the records with that key, in input order. |
| Grouping.MembersSpec | script.js:383-387 | A record is in a group iff it is an input record with that group's key. |
| Grouping.MembersInOrder | script.js:387 | A group is a subsequence of the input: it keeps the input order. |
| Grouping.DistinctFirstAppearance | script.js:462-473 | The keys are listed in the order of their first appearance. |
| Grouping.SectionsPartition | script.js:380-397 | For distinct keys covering every record, the sections together hold every input record exactly once. |
| Grouping.SectionsNonEmpty | script.js:384-387 | A section whose key occurs in the input is non-empty. |
| Grouping.ListSections | script.js:395-397 | Looking up the keys in order in the group map yields the sections. |
| Publications.InsertKeyOrdered | script.js:391 | Inserting a year into an ordered list keeps it ordered. |
| Publications.SortYearsOrder | script.js:391 | After the sort, no year is listed after a year that should follow it: numeric years descend, non-numeric ones come last. |
| Publications.SortYearsSameYears | script.js:391 | The sort is a permutation of the years: each year is listed as often as before, and no year is added or lost. |
| Publications.SortYearsSections | script.js:391-397 | Sorting the years does not change which publications the sections hold. |
| Publications.PublicationSections | script.js:380-397 | The year sections ('Unknown' for no year) partition the publications. Every section is non-empty, and the years are in sorted order. |
| Publications.GroupPublications | script.js:375-398 | Its grouping yields the year sections: a partition of the publications, non-empty, in sorted year order. |
| Alumni.AlumniSections | script.js:462-474 | The 'Section' groups ('Other' for none) partition the alumni. They are non-empty, have distinct names, and are listed by first appearance. |
| Alumni.GroupAlumni | script.js:460-476 | Its grouping yields the sections: a partition, non-empty, with distinct names, in first-appearance order. |
| JsString.TrimEmptyIff | script.js:92-93 | A line trims to '' iff it is all white space (that is when a line is skipped). |
| JsString.TrimIdempotent | script.js:92-98 | Trimming twice is trimming once. |
| JsString.SplitThenJoin | script.js:83 | Splitting on a character and joining with it gives the text back. |
| JsString.JoinThenSplit | script.js:325 | Joining separator-free parts and splitting gives the parts back. |
| JsString.ParseIntDecimal | script.js:391 | parseInt of a decimal numeral yields its value. |

## Left out

- DOM access, `innerHTML` updates, `fetch` and the async loaders are left out. So are the XLSX spreadsheet reader and the hard-coded fallback data: they are I/O and browser state. The model starts from the text or from the rows the loaders hand over.
- `escapeHtml`, `encodeURIComponent`, template white space and SVG icons are left out. The HTML modelled is the structure of the links section only; the year and alumni tables' markup is not modelled.
- The `/JB Kinney/g` text replacement on rendered author nodes is left out, because it is DOM post-processing.
- Rows: a JavaScript object is modelled as a map. Inherited `Object.prototype` keys (`constructor`, `__proto__`, …) are not modelled, and neither is the engine's ordering of integer-like keys in `Object.keys`. The model lists keys in insertion order.
- Publications.SortYearsOrder: for a year that `parseInt` cannot read, the comparator returns NaN. The sort treats NaN as "equal", so the comparator is inconsistent and the engine's order is implementation-defined. The model fixes one order that the engine does not promise: a stable insertion sort in which numeric years descend and non-numeric years come last. An engine's insertion sort gives the same order only when every year that parses is a canonical integer such as `2019`. `Object.keys` then lists all those years before every other key. A year such as `2021a` parses but is listed among the other keys in insertion order. The engine can then leave it after `Unknown`, which the model does not.
- JsString.ParseInt: numbers are unbounded integers. Floating-point rounding of very long numerals, radix arguments and `Infinity` are not modelled.
- JsString.ToLowerCase: only ASCII letters and U+212A KELVIN SIGN are mapped. That is exact for the "kinney" test, but not a full Unicode lower-casing.
- JsString: strings are sequences of Dafny characters, not UTF-16 code units.
- SelectedPublications.NormalizeRow: a row is given as its `Object.entries` list in order, with a value of `None` for `null`/`undefined`. `String(value)` on non-string values (numbers from the spreadsheet reader) is not modelled.
- Paths.NormalizePath: the argument is always a string. `null`/`undefined` arguments behave like '' and are not modelled separately.
- Authors.FormatAuthors: a missing field is `None`. A non-string argument is not modelled.
- `scholar_scraper.py` is not part of this model: it is an offline tool, not the site's script.
