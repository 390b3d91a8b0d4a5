# Lease-contract text filter, modelled in Dafny

This project models the text-to-record step of a lease-contract extractor.
Raw contract text, taken from PDF text or OCR output, goes through three steps:

1. **Noise sanitiser** (`filter_contract.py:164-165`). Two `re.sub` passes run in
   a fixed order.
   - The first deletes standalone runs of five or more digits (`\b\d{5,}\b`).
   - The second deletes whitespace-delimited tokens with an interior `@` (`\S+@\S+`).
2. **Vehicle-name locator** `extract_vehicle_name` (`filter_contract.py:40-76`).
   - It splits the text into stripped, non-empty lines.
   - It skips lines that are more than 40% digits, hold an `@`, or hold a noise keyword.
   - It takes the first remaining line that has an ASCII letter.
   - It appends the next line when that line has a letter and fewer than 40% digits.
   - Otherwise it answers `"Not Available"`.
3. **Field extractor** `extract_fields` (`filter_contract.py:82-149`). It fills a
   13-key record.
   - The vehicle name comes from the locator.
   - Nine fields come from `re.search` patterns on the lower-cased text.
   - Two fields are phrase-presence tests.
   - One field is a constant list.

Modules, one per component:

- `Text` (`text.dfy`): character classes, `str.lower`, substring containment, and the sentinel.
- `LineSplit` (`lines.dfy`): `split("\n")`, `strip()`, and the list of stripped non-empty lines.
- `NoiseFilter` (`sanitize.dfy`): each `re.sub` pass is written as the regex engine's left-to-right
  scan. Beside it stands a declarative reference: drop exactly the characters that lie inside a
  deleted token. Lemmas prove the scan equals the reference.
- `Locator` (`vehicle_name.dfy`): the skip and merge tests as predicates, and a recursive
  specification `VehicleName`. The source's indexed loop with `continue` and early `return` is the
  method `ExtractVehicleName`, proved equal to the specification.
- `Patterns` (`patterns.dfy`): every regex of `extract_fields` has the same shape. It is literal
  words and `\s*` gaps, one capture group `(C+)` over `\d`, `[\d,.]` or `[a-z]`, then more words
  and gaps. The module gives this shape a declarative meaning (`Parses`) and a greedy matcher
  (`Find`). For the well-formed shapes used here, the matcher reports exactly what Python's
  backtracking `re.search(...).group(1)` reports: the leftmost start that parses, and the longest
  group at that start.
- `Fields` (`fields.dfy`): the nine rules as data, each field's post-processing, and the record
  datatype `Contract`. The method `ExtractFields` fills the record key by key as the source does.
  `FilterText` is the per-document step of the driver: sanitise, extract, and list the entries in
  `json.dump` order.

Where the system's own documentation and the code disagree, the model follows the code.
- The documentation calls the two sanitiser passes order-independent. They are not.
  `NoiseFilter.OrderMatters` gives the input `a 12345@b`. Numbers-first leaves `a @b`.
  Emails-first leaves `a `.
- The documentation calls the locator idempotent. That holds in all but one case
  (`Locator.Rerun`). A second run returns the sentinel `"Not Available"` unchanged, since the
  sentinel itself reads as a title line (`Locator.RerunSentinel`). It returns an unmerged name
  unchanged (`Locator.RerunUnmerged`). A merged variant line, though, is never checked for `@` or
  noise keywords. When the merged line holds either, a second run answers `"Not Available"`
  (`Locator.RerunMerged`).

## Model

| member | source | states |
|---|---|---|
| `NoiseFilter.Sanitize` | filter_contract.py:164-165 | the cleaned text is never longer than the input |
| `NoiseFilter.RemoveLongNumbers` | filter_contract.py:164 | the first pass only deletes: its result is never longer than its input |
| `NoiseFilter.RemoveEmails` | filter_contract.py:165 | the second pass only deletes: its result is never longer than its input |
| `NoiseFilter.RemoveLongNumbersSpec` | filter_contract.py:164 | the first pass drops exactly the characters of digit runs of length 5 or more that have no word character on either side; every other character is kept, in order |
| `NoiseFilter.RemoveEmailsSpec` | filter_contract.py:165 | the second pass drops exactly the whitespace-delimited tokens whose `@` has at least one character on each side; every other character is kept, in order |
| `NoiseFilter.SanitizeSpec` | filter_contract.py:164-165 | the sanitiser is the number deletion followed by the email deletion, each as its declarative reference |
| `NoiseFilter.NothingToDelete` | filter_contract.py:164-165 | a text with no standalone long number and no email token comes through unchanged |
| `NoiseFilter.NoDigitRunNoAt` | filter_contract.py:164-165 | a text with no `@` and no five digits in a row comes through unchanged |
| `NoiseFilter.OrderMatters` | filter_contract.py:164-165 | swapping the two passes changes the result on `a 12345@b` |
| `NoiseFilter.SanitizeExample` | filter_contract.py:164-165 | on `a 1234567 b@c d` the seven-digit number and the email are removed and the rest stays: `a   d` |
| `LineSplit.Strip` | filter_contract.py:46 | `strip()` returns the slice left after removing only whitespace at both ends; the slice neither starts nor ends with whitespace |
| `LineSplit.Split` | filter_contract.py:46 | `split("\n")` gives at least one piece, and no piece holds a newline |
| `LineSplit.JoinSplit` | filter_contract.py:46 | joining the pieces of `split("\n")` with newlines gives the text back |
| `LineSplit.SplitJoin` | filter_contract.py:46 | splitting undoes joining pieces that hold no newline |
| `LineSplit.Lines` | filter_contract.py:46 | every line the locator scans is non-empty, stripped and newline-free |
| `LineSplit.LinesJoin` | filter_contract.py:46 | clean lines joined by newlines are read back as the same lines |
| `Text.Lower` | filter_contract.py:83 | `lower()` keeps the length and lower-cases each character on its own |
| `Locator.DigitCount` | filter_contract.py:52 | the digit count of a line is never more than its length |
| `Locator.IsTitleLine` | filter_contract.py:52-68 | a line the scan stops at is not empty and has at most 40% digits, and, since it holds a letter, fewer digits than characters |
| `Locator.IsVariantLine` | filter_contract.py:72 | a line that is merged is not empty and would itself pass the digit test at line 52 |
| `Locator.NameAt` | filter_contract.py:69-74 | the name starts with the title line; it is that line alone, or that line, one space and the next line |
| `Locator.FirstTitleFrom` | filter_contract.py:48-68 | the index found passes all four tests, and every line scanned before it fails at least one; no index means no line passes |
| `Locator.VehicleName` | filter_contract.py:40-76 | the sentinel when no line passes the four tests; otherwise the name read at the first line that does |
| `Locator.ExtractVehicleName` | filter_contract.py:40-76 | the indexed loop with its `continue` skips and early returns computes `VehicleName` |
| `Locator.NoTitleGivesNotAvailable` | filter_contract.py:48-76 | with no line passing the skip tests and the letter test, the result is exactly `"Not Available"` |
| `Locator.NameFromSomeTitle` | filter_contract.py:48-74 | when some line passes, the name is read at the earliest passing line |
| `Locator.NameAtShape` | filter_contract.py:69-74 | the name starts with the title line; it is `line + " " + next` exactly when a next line exists with a letter and under 40% digits, and the line alone otherwise |
| `Locator.NameFromFirstTitle` | filter_contract.py:48-74 | at the first passing line the name begins with that line and takes the merge shape above |
| `Locator.SingleTitleLine` | filter_contract.py:46-74 | a text whose only line passes the tests names exactly that stripped line |
| `Locator.ExactlyFortyPercent` | filter_contract.py:52-72 | a line with exactly 40% digits is not skipped by the "more than 40%" test, yet as a following line it fails the "less than 40%" merge test |
| `Locator.FortyPercentBoundary` | filter_contract.py:52-72 | example: `B1i2n` (2 digits of 5) is a title line but no variant line |
| `Locator.FortyPercentNotMerged` | filter_contract.py:69-74 | example: `Mini` followed by `B1i2n` (40% digits) names `Mini` alone |
| `Locator.TitleThenVariant` | filter_contract.py:69-73 | a title line followed by a variant line gives the two lines joined by one space |
| `Locator.TitleThenOther` | filter_contract.py:69-74 | a title line followed by a line that is not a variant gives the title line alone |
| `Locator.FordFocusExample` | filter_contract.py:69-73 | example: `Ford Focus` followed by `Titanium Ecoboost` names `Ford Focus Titanium Ecoboost` |
| `Locator.NoiseOfMerged` | filter_contract.py:58-64 | no keyword holds a space, so a merged name has a noise keyword exactly when one of its two lines has one |
| `Locator.MergedIsTitle` | filter_contract.py:52-72 | a merged name passes the title tests exactly when its variant line has no `@` and no noise keyword |
| `Locator.RerunUnmerged` | filter_contract.py:40-76 | running the locator again on an unmerged name returns the same name |
| `Locator.RerunMerged` | filter_contract.py:69-74 | running it again on a merged name returns the same name when the variant line has no `@` and no keyword, and the sentinel otherwise |
| `Locator.SentinelIsTitle` | filter_contract.py:52-68 | the sentinel `Not Available` passes all four tests of the scan |
| `Locator.RerunSentinel` | filter_contract.py:40-76 | running the locator on the sentinel returns the sentinel |
| `Locator.NoisyMergeAt` | filter_contract.py:69-74 | a text is in the one non-idempotent case exactly when its first title line is followed by a variant line that holds `@` or a noise keyword |
| `Locator.Rerun` | filter_contract.py:40-76 | for every text, a second run returns the first run's answer, except in that one case, where it returns the sentinel |
| `Locator.NoisyMergeChanges` | filter_contract.py:69-74 | in that one case the merged name is not the sentinel, and a second run gives a different answer |
| `Patterns.Find` | filter_contract.py:90-135 | a successful search yields a non-empty run of the group's character class |
| `Patterns.MatchAtIsLongestParse` | filter_contract.py:90-135 | at one start position the greedy matcher succeeds exactly when some parse exists, and then returns the parse with the longest group |
| `Patterns.FindIsLeftmostLongest` | filter_contract.py:90-135 | the search fails exactly when the pattern parses nowhere; otherwise it returns the group of the leftmost parsing start, taken as long as possible, like `re.search(...).group(1)` |
| `Patterns.FindMeaning` | filter_contract.py:90-135 | the same result stated only in terms of parses |
| `Fields.RulesAreWellFormed` | filter_contract.py:90-135 | the nine patterns have the shape on which the greedy matcher is exact |
| `Fields.Captured` | filter_contract.py:90-103 | the field is the sentinel exactly when the search fails; otherwise it is a non-empty run of the group's class |
| `Fields.CapturedMeaning` | filter_contract.py:90-135 | a captured field is the sentinel exactly when the regex matches nowhere, and otherwise the group Python reports |
| `Fields.Capitalize` | filter_contract.py:126 | `capitalize()` keeps the length and the letters; the first character is the upper-case form of the original first character (a capital stays a capital), and no later character is a capital |
| `Fields.WordField` | filter_contract.py:125-129 | the fuel-type and transmission fields are the sentinel exactly when the search fails; otherwise they are the captured word with only its first letter upper-cased |
| `Fields.Co2Field` | filter_contract.py:131-132 | the CO2 field is the sentinel exactly when the search fails; otherwise it is the captured digit run followed by ` g/km` |
| `Fields.ExcessMileage` | filter_contract.py:106-108 | `Present` exactly when `excess mileage` occurs in the text |
| `Fields.Maintenance` | filter_contract.py:111-116 | `No` exactly when the negative phrase occurs; `Yes` exactly when it is absent and `includes maintenance` occurs; the sentinel exactly when neither occurs |
| `Fields.ExtractShape` | filter_contract.py:84-149 | every field of the record has its promised form: amounts over `[0-9,.]`, digit strings, a capitalised word, digits with ` g/km`, a categorical answer, or the constant eight-item list |
| `Fields.Extract` | filter_contract.py:82-149 | the vehicle name is read from the text as given; excess mileage is `Present` exactly when the phrase occurs in the lower-cased text; maintenance is one of the three answers; the list is the constant eight items |
| `Fields.CaseOnlyReachesName` | filter_contract.py:83-149 | two texts that lower-case alike give records that differ at most in the vehicle name |
| `Fields.ExtractAgreesWithSearch` | filter_contract.py:89-135 | each pattern field is the sentinel exactly when its regex matches nowhere, and otherwise the group that `re.search` reports, after its post-processing |
| `Fields.FieldNamesDistinct` | filter_contract.py:84-147 | the 13 keys are pairwise distinct |
| `Fields.Entries` | filter_contract.py:84-149 | the record has all 13 keys, in insertion order; twelve hold strings and the last holds the list |
| `Fields.ExtractFields` | filter_contract.py:82-149 | filling the record key by key gives the field-wise specification |
| `Fields.FilterText` | filter_contract.py:164-167 | one document is sanitised and then extracted, and the result has exactly the 13 keys in order |
| `Fields.DownPaymentExample` | filter_contract.py:94-95 | example: on the already lower-cased text `initial rental £500.00` the down-payment pattern captures `500.00` |
| `Fields.LeaseTermExample` | filter_contract.py:98-99 | example: on the lower-case text `36 month term` the lease-term pattern captures `36` |
| `Fields.Co2Example` | filter_contract.py:131-132 | example: on the already lower-cased text `co2 120 g/km` the CO2 field is `120 g/km` |
| `Fields.InitialRentalExample` | filter_contract.py:83-95 | example: `Initial Rental £500.00` is lower-cased first, so the record's down payment is `500.00` |
| `Fields.Co2RecordExample` | filter_contract.py:83-132 | example: `CO2 120 g/km` is lower-cased first, so the record's CO2 field is `120 g/km` |

## Left out

- The language-model fallback `llm_extract_vehicle_name` and its client setup (filter_contract.py:14-35). It is a remote network call, and nothing calls it.
- The driver loop (filter_contract.py:154-175). Directory listing, the `.txt` filter, file reads, `json.dump`, `print` and `os.makedirs` (filter_contract.py:6-9) are file-system plumbing. Only the per-document step at lines 164-167 is modelled, as `Fields.FilterText`.
- extract_text.py is not part of this model. It wraps PDF text extraction, page rasterising and OCR, which are foreign libraries.
- Unicode: `str.isdigit`, `\d`, `\w` (and so `\b`), `[A-Za-z]`, `str.lower` and `str.capitalize` are modelled over ASCII. Python applies its Unicode tables. Whitespace (`str.strip`, `\s`, `\S`) uses Python's full `str.isspace` set.
- The 40% tests compare an integer with the float `len(line) * 0.4`. The model compares `5 * digits` with `2 * len`. For a length that is a multiple of 5, the float product is never below `2 * len / 5`. For every other realistic length, rounding is far smaller than the gap to the nearest integer. So the outcome is the same.
- The record is a datatype with one field per key. The Python dict is shown only through `Fields.Entries`, the key-value list in `json.dump` order. JSON escaping and indentation are not modelled.
