# Patient vital-signs record store

A model of the record store in `main_22BCSH27.py`. It keeps every patient's
visits (date, temperature and five integer vital signs) in a dictionary keyed
by patient id, and keeps a plain-text file with one comma-separated line per
visit. The model covers:

- loading the file (`readPatientsFromFile`): strip, split on commas, exactly
  eight fields, numeric parsing, then range checks in a fixed order. Accepted
  visits are appended to their patient's list in file order;
- adding a visit (`addPatientData`): date format and date range first, then
  the six vital ranges. An accepted visit is recorded and its line appended
  to the file;
- filtering visits by year and month (`findVisitsByDate`), including the two
  guards and Python's truthiness of the optional arguments;
- selecting the patients who need a follow-up (`findPatientsWhoNeedFollowUp`);
- deleting a patient and rewriting the file (`deleteAllVisitsOfPatient`).

Modules, one per file:

- `Wrappers` holds `Option` and `Result`.
- `Text` holds `str.strip`, `str.split` and `str.join`.
- `Numbers` holds `int()` and `float()` on decimal text and the `str()` forms written back. Temperatures are exact decimals.
- `Vitals` holds the visit record, the range table, date parsing and the validation that `addPatientData` performs.
- `Codec` decodes and encodes one line of the file.
- `Store` holds the dictionary as a value and what loading, appending and rewriting do to it.
- `Queries` holds the two read-only queries. Each is a specification function plus the loop the program runs, proved equal to it.
- `Registry` holds the dictionary as a mutable object, together with the three operations that change it and the file.

The dictionary keeps Python's insertion order. It is a sequence of keys plus a map from each key to that patient's visits.

The file is modelled as its sequence of lines, without the newlines. It is passed into the operations that write it and handed back by them.

`float` values are modelled as exact decimals in canonical form: no trailing fractional zero, and the sign kept apart. `str(f)` always writes at least one digit on each side of the point, as Python's `repr` does for values in the accepted range.

The integer arguments that the menu passes after coercing the user's input are plain `int`s here.

Where the program and its written description differ, the model follows the program:

- A patient id is any integer that `int()` accepts, not only a positive one.
- The date filter compares the integer values of the year and month. A stored date `02023-5-1` therefore matches year 2023, not only dates that start with "2023-".
- The date filter raises `ValueError` when a stored date splits into three parts that are not all integers. Loading never validates dates, so such a visit can be in the store. The model returns that visit as a failure instead of a result.
- A rewritten file is equal to the dictionary when read back (`Load(Lines(p)) == p`). It is not textually equal to the lines it was loaded from: numbers are written back in their `str()` form.

## Model

| member | source | states |
|---|---|---|
| Text.Strip | main_22BCSH27.py:28 | the stripped text neither starts nor ends with a blank, and text with no blank at either end is left unchanged; the blanks are every `str.isspace()` character for `str.strip()`, and that set without U+001C-U+001F for the whitespace `int()` and `float()` skip |
| Text.StripKeeps | main_22BCSH27.py:28 | stripping removes only blanks: every other character of the line is still there |
| Text.TrimStartSuffix | main_22BCSH27.py:28 | stripping the front keeps a suffix of the line that does not start with a blank, and drops only blanks |
| Text.TrimEndPrefix | main_22BCSH27.py:28 | stripping the end keeps a prefix of the line that does not end with a blank, and drops only blanks |
| Text.Split | main_22BCSH27.py:31 | a split has at least one piece and no piece contains the separator |
| Text.JoinSplit | main_22BCSH27.py:31 | joining the pieces of a split with the separator gives the line back |
| Text.SplitJoin | main_22BCSH27.py:31 | splitting the join of separator-free pieces gives back exactly those pieces |
| Text.JoinAvoids | main_22BCSH27.py:373 | a character in no field and different from the comma is not in the written line |
| Numbers.ParseInt | main_22BCSH27.py:40 | text that `int()` accepts is, once the whitespace `int()` skips is dropped, made only of digits, signs and points |
| Numbers.SeparatorNotSkipped | main_22BCSH27.py:43 | `int()` refuses `80` after U+001C, which `str.strip()` would drop, and reads `80` followed by an ideographic space as 80 |
| Numbers.ParsedIntAvoids | main_22BCSH27.py:227 | text `int()` accepts holds no comma and no other character outside the whitespace `int()` skips, digits, signs and points |
| Numbers.IntStr | main_22BCSH27.py:275 | `str(n)` is non-empty, starts with a digit or '-', ends with a digit, and holds only digits, signs and points, so never a comma |
| Numbers.NatStrValue | main_22BCSH27.py:275 | the digits of `str(n)` read back as `n` |
| Numbers.IntRoundTrip | main_22BCSH27.py:40 | `int(str(n)) == n` for every integer |
| Numbers.WithinValue | main_22BCSH27.py:53 | the integer-scaled comparison is exactly `lo <= temperature <= hi` on the decimal's real value |
| Numbers.Canonicalize | main_22BCSH27.py:42 | normalising a read decimal keeps its sign, never grows its scale and leaves a canonical one alone |
| Numbers.CanonicalizeValue | main_22BCSH27.py:42 | dropping trailing fractional zeros keeps the value read |
| Numbers.FloatStr | main_22BCSH27.py:275 | `str(f)` starts with a digit or '-', ends with a digit and holds only digits, signs and points |
| Numbers.ParseFloat | main_22BCSH27.py:42 | text that `float()` accepts is, once the whitespace it skips is dropped, non-empty number text, and the value read is negative exactly when that text starts with '-'; `FloatRoundTrip` is its inverse with `FloatStr` |
| Numbers.FloatRoundTrip | main_22BCSH27.py:42 | `float(str(f)) == f` for every canonical decimal |
| Vitals.FirstOutOfRange | main_22BCSH27.py:53-75 | no vital is reported exactly when all six are in range; otherwise the reported one is out of range and every one checked before it is in range |
| Vitals.ParseDate | main_22BCSH27.py:227 | a date that `map(int, date.split('-'))` reads as three integers has exactly three parts and holds no comma, so it fits in one field of a line; `ValidateVisit` states the acceptance that rests on it |
| Vitals.ValidateVisit | main_22BCSH27.py:222-264 | accepted exactly when the date parses, is in range and all six vitals are in range; rejected for format exactly when the date does not split into three integers, for date range exactly when it parses but is out of range, otherwise for the first vital out of range; an accepted visit is storable |
| Codec.ParseFields | main_22BCSH27.py:39-47 | the date field is kept verbatim |
| Codec.DecodeLine | main_22BCSH27.py:28-75 | a line is accepted exactly when its stripped text splits into eight fields, all seven numbers parse and all six readings are in range, and it then yields the parsed patient id and visit, which is storable; it is refused for its field count exactly when it does not have eight fields, for a bad number exactly when it has eight and some number does not parse, and for a range exactly with the first failing vital of the parsed visit |
| Codec.EncodeLine | main_22BCSH27.py:275 | the line written for a visit whose date holds no comma splits back into exactly its eight fields; `DecodeEncode` is its inverse |
| Codec.FieldsAvoidComma | main_22BCSH27.py:275 | no field of a written line holds a comma |
| Codec.DecodeEncode | main_22BCSH27.py:275 | decoding the line written for a storable visit gives back the patient id and the visit |
| Store.Empty | main_22BCSH27.py:24 | the empty dictionary is well formed and holds no visits |
| Store.Insert | main_22BCSH27.py:78-81 | the visit becomes the last of the patient's list, or a one-visit list for a new patient placed last in key order; every other patient is unchanged; well-formedness and storability are kept |
| Store.InsertCount | main_22BCSH27.py:81 | recording a visit adds one to the number of visits held |
| Store.RemoveKey | main_22BCSH27.py:358 | the key order keeps exactly the keys other than the deleted id, never grows, keeps keys distinct, and an absent id changes nothing |
| Store.RemoveKeyAt | main_22BCSH27.py:358 | removing a key that occurs only at one position cuts out that position and keeps every other key in its place |
| Store.RemoveKeyOrder | main_22BCSH27.py:358 | in a key order without repeats, deleting a present id cuts it out at its position and the rest keep their order |
| Store.Remove | main_22BCSH27.py:356-358 | the patient is no longer a key, every other patient is unchanged, an absent id is a no-op, and well-formedness and storability are kept |
| Store.Accept | main_22BCSH27.py:27-81 | a refused line leaves the dictionary unchanged; an accepted one records its visit |
| Store.LoadInto | main_22BCSH27.py:27-81 | loading lines into a storable dictionary keeps it storable |
| Store.Load | main_22BCSH27.py:24-88 | a loaded dictionary is well formed, has no empty visit list and holds only visits that passed the checks |
| Store.LoadCharacterised | main_22BCSH27.py:78-81 | keys are the ids of accepted lines in order of first appearance; each patient holds exactly its accepted visits in file order; a patient is present exactly when one of its lines was accepted |
| Store.LoadCount | main_22BCSH27.py:27-81 | the number of visits loaded equals the number of accepted lines |
| Store.PatientLines | main_22BCSH27.py:369-373 | one line is written per visit |
| Store.LinesOfRecorded | main_22BCSH27.py:368-373 | every written line encodes a recorded visit of one of the patients |
| Store.RoundTrip | main_22BCSH27.py:366-373 | reading back the rewritten file gives the dictionary it was written from |
| Store.AppendPersists | main_22BCSH27.py:267-275 | loading the file with the appended line gives the dictionary with the visit recorded |
| Store.DeleteRewrite | main_22BCSH27.py:356-373 | after deleting a patient, the rewritten file reads back as the dictionary after deletion and no line of it is for that patient |
| Queries.ScanVisitsSucceeds | main_22BCSH27.py:302-308 | scanning one patient fails exactly when one of its dates splits into three parts that are not all integers |
| Queries.ScanVisitsFinds | main_22BCSH27.py:302-315 | a successful scan of one patient finds exactly its visits whose date parses and matches each filter given |
| Queries.ScanVisitsStops | main_22BCSH27.py:304-308 | a failed scan stops at the first visit whose date raises |
| Queries.ScanKeysMeaning | main_22BCSH27.py:301-315 | scanning the patients succeeds exactly when no recorded date raises, then finds exactly the matching pairs, and otherwise reports a recorded visit whose date raises |
| Queries.VisitsByDateMeaning | main_22BCSH27.py:282-316 | a month without a year or outside 1-12 finds nothing; otherwise the result is exactly the recorded (patient, visit) pairs whose date matches, unless some recorded date raises |
| Queries.ScanPatient | main_22BCSH27.py:302-315 | the inner loop appends exactly what the specification scan of that patient finds, or stops with its failure |
| Queries.FindVisitsByDate | main_22BCSH27.py:291-316 | the guards and nested loops compute exactly the specification result |
| Queries.FollowUpMeaning | main_22BCSH27.py:330-343 | a patient is listed exactly when one of its visits has HR > 100, HR < 60, SBP > 140, DBP > 90 or SpO2 < 90 |
| Queries.FollowUpDistinct | main_22BCSH27.py:330-343 | no patient is listed twice |
| Queries.FindPatientsWhoNeedFollowUp | main_22BCSH27.py:327-343 | the loop with its early break computes exactly the follow-up list, in dictionary order |
| Registry.PatientTable.constructor | main_22BCSH27.py:24 | a new table is the empty dictionary |
| Registry.PatientTable.Append | main_22BCSH27.py:78-81 | the table becomes the dictionary with the visit recorded, and stays storable when the visit is |
| Registry.PatientTable.Delete | main_22BCSH27.py:356-358 | the table becomes the dictionary with the patient removed and stays storable |
| Registry.ReadPatientsFromFile | main_22BCSH27.py:24-88 | the loop over the lines builds a fresh table holding exactly the loaded dictionary |
| Registry.AddPatientData | main_22BCSH27.py:204-278 | returns the validation outcome; a rejection changes neither table nor file; an acceptance records the visit and appends its line; a table that agreed with its file still does |
| Registry.WriteAll | main_22BCSH27.py:366-373 | the nested loops write exactly the lines of the dictionary, patient by patient and visit by visit |
| Registry.DeleteAllVisitsOfPatient | main_22BCSH27.py:346-373 | the patient is removed, the new file is the rewrite of what remains, reads back as the table and has no line for the patient |

## Left out

- File handles, the `FileNotFoundError` and generic `except Exception` handlers, and the exceptions a failed write raises are not modelled (lines 26, 83-86, 273-278, 366). A missing file, and a read that fails part-way, cannot occur in this model.
- A failed append after the in-memory insert cannot occur here, so there is no inconsistency window between table and file (lines 267-278).
- Newline handling is not modelled; the file here is a sequence of lines. A date containing a line-break character is written as one line but would be read back as two.
- Store.AppendPersists: assumes the file read so far ends with a newline. When it does not, the append at lines 274-275 glues the new record onto the last line, and on reload that combined line is skipped, losing both visits while memory holds both.
- All printing is left out: the per-line error messages, the addPatientData messages and `displayPatientData` (lines 91-114).
- `displayStats` (lines 118-200) is left out: it computes float averages and `%.2f` output, and it raises on an empty store.
- The `main` menu and `input()` coercion (lines 386-453) are left out. The query and insert operations take typed arguments.
- Numbers.ParseInt: `int()` is modelled on ASCII decimal digits with an optional sign, inside the whitespace `int()` skips (the `str.isspace()` set without U+001C-U+001F). Python also accepts underscores between digits (`1_0`) and non-ASCII decimal digits; the model rejects both. Python 3.11 and later also refuses text of more than 4300 digits by default (the limit is set with `sys.set_int_max_str_digits`); the model has no digit limit, so a line with a longer number, which the source skips, is loaded here.
- Numbers.ParseFloat: `float()` is modelled on ASCII decimal text with at most one point, inside the same whitespace as `int()`. Python also accepts exponents, `inf`, `nan`, underscores between digits (`3_7.5`) and non-ASCII decimal digits; the model rejects all of these, so a line such as one with temperature `3.7e1`, which the source loads, is skipped here as a bad number.
- Numbers.Within: temperatures are exact decimals, so the range check compares exact values. Binary float rounding, as in `42.0000000000000001` reading as 42.0, is not modelled.
- Numbers.FloatStr: writes the exact decimal. Python's shortest-repr algorithm and its exponent form for very large or small values are not modelled.
- The unreachable `return visits` (line 317) and the commented-out `else` branch (lines 360-363) have no counterpart in the model.
