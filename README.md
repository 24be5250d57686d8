# Credential classification and corpus cleaning, in Dafny

This project models the sequential core of a password-audit toolkit.

- **process.py** holds the three credential checks:
  - `check_rainbow_table` runs every credential's NTLM digest against precomputed hash tables and attributes each cracked credential to the table that cracked it.
  - `check_predictable` keeps the credentials whose lower-cased form is a dictionary word.
  - `strength_check` is a three-way classifier on length and character classes.
- **files.py** holds `convert_and_combine`, which builds the credential corpus:
  - It reads the `.txt`, `.csv` and `.xlsx` files of a folder, dispatched by extension.
  - It renders CSV rows as `", "`-joined fields.
  - It joins all contents with `"\n"`.
  - It strips every line, drops blank lines, and removes duplicates.

Modules:

- `Wrappers` (wrappers.dfy): the `Option` type, for a value that may be missing.
- `Text` (text.dfy): the Python string primitives the two scripts use.
  - `str.strip` and `bytes.strip`, with Python's own whitespace tables.
  - `str.splitlines`, with its line-boundary table, `"\r\n"` merging and end-of-text rule.
  - `str.join` and `str.endswith`.
  - ASCII `isupper`, `islower`, `isdigit`, `isalnum` and `lower`.
- `Process` (process.dfy, modelling process.py):
  - `StrengthCheck` is a function returning a `Strength` verdict; `StrengthLabel` gives the string the source returns for it.
  - `CheckPredictable` and `CheckRainbowTable` are the loops of the source, written as methods. Each is proved equal to a specification function: the recursive `Predictable`, and `Rainbow`, which hands the listing to the recursive `ScanTables`.
  - Lemmas state soundness, completeness, last-table-wins attribution and the error paths.
- `Files` (files.dfy, modelling files.py):
  - `ConvertAndCombine` is the listing loop with its extension dispatch, proved against `Collected`.
  - `CleanPasswords` is the pure cleaning tail.
  - `RenderCsv` renders CSV rows.

Everything outside the program's own logic is an input to the model:

- The folder listing, the content each reader yields, and the lines of each table file.
- The NTLM digest, a function `string -> Option<Bytes>`. None stands for process.py:50 raising: the UTF-16LE encoding, or `hashlib.new('md4')` where MD4 is unavailable (then every password yields None).

Four behaviours of the code matter for what is proved. The model follows the code in each:

- **Last table wins.** `cracked_passwords[pwd] = ...` (process.py:52) overwrites. A credential found in several tables is attributed to the last of them in listing order, not the first (`RainbowLastWins`, `LaterTableWinsExample`).
- **Any exception ends the whole scan.** One `try` surrounds both loops (process.py:44-56). A table that cannot be opened, or a credential that cannot be encoded, is therefore not skipped. The scan stops and the partial mapping is returned (`RainbowStopsAtUnreadable`, `RainbowStopsAtUnencodable`).
- **No skip counts are kept.** Table lines are never parsed, so a malformed line is simply one more member of the set.
- **An empty credential list is not an error.** The tables are still read and the result is empty.

## Model

| member | source | states |
|---|---|---|
| Text.Strip | files.py:56 | `str.strip()`: the result is no longer than the input; a non-empty result neither starts nor ends with whitespace |
| Text.StripKeepsSlice | files.py:56 | what `strip` keeps is a contiguous slice of the line, and everything cut off on either side is whitespace |
| Text.StripFixpoint | files.py:56 | a string is its own strip exactly when it is empty or has no whitespace at either end |
| Text.StripIdempotent | files.py:56 | stripping twice is stripping once |
| Text.ByteStrip | process.py:48 | `bytes.strip()`: a non-empty result starts and ends with a non-whitespace byte |
| Text.ByteStripKeepsSlice | process.py:48 | what `bytes.strip` keeps is a contiguous slice of the line and everything cut off is whitespace; the result is `b""` exactly when the line is all whitespace |
| Text.ByteStripIdempotent | process.py:48 | stripping a table line twice is stripping it once |
| Text.ByteStripIsSlice | process.py:48 | `bytes.strip` returns exactly `s[i..j]` when everything outside is whitespace and the slice starts and ends with a non-whitespace byte |
| Text.IsByteSpace | process.py:48 | `bytes.isspace`: the whitespace bytes are exactly the ASCII `str` whitespace characters (the `Text.IsSpace` table of `str.isspace`) other than the separators \x1c-\x1f |
| Text.IsLineBreak | files.py:56 | the line boundaries of `str.splitlines` are all `str` whitespace; among ASCII characters they are exactly the whitespace other than space, tab and \x1f |
| Text.CharClasses | process.py:64-67 | the ASCII classes used for `isupper`, `islower`, `isdigit` and `isalnum` (`IsUpper`, `IsLower`, `IsDigit`, `IsAlnum`): upper, lower and digit are disjoint, `isalnum` is their union, and no alphanumeric character is `str.isspace` whitespace (`IsSpace`, the table `strip` uses at files.py:56) |
| Text.EndsWith | files.py:24 | `str.endswith`, as the dispatch of files.py:24, 31 and 39 uses it: the last characters of the name are, one by one, those of the suffix |
| Text.EndsWithConcat | files.py:24 | a name ends with a suffix exactly when it is some text followed by that suffix |
| Text.Join | files.py:55 | `sep.join`, as used at files.py:35, 55 and 64: no parts give the empty text, a single part is returned as it is, and otherwise the text starts with the first part and ends with the last |
| Text.JoinAppend | files.py:35 | joining two non-empty lists put together gives the join of the first, the separator, then the join of the second: the separator stands between every two consecutive parts, which with the single-part case determines `sep.join` |
| Text.Lower | process.py:37 | `str.lower()` keeps the length, leaves no upper-case letter, maps each upper-case letter to its lower-case one and keeps every other character |
| Text.LineEnd | files.py:56 | the index of the first line boundary, with no boundary before it |
| Text.SplitLines | files.py:56 | `str.splitlines()`: no line holds a boundary, and there are no lines exactly when the text is empty |
| Text.SplitLinesCharacterised | files.py:56 | what `splitlines` means: a list is the lines of the text exactly when the text is those lines, each followed by one boundary (a single boundary character or "\r\n", a "\r" never leaving a "\n" behind), where only a non-empty last line may lack its boundary |
| Text.SplitLinesOfJoin | files.py:55-56 | splitting the `"\n"`-join of boundary-free lines, the last one non-empty, gives back exactly those lines |
| Text.JoinNoLineBreak | files.py:35 | joining boundary-free parts with a boundary-free separator gives boundary-free text |
| Text.StripNoLineBreak | files.py:56 | stripping a boundary-free line keeps it boundary-free |
| Text.Cleaned | files.py:56 | `[l.strip() for l in lines if l.strip()]`: every element is non-empty and already stripped, and the elements are exactly the stripped non-blank lines |
| Text.CleanSplitLinesIsCleanPieces | files.py:56 | once cleaned, `splitlines` agrees with splitting at every single boundary character, so its `"\r\n"` merging and end-of-text rule only affect blank lines |
| Text.CleanOfJoin | files.py:55-56 | the cleaned lines of a `"\n"`-joined text are the union of the cleaned lines of its parts |
| Text.CleanLinesOfJoin | files.py:55-56 | a cleaned line of the joined text is exactly a cleaned line of one of the parts: joining loses and invents no line |
| Process.Label | process.py:63-72 | the verdict is always one of the strings "Weak", "Medium", "Strong" |
| Process.StrengthLabel | process.py:60-72 | the string `strength_check` returns is one of "Weak", "Medium", "Strong"; "Weak" below eight characters; "Strong" exactly when the length is at least 8 and all four character classes occur; "Medium" and "Weak" exactly for those verdicts of `StrengthCheck` |
| Process.Any | process.py:64-67 | `any(p(c) for c in s)` holds exactly when some character satisfies `p` |
| Process.StrengthCheck | process.py:60-72 | shorter than 8 is Weak; Strong exactly when the length is at least 8 and there is an upper-case letter, a lower-case letter, a digit and a non-alphanumeric character; Medium exactly when the length is at least 8, not Strong, and there is a letter and also a digit or special character; Weak exactly otherwise |
| Process.StrengthMonotone | process.py:60-72 | appending characters never lowers the verdict |
| Process.Predictable | process.py:33-39 | the kept passwords are exactly the inputs whose lower-cased form is a dictionary word |
| Process.PredictableAppend | process.py:36-38 | the filter distributes over concatenation, so it keeps input order and adds nothing |
| Process.PredictableIdempotent | process.py:36-38 | filtering the result again changes nothing |
| Process.CheckPredictable | process.py:33-39 | the loop returns the order-preserving filter `Predictable`, whose members are exactly the inputs whose lower-cased form is in the dictionary |
| Process.HashSet | process.py:48 | `set(line.strip() for line in rainbow_file)`: every stripped line of the table is a member |
| Process.HashSetMembers | process.py:48 | the members are exactly the stripped lines of the table, nothing else |
| Process.HashSetStripped | process.py:48 | every member of the set is already stripped |
| Process.CracksMeans | process.py:48-51 | a regular file that was read cracks a password exactly when the password can be encoded and one of the file's lines, stripped, equals its digest |
| Process.DigestLineStrips | process.py:48-51 | a table line holding an upper-case hex digest plus a whitespace line ending strips to exactly that digest, so it matches the credential's digest |
| Process.RegularFiles | process.py:45 | the `isfile` filter keeps exactly the regular entries of the listing |
| Process.ScanRegularFiles | process.py:45-46 | filtering the listing to regular files before the loop gives the same scan as passing over non-files inside it |
| Process.CheckRainbowTable | process.py:41-57 | the nested loops return the mapping of the scan specification `Rainbow`, including on every exception path; a missing directory gives the empty mapping |
| Process.ScanPasswords | process.py:49-52 | the inner loop raises exactly when some password cannot be encoded; it keeps every existing key, and each entry it adds or overwrites is an input password whose digest is in that table's set, attributed to that table |
| Process.ScanTables | process.py:46-56 | the outer loop raises exactly when a regular file cannot be read or (once a regular file is reached) a password cannot be encoded; it keeps every existing key, and each entry it adds or overwrites is an input password attributed to a regular file of the listing that cracks it |
| Process.Rainbow | process.py:41-57 | a missing directory gives the empty mapping; the scan raises exactly when the directory is missing, a regular file cannot be read or a password cannot be encoded; on every path every key is an input password and its value is the name of a regular file of the listing whose stripped lines hold the key's digest |
| Process.LastCrackerNone | process.py:46-52 | no table is found for a password exactly when no regular file of the listing cracks it |
| Process.LastCrackerIsLast | process.py:46-52 | a table that is found cracks the password, and no later file does |
| Process.HitsCons | process.py:49-52 | one step of the inner loop: the first password's hit is overlaid before those of the rest |
| Process.ScanPasswordsNoError | process.py:49-52 | when every password encodes, one table's scan overlays its hits on the mapping and raises nothing |
| Process.ScanTablesAppend | process.py:46-56 | scanning a listing `a + b` scans `a`, then, unless that raised, `b` |
| Process.ExpectedSnoc | process.py:46-52 | a readable regular file appended to the listing overlays its hits on the reference result |
| Process.ScanTablesNoError | process.py:44-52 | a scan that raises nothing yields the reference mapping: every cracked password goes to the last file that cracks it |
| Process.RainbowComplete | process.py:44-52 | without exceptions the scan completes, and a password is a key exactly when it is an input and some regular table file holds its digest |
| Process.ExpectedIsLast | process.py:52 | in the reference mapping each password goes to a file that cracks it and after which no file does |
| Process.RainbowLastWins | process.py:52 | without exceptions, a password cracked by several tables is attributed to the last of them in listing order |
| Process.RainbowOrderIndependent | process.py:49-52 | without exceptions, the result depends on the passwords only as a set, not on their order or repetitions |
| Process.LaterTableWinsExample | process.py:46-52 | tables "a.hash" then "b.hash" both holding the digest of "abc123" attribute it to "b.hash" |
| Process.RainbowStopsAtUnreadable | process.py:46-56 | an unreadable regular file ends the scan; the result is the full mapping of the files before it, and no later file is scanned |
| Process.NoRegularFiles | process.py:45-46 | a listing with no regular file leaves the mapping unchanged |
| Process.ScanPasswordsAppend | process.py:49-56 | the inner loop over `a + b` runs over `a`, then, unless that raised, over `b` |
| Process.ScanPasswordsStopsAt | process.py:49-56 | the inner loop stops at the first password that cannot be encoded, with the hits of the passwords before it |
| Process.ExpectedFirstFile | process.py:46-52 | when a readable file is the first regular one of the listing, the reference mapping up to it is just its hits |
| Process.RainbowStopsAtUnencodable | process.py:49-56 | a password that cannot be encoded ends the scan in the first regular file of the listing, when that file is readable; only the passwords before it have been matched against that file, and no later file is scanned. With `RainbowStopsAtUnreadable` this covers every exception path |
| Files.KindOf | files.py:24-47 | the extension dispatch: `.txt`, `.csv` and `.xlsx` each select their branch exactly when the name ends with that suffix; any other name is unsupported |
| Files.RenderRows | files.py:35 | the inner comprehension `[', '.join(row) for row in csv_content]`: one line per row, each the row's fields joined by ", ", and when no field holds a line boundary, no rendered line holds one |
| Files.RenderCsv | files.py:35 | when no field holds a line boundary, the lines of the rendered CSV text are its rendered rows, less an empty last one (an empty CSV gives no line, a blank last row adds none); with a non-empty last row they are exactly the rendered rows |
| Files.BlankLastRow | files.py:35 | a CSV of one boundary-free row followed by a blank row (`[]` from `csv.reader`) renders as text whose only line is that row's `", "`-join |
| Files.Contribution | files.py:19-49 | a listing entry contributes nothing exactly when it is not a regular file, its name has no supported extension, or its reader raises |
| Files.ReadEntry | files.py:19-47 | the body of the listing loop for one entry (the non-file skip and the `endswith` chain) returns exactly that entry's contribution |
| Files.Collected | files.py:14-49 | at most one content is collected per listing entry, and every collected content is the contribution of some entry of the listing |
| Files.CollectedAppend | files.py:16-49 | collection distributes over the listing: contents are collected in the order the entries are visited |
| Files.CollectedSnoc | files.py:16-49 | visiting one more entry appends its content, if it has one |
| Files.SkippedEntryContributesNothing | files.py:19-21 | a non-file, an unsupported extension, or a file whose reader raises contributes nothing, wherever it appears in the listing |
| Files.ReadEntryContributes | files.py:24-44 | a regular `.txt`, `.csv` or `.xlsx` file whose reader succeeds contributes exactly its text, its rendered CSV rows or its converted sheet, wherever it appears in the listing |
| Files.Dedupe | files.py:59 | `list(set(...))`: no duplicates, and exactly the same elements as the input |
| Files.CleanPasswords | files.py:55-59 | no duplicates; every password is non-empty and already stripped; the passwords are exactly the stripped non-blank lines of the `"\n"`-joined contents, which are exactly the stripped non-blank lines of the individual contents |
| Files.ConvertAndCombine | files.py:5-64 | no output when nothing was collected; otherwise the output is the cleaning of the contents the loop collected in listing order |
| Files.OutputReadsBack | files.py:63-64 | the written output, the passwords joined by "\n", reads back line by line as exactly the passwords |

## Left out

- MD4 and the UTF-16LE encoding (process.py:50) are a function parameter `ntlm`. It returns None where process.py:50 raises: the encoding, or `hashlib.new('md4')` where MD4 is unavailable. A Dafny string cannot hold the lone surrogate that makes the encoding raise, so the unavailable hash is the realistic case. Nothing is assumed about the digest beyond it being a function of the password, except where a lemma requires an upper-case hex digest.
- `analyze_passwords`, `setup_logging`, `load_dictionary`, the `__main__` blocks, `tqdm` and `logging` are not part of this model. They are statistics in floating point, plotting, file output and logging.
- `os.listdir`, `os.path.isfile` and `open`/`read` are not modelled. The listing is a sequence of entries that carry whether each is a regular file and what its reader yields.
- Files.ConvertAndCombine: a failing `os.listdir(input_folder)` (files.py:16) or a failing `open` of the output file (files.py:63) raises out of `convert_and_combine`, since neither is caught there. The model has no such error path: the listing is given, and the write is not modelled.
- `csv.reader` quoting, `pd.read_excel` and `df.to_csv` are foreign library behaviour. A CSV entry carries its parsed rows; an `.xlsx` entry carries the text `to_csv` produces.
- Text.Lower: only ASCII letters are lowered. Python's `str.lower` also maps non-ASCII letters.
- Process.StrengthCheck: `isupper`, `islower`, `isdigit` and `isalnum` are taken on ASCII only. Non-ASCII letters and digits count as special characters.
- Files.Dedupe: `list(set(...))` has no specified order. The model keeps the last occurrence of each password. Every property stated about the output holds whatever the order.
- The `print` messages of files.py and the file write itself are not modelled (I/O). `OutputReadsBack` states what the written text contains.
- Process.Rainbow: the mapping is a `map`, which has no order. Python's `dict` also remembers the order in which passwords were first cracked (an overwrite keeps the position), and the report reads it when it prints the first ten entries (process.py:167). That report is not part of this model.
- The UTF-8 `errors='replace'` decoding of text files is not modelled. The text a reader yields is an input.
