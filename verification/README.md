# PDF multi-colour highlighter: the logic behind the two Streamlit scripts

`App.py` and `QuickApp.py` are two Streamlit front-ends for the same tool.
The user uploads a PDF, builds named word libraries, gives each library a
colour, and gets back the PDF with every occurrence of every word
highlighted in its library's colour, together with a hit count per library.
Almost all of both scripts is widget, file and PDF-library plumbing. This
project pulls out the logic written inline in them and models it as pure
Dafny functions:

- **Colour conversion** (`Colour`): `hex_to_rgb` strips leading `#`, reads
  the slices `[0:2]`, `[2:4]` and `[4:6]` with Python's `int(slice, 16)`, and
  divides each value by 255. `int` is modelled on slices of at most two
  characters for ASCII hex digits, surrounding whitespace in `int`'s own
  sense (which is not quite `str.isspace`) and one leading sign. Non-ASCII
  digits are not modelled (see "Left out").
- **Manual word lists** (`WordList`, on top of `PyText`, the Python `str`
  operations used): newlines become commas, the text is split on commas,
  each piece is stripped, and blank pieces are dropped.
- **The library registry** (`Registry`, on top of `PyDict`, an
  insertion-ordered dict). It supports:
  - spreadsheet import, where the first write wins. Both scripts skip an
    unreadable sheet, and QuickApp skips an empty sheet too;
  - manual add, which overwrites;
  - the clear button;
  - building `final_configs` from the selected names and picked colours.
- **The highlight tally** (`Tally`): the loop over pages, libraries and
  words. Each quad returned by the page search adds one to its own
  library's counter. The search is a parameter.
- **QuickApp's preview page rule** (`Preview`): only the first `max_pages`
  pages are previewed.

The scripts also differ in their preview. App shows the whole file
(App.py:196). QuickApp shows at most three pages (QuickApp.py:208), and
`Preview` models that rule. In two further places the `Script` datatype
(`App | QuickApp`) selects between the scripts:
- how a spreadsheet upload is admitted;
- the `if quads` guard around the tally's inner loop.

Several operations are tied by a lemma to a second, independent
description of the same behaviour:
- `ParseHexField` is proved equal to `PythonInt16`, a direct reading of
  `int(s, 16)` as strip, sign and digits (`ParseHexFieldIsPythonInt`).
- Colour-picker strings written by `FormatHex` convert back to the byte
  triple they came from (`FormatHexRoundTrip`).
- Words joined by commas or newlines parse back to the same list
  (`ParseManualListJoin`).
- Spreadsheet import is proved equal to `FirstAdmitted`, the words of the
  first admitted upload of each name (`ImportUploadsFirstWins`).
- The page-major tally is proved equal to the word-major sum
  (`PageMajorIsWordMajor`).

## Model

| member | source | states |
|---|---|---|
| PyText.Strip | App.py:75 | `w.strip()` has no whitespace at either end. It is one contiguous run of the input with only whitespace before and after it. It keeps only characters of its input. It is empty exactly when the input is all whitespace. A string with no whitespace at either end is unchanged |
| PyText.DropLeading | App.py:28 | `lstrip('#')` removes a prefix made only of `#`. What remains does not start with `#` |
| PyText.Slice | App.py:29 | `s[i:j]` clamps both ends to the length. It is the ordinary sub-sequence when in range, the tail from `i` when only `j` is past the end, and empty when it starts past the end or `j < i` |
| PyText.Split | App.py:75 | `split(',')` yields at least one piece. No piece contains the separator, and no piece has characters the input lacks |
| PyText.SplitConcat | App.py:75 | splitting `a + sep + b` gives the pieces of `a` followed by the pieces of `b` |
| PyText.JoinSplit | App.py:75 | joining the pieces of a split with the separator gives back the original string |
| PyText.SplitJoin | App.py:75 | splitting a join of separator-free parts gives back the parts |
| PyText.ReplaceChar | App.py:75 | `replace('\n', ',')` changes exactly the newlines, position by position, and keeps the length. No newline is left |
| PyText.ReplaceCharConcat | App.py:75 | `replace('\n', ',')` works character by character, so it distributes over concatenation |
| WordList.Pieces | App.py:75 | after newlines become commas and the text is split on commas, no piece holds a comma or a newline |
| WordList.ParseManualList | App.py:75 | every word produced is non-empty, stripped, and free of commas and newlines |
| WordList.ParseManualListConcat | QuickApp.py:93 | a comma or a newline between two texts yields the words of the left text followed by those of the right, so order is kept and nothing is de-duplicated |
| WordList.ParseManualListOnePiece | App.py:75 | a text without separators yields its stripped self, or nothing when it is blank |
| WordList.ParseManualListJoin | QuickApp.py:93 | words joined by commas, or by newlines, parse back to exactly the same list, repeats included |
| WordList.WordParsesToItself | App.py:75 | a well-formed word entered alone yields exactly that word |
| WordList.RepeatedWordKept | App.py:75 | a word entered twice appears twice |
| WordList.SeparatorOnly | App.py:75 | a text that is a single comma yields no words |
| Colour.ParseHexField | App.py:29 | `int(slice, 16)` on a slice of at most two characters is either in [-15, 255] or raises with that slice. A negative value needs a leading `-` |
| Colour.ParseHexFieldIsPythonInt | QuickApp.py:53 | the case split equals the reading of `int(s, 16)` as: strip the whitespace `int` skips (not the separators U+001C to U+001F), take an optional sign, then read ASCII hex digits |
| Colour.HexToRgb | App.py:26-29 | when the conversion succeeds, every channel is in [-15, 255]. Four or fewer characters after the `#` prefix always raise |
| Colour.ToUnit | App.py:29 | each returned component times 255 is the integer channel. Byte channels give components in [0, 1] |
| Colour.PickerHexParses | QuickApp.py:51-53 | a `#` plus six hex digits converts to the three two-digit values it spells, each a byte, so each component is in [0, 1] |
| Colour.FormatHexRoundTrip | QuickApp.py:51-53 | any byte triple written as a colour-picker string converts back to itself |
| Colour.HashesStripped | App.py:28 | every leading `#` is stripped, not only the first |
| Colour.TailIgnored | App.py:29 | only the first six characters after the `#` prefix are read, and anything after them is ignored |
| Colour.YellowIsOneOneZero | App.py:101 | the spreadsheet default `#FFFF00` converts to (255, 255, 0), which is (1, 1, 0) after division |
| Colour.GreenIsZeroOneZero | App.py:78 | the manual default `#00FF00` converts to (0, 255, 0), which is (0, 1, 0) after division |
| Colour.DefaultsArePickerHex | App.py:63 | the spreadsheet default, like the manual one, has the `#` plus six hex digits shape a colour picker returns |
| Colour.SignedSliceConverts | App.py:29 | because `int` accepts a sign, `#-10000` converts to a channel of -1 instead of raising |
| PyDict.Empty | App.py:13-14 | `{}` is a well-formed dict with no keys |
| PyDict.Put | App.py:76-79 | assigning a key stores the value. A present key keeps its position; a new key is appended. No other key changes |
| PyDict.PutPut | QuickApp.py:94-97 | of two assignments to one key, the second value wins, and the key stays where the first assignment put it |
| Registry.Cleared | App.py:128-129 | the assignment `= {}` leaves a registry with no names |
| Registry.LoadExcelData | QuickApp.py:14-20 | a read that raised gives `[]`. So an empty result means the read failed or the column was empty, and a non-empty result is exactly what was read |
| Registry.Admitted | QuickApp.py:14-20 | App stores whatever list it read. QuickApp stores a list exactly when the read succeeded and the list is non-empty, because a failed read yields `[]` |
| Registry.ImportUpload | App.py:55-64 | an upload whose name is registered changes nothing. Otherwise an admitted list is appended under the file name with default `#FFFF00` |
| Registry.ImportUploads | App.py:52-67 | importing a batch never changes or reorders an existing entry |
| Registry.ImportUploadsAppendsInOrder | App.py:52-67 | a batch only appends new names after the old ones, in the order in which their first admitted uploads come |
| Registry.ClearThenReimport | QuickApp.py:125-128 | after the clear button's rerun, the upload loop runs again from an empty registry. The registry then holds exactly the names some remaining upload admits, each with its first admitted words and `#FFFF00`, in admission order |
| Registry.ImportUploadsFirstWins | QuickApp.py:76-85 | a new name ends up registered exactly when some upload of that name is admitted, with the words of the first such upload |
| Registry.EmptySpreadsheetAdmission | QuickApp.py:78-85 | QuickApp skips an unreadable or empty sheet. App skips an unreadable one but registers an empty one |
| Registry.ManualAdd | App.py:74-79 | with a non-empty name and text, the name is set to the parsed words and `#00FF00`, overwriting. A name already present keeps its place; a new one goes last. Otherwise nothing changes. Other names and their entries are untouched |
| Registry.ManualAddLastWins | QuickApp.py:92-97 | of two manual adds under one name, the last one wins |
| Registry.ManualSeparatorOnlyRegistersEmpty | QuickApp.py:92-97 | a text of only a comma passes the guard and registers the name with no words |
| Registry.PickedHex | App.py:111-116 | the picker shows the user's pick if there is one, else the library's default. With picker values and the registry's own defaults, it always has the picker shape |
| Registry.BuildConfigs | App.py:103-122 | `final_configs` has exactly the selected names, in selection order. Each carries the registry's words unchanged and the conversion of the colour shown in its picker |
| Registry.PickedHexConverts | QuickApp.py:116-120 | the colour a picker shows, whether the user's pick or the library's default, converts to a byte triple |
| Registry.BuildConfigsOkIff | QuickApp.py:110-121 | `final_configs` is built exactly when every selected colour converts; otherwise the error propagates |
| Registry.PickerColoursBuild | QuickApp.py:111-121 | with colour-picker values and the registry's defaults, building cannot fail, and every channel is a byte |
| Registry.DefaultSelectionUsesDefaults | App.py:93-98 | with the default selection (every name) and no picks, every library is configured in registry order with its default colour converted |
| Tally.ZeroStats | App.py:149 | `total_stats` starts with exactly the configured names, each at 0 |
| Tally.AddQuads | App.py:167-171 | the quad loop raises the current library's counter by the number of quads and leaves every other counter alone |
| Tally.AddWordHits | QuickApp.py:171-178 | with or without QuickApp's `if quads` guard, one word raises its library's counter by exactly the number of quads found |
| Tally.AddLibraryHits | QuickApp.py:168-178 | one library on one page raises only that library's counter, by the page's hits for its words, repeats included |
| Tally.AddPageHits | App.py:158-171 | one page raises each configured library's counter by that page's hits for the library's words, and only that |
| Tally.CountHighlights | App.py:149-171 | each configured library's final count is the sum of its hits over all pages and all its words, repeats included. The keys are the configured names in order |
| Tally.LibHitsConcat | App.py:162-171 | a library's count over a concatenated word list is the sum of the counts of the parts, so a repeated word is counted once per repeat |
| Tally.PageMajorIsWordMajor | QuickApp.py:155-178 | the page-by-page count equals the word-by-word count over the whole document |
| Preview.PreviewPages | QuickApp.py:32-39 | the preview shows the first min(page count, `max_pages`) pages. The caption appears exactly when the document has more than `max_pages` pages |
| Preview.PreviewIdempotent | QuickApp.py:32-39 | previewing a preview shows the same pages again, without truncation |
| Preview.PreviewMonotone | QuickApp.py:32-34 | a larger page budget shows an extension of the smaller budget's pages, and truncates only if the smaller one did |
| Preview.DefaultPreview | QuickApp.py:208 | with `max_pages=3`, a document of up to three pages is shown whole; a longer one shows its first three pages |

## Left out

- Toasts, captions, columns, spinners and progress bars: these are display only. The progress rule at QuickApp.py:157 is among them.
- The input widgets are modelled only by the values they return. `st.file_uploader` gives the uploads `us`. `st.text_input` and `st.text_area` give the manual `name` and `text`. `st.button` decides which operation is applied. `st.multiselect` gives `selected`, which lists registered names with no repeats, as `Registry.BuildConfigs` requires. `st.color_picker` gives `picks`, whose values are `#` plus six hex digits, as `Registry.PickedHexConverts` requires.
- Registry.Cleared: states only the assignment `= {}` (App.py:129, QuickApp.py:126). The `st.rerun()` that follows runs the whole script again, so the upload loop at once re-imports every spreadsheet still in the uploader. `Registry.ClearThenReimport` states that outcome. The re-run of the rest of the page is not modelled.
- Spreadsheet reading with pandas (`read_excel`, `dropna`, `astype(str)`, `unique`) and `st.cache_data`: these are foreign library calls. An upload is modelled only by the list of strings it yields, or by a failed read.
- PyMuPDF: `search_for`, `add_highlight_annot`, `set_colors`, `update`, `save`, `insert_pdf` and `tobytes`. The search is an abstract function from a page and a word to its quads. Pages are opaque.
- Temporary files, base64 iframes, `os.unlink` and `gc.collect`: these are I/O.
- App's `display_pdf` (App.py:18-23): it shows the whole file, so there is no page rule to state.
- The run gate `process_btn and uploaded_pdf and final_configs` and the surrounding `try`/`except`: these only choose which UI messages appear.
- Colour.HexToRgb: for an arbitrary string, channels are only bounded by [-15, 255], because Python's `int` accepts a sign inside a slice (see `Colour.SignedSliceConverts`). The promise that every component lies in [0, 1] is proved for colour-picker strings (`Colour.PickerHexParses`), which is all the scripts pass.
- Colour.ParseHexField: non-ASCII Unicode decimal digits, which `int` also accepts, are not modelled. For a slice holding one, the model raises where Python returns a value. A colour string never contains them.
- Preview.PreviewPages: requires `max_pages >= 1`. With 0, PyMuPDF would read `to_page=-1` as "the last page". The script always passes 3.
- Floating-point rounding in the division by 255: the model uses exact reals.
- The colour-intensity rule for first occurrences versus repeats, word stemming, and the appended index of matched terms. Neither App.py nor QuickApp.py implements them.
