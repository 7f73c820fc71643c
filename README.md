# Creative Builder daily tracker: the store layer

A model of the storage side of `Tracker.py`, a single-page daily
satisfaction tracker. The page keeps three files:

- a plain-text checklist of item labels, one per line;
- a daily CSV log with one row per save: the date, a tick value per label, the journal notes;
- a work CSV log with one row per save that is not blank: the date, the stripped work note.

The model covers these parts of the page:

- loading the checklist, and seeding the eleven default labels when the file is missing;
- writing the checklist back;
- the Add and Delete buttons of the sidebar;
- the `responses` dict built from the checkboxes;
- the two append-only logs with their lazily written headers;
- the "last ten lines" views of both logs.

Modules:

- `Options`: `Option`.
- `Text`: Python's `str.strip()` over the full `str.isspace` set; the universal-newline translation a text-mode read applies; `readlines()`; `"".join`.
- `Checklist`: the default labels, the file format, the parser, and `list.remove`.
- `Logs`: rows as field lists, the `responses` dict with its insertion order, the lazy-header append, and the tail view.
- `Tracker`: class `Store`. It holds the three file states (`Option`: absent or present) and the checklist in memory. Each button is a method that changes those fields.

The central invariant is `Store.Consistent()`: loading the checklist file again gives exactly the list in memory.

- `LoadChecklist` establishes it.
- `DeleteItem` preserves it.
- `AddItem` preserves it for single-line input. A label holding a line break would come back as two labels, as `MultiLineLabelSplits` shows.

Two behaviours of the code are kept as written and stated in the contracts:

- If the stored label's text is `-- Select --`, it can be added but never deleted. The delete branch reads that choice as "nothing selected" (`AddDeleteSession`).
- The daily log's header is written only once. Rows saved after the checklist changes no longer line up with it (`SchemaDrift`).

## Model

| member | source | states |
|---|---|---|
| Text.Strip | Tracker.py:19 | the result is an infix of the input with no whitespace at either end; everything cut off is whitespace; it is empty exactly when the input is whitespace only |
| Text.StripPadded | Tracker.py:19 | any stripped text padded with whitespace on both sides strips back to itself, so the cut Strip makes is the only one possible |
| Text.StripStripped | Tracker.py:48 | stripping already stripped text changes nothing (Strip is idempotent) |
| Text.StripTrailingSpace | Tracker.py:19 | whitespace appended to a line, such as its newline, does not change what the line strips to |
| Text.StripNoLineBreak | Tracker.py:48 | stripping text without line breaks gives text without line breaks |
| Text.Translate | Tracker.py:18 | the text a text-mode read yields holds no carriage return, and text without one is read unchanged |
| Text.TranslatePrefix | Tracker.py:18 | text without a carriage return passes through the read unchanged, ahead of whatever follows |
| Text.CarriageReturnLineEnd | Tracker.py:18 | a `\r\n` line end is read as `\n` |
| Text.LoneCarriageReturn | Tracker.py:18 | a lone `\r`, not followed by `\n`, also ends a line and is read as `\n` |
| Text.ReadLines | Tracker.py:19 | the lines are non-empty, hold `\n` only at their end, all but the last end in `\n`, and joined together give back the text |
| Text.Join | Tracker.py:99 | `"".join`: a single line joins to itself, and the first line is never longer than the join |
| Text.JoinAppend | Tracker.py:99 | joining the concatenation of two line lists is the concatenation of their joins |
| Checklist.NonBlankLabels | Tracker.py:19 | the comprehension yields no more labels than lines, every label non-empty and stripped |
| Checklist.NonBlankLabelsWellFormed | Tracker.py:19 | labels taken from physical lines hold no line break |
| Checklist.ParseChecklist | Tracker.py:17-19 | every label loaded from any file content is non-empty, stripped and free of line breaks |
| Checklist.LabelsOfLine | Tracker.py:19 | one line contributes no label exactly when it is whitespace only, otherwise one |
| Checklist.ParseLine | Tracker.py:19 | loading goes line by line in file order: a `\n`-ended line contributes its stripped text, or nothing if blank, ahead of the labels of the rest of the file |
| Checklist.ParseWindowsLine | Tracker.py:18-19 | the same holds for a line ended by `\r\n` |
| Checklist.ParseMacLine | Tracker.py:18-19 | the same holds for a line ended by a lone `\r`, which a text-mode read also treats as a line end |
| Checklist.ParseLastLine | Tracker.py:19 | a last line without a line end counts like any other; the empty file loads as the empty list |
| Checklist.Serialize | Tracker.py:37-40 | the content `save_checklist` writes: empty exactly for the empty list, otherwise ending in a newline |
| Checklist.SerializeSnoc | Tracker.py:39-40 | writing one more label extends the file by that label and a newline |
| Checklist.RoundTrip | Tracker.py:37-40 | saving a list of non-empty, stripped, single-line labels and loading the file gives back exactly that list |
| Checklist.ReloadStable | Tracker.py:16-40 | whatever a load returns, saving it and loading again returns the same list |
| Checklist.MultiLineLabelSplits | Tracker.py:37-40 | a label `a\nb` saved and loaded comes back as the two labels `a` and `b` |
| Checklist.Defaults | Tracker.py:21-33 | the eleven default labels, text for text and in order |
| Checklist.DefaultsWellFormed | Tracker.py:21-34 | the eleven default labels are well formed, so the seeded file loads back as exactly the defaults in order |
| Checklist.FirstIndex | Tracker.py:54 | the position of the label's first occurrence: it holds the label and nothing before it does |
| Checklist.RemoveFirst | Tracker.py:54 | `list.remove` takes out exactly the first occurrence: the labels before it and after it stay, in order, and the list is one shorter |
| Checklist.RemoveFirstMultiset | Tracker.py:54 | deletion removes exactly one copy of the label from the list's contents |
| Checklist.RemoveFirstWellFormed | Tracker.py:54 | deleting keeps every remaining label well formed |
| Checklist.AddThenDelete | Tracker.py:47-55 | deleting a label that was just appended and appears nowhere else restores the list |
| Logs.KeyIndex | Tracker.py:62 | the dict slot for a key: the slot holding it, or the end exactly when the key is absent |
| Logs.Assign | Tracker.py:62 | `d[k] = v`: a new key goes at the end, an existing key keeps its place and takes the new value, every other entry is unchanged |
| Logs.ResponsesOf | Tracker.py:60-62 | the `responses` dict: one assignment per label in list order; its keys, values and duplicates are stated by the three lemmas below |
| Logs.BuildResponses | Tracker.py:60-62 | the loop builds exactly the dict that assigning the items' values in list order gives |
| Logs.ResponsesKeys | Tracker.py:60-62 | the dict's keys are the labels in order of first occurrence |
| Logs.FirstOccurrencesMembership | Tracker.py:60-62 | first occurrences hold every label and no other, each once |
| Logs.ResponsesOfDistinct | Tracker.py:60-62 | with distinct labels, the keys are the labels and the values the ticks, in checklist order |
| Logs.ResponsesLastWins | Tracker.py:60-62 | with a repeated label, the dict holds the tick of its last occurrence |
| Logs.KeyIndexUnique | Tracker.py:62 | with distinct keys, a key's slot is the only position holding it |
| Logs.DailyHeader | Tracker.py:77 | the header is `Date`, one column per dict key, then `Notes` |
| Logs.DailyRow | Tracker.py:78 | the row is the date, one column per dict value, then the notes, as many columns as the header |
| Logs.DailyColumnsAligned | Tracker.py:77-78 | header and row are equally long; column `j` of the header is the label whose tick is column `j` of the row, between the date and notes columns |
| Logs.WorkHeader | Tracker.py:86 | the work log's header is `Date, Work Done` |
| Logs.WorkRow | Tracker.py:87 | the row has the header's two columns: the date, then the note stripped, which is empty exactly when the note is whitespace only |
| Logs.AppendRow | Tracker.py:73-78 | opening in append mode: the earlier rows are kept as they are; the new row comes last; a header comes first exactly when the file did not exist |
| Logs.AppendTwice | Tracker.py:72-78 | two saves, even with the same date, leave two new rows in order; nothing is merged |
| Logs.HeaderKept | Tracker.py:76-77 | appending to an existing log never changes its first row |
| Logs.SchemaDrift | Tracker.py:76-78 | after the checklist gains a label, the next row is one column longer than the header already written |
| Logs.SliceFrom | Tracker.py:99 | Python's `s[start:]`: always a suffix of `s`; a negative start counts from the end, and starts out of range clamp to the whole or to nothing |
| Logs.Tail | Tracker.py:99 | `lines[-10:]` is the last `min(10, n)` lines, unmodified and in order |
| Logs.TailOfShortLog | Tracker.py:99 | a log of at most ten lines is shown whole, its header included |
| Logs.TailAppend | Tracker.py:107 | after one more line the view ends with it, and drops the oldest line once ten lines are shown |
| Logs.PastEntries | Tracker.py:95-109 | the view exists exactly when the log file does |
| Logs.PastEntriesIsSuffix | Tracker.py:97-99 | the text shown is the end of the file's text as read, unmodified |
| Logs.PastEntriesOfShortLog | Tracker.py:105-107 | a log of at most ten lines is shown in full |
| Tracker.DeleteOptions | Tracker.py:52 | the drop-down offers the placeholder first, then exactly the labels |
| Tracker.Store.constructor | Tracker.py:7-9 | a page run starts from the three file states on disk with no checklist loaded |
| Tracker.Store.SaveChecklist | Tracker.py:37-40 | the loop leaves the file holding exactly the serialised list |
| Tracker.Store.LoadChecklist | Tracker.py:16-35 | an existing file is parsed and left alone; a missing one is created holding the defaults, which become the checklist; either way the checklist and the file agree |
| Tracker.Store.AddItem | Tracker.py:46-49 | blank input changes nothing; otherwise the stripped input is appended, with no duplicate check, and the file is rewritten to match; single-line input keeps checklist and file in agreement |
| Tracker.Store.DeleteItem | Tracker.py:52-55 | the placeholder changes nothing; any other choice is in the list, its first occurrence goes and the file is rewritten; checklist and file stay in agreement |
| Tracker.Store.SaveDaily | Tracker.py:72-78 | the daily log gains the header `Date, labels…, Notes` exactly when it did not exist, then one row `date, ticks…, notes` |
| Tracker.Store.SaveWork | Tracker.py:80-87 | blank text neither creates nor changes the work log; otherwise it gains `Date, Work Done` when new, then `date, stripped text` |
| Tracker.Store.SaveTodaysLog | Tracker.py:89-91 | the save button writes the dict of the checklist's ticks and the journal to the daily log, then the work text to the work log |
| Tracker.Store.AddAndReload | Tracker.py:47-50 | adding single-line input and rerunning the page, which reloads the file, leaves the extended list in memory and on disk |
| Tracker.Store.AddReloadDelete | Tracker.py:47-56 | add, rerun, delete from a consistent state: the file in between holds the extended list; afterwards a label equal to the placeholder stays, and any other new label is gone |
| Tracker.AddDeleteSession | Tracker.py:42-56 | load, add, rerun, delete: the reload sees the extended list; deleting a new label restores the loaded list's file, except a label equal to the placeholder, which stays |

## Left out

- Streamlit itself is not modelled: page layout, widgets, reruns, success and info messages, expanders. Widget values (typed text, the chosen option, the ticks, the text areas) become method parameters. A rerun becomes one more `LoadChecklist` call.
- Real file I/O is not modelled: `open`, `os.path.exists` and `os.path.isfile`, UTF-8 encoding, and the platform newline written by text-mode writes. Files are abstract `Option` states.
- The CSV writer's byte encoding is not modelled: quoting, `\r\n` row ends, and `str(bool)`. Log rows are lists of fields.
- Logs.PastEntries: the tail is stated over a log file's text, not derived from the row state. A quoted note spanning several lines makes physical lines differ from rows.
- The date, `datetime.date.today()`, is a parameter.
- Duplicate labels: Streamlit rejects two checkboxes with the same label. The model keeps the dict's collapse instead: first position kept, last tick wins.
- Tracker.Store.AddItem: agreement between checklist and file is promised only for input without line breaks. The source's single-line text input cannot produce one.
- Tracker.Store.DeleteItem: requires a choice from the drop-down's options, the only values the page can pass.
- Concurrent writers, partial writes and I/O errors are not modelled; the source handles none of them.
