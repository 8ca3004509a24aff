# Takeout catalog merge, modelled in Dafny

A model of the catalog core of `takeout_converter.py`, a tool that merges the
per-album CSV exports of a music takeout archive into one catalog file,
`main_csv.csv`. The core has three parts:

- **`SongRecord`**: a seven-field record (title, album, artist, duration in
  milliseconds, rating, play count, removed flag). Construction coerces the
  three numeric fields with `int` and the flag with `bool`. `__str__` writes the
  fields joined by commas, with the flag as `True` or as an empty field.
- **`fuse_main_csv`**: for each CSV file, in listing order, the first row is
  discarded and every other row becomes a `SongRecord`. The records are
  concatenated in file order, then row order. One row whose numeric text does
  not coerce aborts the whole merge.
- **`output_main_csv`**: the file text. It is the fixed header
  `Title,Album,Artist,Duration (ms),Rating,Play Count,Removed` followed by
  one serialised record per line, joined by `\n`, with no trailing newline.

Modules, one per concern:

| file | module | models |
|---|---|---|
| `outcomes.dfy` | `Outcomes` | `Option` and `Result`, for `int` raising and the merge aborting |
| `decimal.dfy` | `Decimal` | `int(text)` restricted to sign and digits; `str(n)` |
| `text.dfy` | `Text` | `','.join` / `'\n'.join`, and splitting at one separator |
| `song_record.dfy` | `SongRecords` | `SongRecord`, its construction and `__str__` |
| `fuse.dfy` | `Fuse` | `fuse_main_csv` as two nested loops, proved against a specification |
| `output.dfy` | `Output` | the text `output_main_csv` writes, and reading it back |

`SongRecord` is a Dafny `datatype`, not a class. `__post_init__` overwrites
each numeric field's text with an integer, changing the field's type, and a
Dafny class field cannot change type. After construction, nothing in the
program updates a record, and records have no identity beyond their values.
So construction plus `__post_init__` is one function, `Construct`. It returns
either the coerced record or the first numeric field (in the order
`__post_init__` coerces them) whose `int` raises.

`fuse_main_csv` keeps its imperative form. `FuseFiles` grows the catalog
file by file. `ReadFile` is the list comprehension over one file's reader,
after `next(reader, None)` has consumed the first row. Both methods are proved
equal to the recursive specifications `Merged` and `FileRecords`. Separately,
`Merged` is proved equal to an independent description: flatten the data
rows of all files, then construct each one.

The whole-file round trip needs text fields free of line breaks as well as
of commas: a line break inside a title would split one record across two
lines. These are the conditions for the modelled reader, which splits the
text at `\n` and then at `,`. The library reader and the text-mode file add
conditions of their own (quoting, and newline translation of `\r`) that are
not modelled; see the lines on the CSV reader and on I/O under "## Left out".

`fuse_main_csv` is annotated as returning dictionaries, but it
returns `SongRecord` values, and the model follows that.

## Model

| member | source | states |
|---|---|---|
| `Decimal.ParseInt` | takeout_converter.py:23-25 | the definition of `int(text)`: an optional sign and at least one digit. Its contract says a parsed text ends in a digit, and a negative value needs a leading minus sign; `ParseIntText` and `CanonicalIntRoundTrip` relate it to `str` |
| `SongRecords.Serialize` | takeout_converter.py:28-36 | the definition of `__str__`: `Fields` joined by commas, with the flag's text given by `RemovedText` (`True` or empty). Its contract says the line opens with the title and a comma and closes with a comma and the flag's text; `SerializeLayout` gives the whole line and `SerializeRoundTrip` the way back |
| `Output.CatalogText` | takeout_converter.py:61-62 | the definition of the catalog text: the constant `Header` and the serialised records joined by line breaks. Its contract says the text starts with the header; `CatalogTextLines` and `CatalogTextShape` give the lines and the ends |
| `Text.Join` | takeout_converter.py:29 | the definition of `sep.join(parts)`, used for the commas of `__str__` and the line breaks of the catalog text (line 62); `SplitJoin`, `JoinSplit`, `JoinStartsWith` and `JoinEndsWith` describe it |
| `Text.JoinStartsWith` | takeout_converter.py:62 | a joined text of at least one part starts with the first part |
| `Text.JoinEndsWith` | takeout_converter.py:62 | a joined text of at least one part ends with the last part |
| `SongRecords.Construct` | takeout_converter.py:22-26 | construction succeeds exactly when duration, rating and play count are all integer text. On success the text fields are copied, the numbers are the parsed values, and `removed` is true exactly when its text is non-empty. On failure the error names the first field, in coercion order, that is not integer text |
| `SongRecords.SerializeLayout` | takeout_converter.py:28-36 | the line is title, album, artist, duration, rating, play count and the flag text, in that order, separated by single commas |
| `SongRecords.RemovedRendering` | takeout_converter.py:36 | a set flag makes the line end in `,True`; a clear flag makes it end in a comma |
| `SongRecords.SerializeSingleLine` | takeout_converter.py:28-36 | a record whose text fields hold no line break serialises to a single line |
| `SongRecords.SerializeRoundTrip` | takeout_converter.py:22-36 | if title, album and artist hold no comma, splitting the line at commas gives exactly the seven written fields, and constructing a record from that row gives back the original record |
| `SongRecords.CanonicalRowRoundTrip` | takeout_converter.py:22-36 | a row whose numbers are in the form `str` writes and whose flag is empty or `True` constructs a record that serialises to exactly that row's fields |
| `SongRecords.SheriffExample` | takeout_converter.py:53-59 | the line `I Shot The Sheriff,Burnin,Bob Marley,282000,0,0,` reads as the expected row, constructs the record (282000, 0, 0, not removed), and serialises back to the identical line |
| `Decimal.NatText` | takeout_converter.py:33-35 | `str` of a natural number is non-empty digit text with no superfluous leading zero |
| `Decimal.IntText` | takeout_converter.py:33-35 | `str` of an integer is non-empty and made only of digits and a minus sign, so it never holds a comma or a line break |
| `Decimal.ParseIntText` | takeout_converter.py:23-25 | `int` applied to the text `str` wrote gives back the same integer |
| `Decimal.CanonicalIntRoundTrip` | takeout_converter.py:23-25 | text survives `int` followed by `str` exactly when it is canonical integer text |
| `Text.SplitJoin` | takeout_converter.py:29 | splitting the join of at least one part, none of which holds the separator, gives the parts back (joining no parts gives the empty text, which splits into one empty part) |
| `Text.JoinSplit` | takeout_converter.py:29 | joining the pieces of any split restores the text |
| `Fuse.ReadFile` | takeout_converter.py:44-49 | the per-file loop skips the first row if there is one, constructs each later row in order, and returns the file's records, or the first failing row's position and field, as `FileRecords` specifies |
| `Fuse.FuseFiles` | takeout_converter.py:39-50 | the merge loop returns the concatenation of the files' records in file order, or the first failure with no partial catalog, as `Merged` specifies |
| `Fuse.FileRecordsReference` | takeout_converter.py:48-49 | one file succeeds exactly when all its rows after the first construct, and it then yields exactly those rows' records in order |
| `Fuse.FuseReference` | takeout_converter.py:41-50 | the merge succeeds exactly when every non-first row of every file constructs, and the catalog is then those rows' records, in file order then row order |
| `Fuse.CatalogLength` | takeout_converter.py:41-50 | no files give the empty catalog; a successful merge has one record per row after the first, so its length is the sum over the files of max(rows - 1, 0) |
| `Fuse.FuseAppend` | takeout_converter.py:42-49 | merging two lists of files one after the other gives the concatenation of the two catalogs; a failure in the first list is the failure of the whole |
| `Fuse.ShortFileAddsNothing` | takeout_converter.py:48-49 | a file with no row or with only its first row leaves the merge result unchanged |
| `Fuse.FileFailureIsFirst` | takeout_converter.py:49 | a failed file names a row after its first row whose field does not coerce, and every earlier row of the file constructs |
| `Fuse.FuseFailureIsFirst` | takeout_converter.py:42-50 | a failed merge names the first failing row in file order, then row order: its field does not coerce, and every earlier file and every earlier row construct |
| `Output.HeaderIsNotARecord` | takeout_converter.py:61 | the header is one line of seven comma-separated column names, and as a row it fails construction at the duration field, which is why the first row of a file is skipped |
| `Output.EmptyCatalogText` | takeout_converter.py:61-62 | an empty catalog writes exactly the header |
| `Output.CatalogTextLines` | takeout_converter.py:61-62 | when no text field holds a line break, the text splits into the header followed by one serialised record per catalog entry, in catalog order: n records give n + 1 lines |
| `Output.CatalogTextShape` | takeout_converter.py:61-63 | the text starts with the header; a line break follows the header exactly when the catalog is not empty; the text never ends in a line break |
| `Output.ReadBackCatalog` | takeout_converter.py:60-63 | when no title, album or artist holds a comma or a line break, reading the written text back line by line gives the header row followed by the rows of the records, in order |
| `Output.MergeRecordRows` | takeout_converter.py:44-49 | merging one file made of any first row followed by the rows of any catalog's records, whatever their text fields hold, gives back that catalog |
| `SongRecords.RowOfConstructs` | takeout_converter.py:22-36 | for every record, constructing from the fields `__str__` writes gives back the record |
| `SongRecords.TakeoutDictExample` | takeout_converter.py:53-59 | the row with the dictionary literal's exact values constructs the record (282000, 0, 0, not removed), serialises to its own fields joined by commas, and reads back as the same row |
| `Output.WriteThenMerge` | takeout_converter.py:39-63 | when no title, album or artist holds a comma or a line break, writing a catalog and merging the text back as one file, with its header skipped, gives the same catalog |

## Left out

- Argument parsing, directory and file validation, logging and the choice between reusing an existing catalog and merging (`main`, takeout_converter.py:74-130): command-line glue and file-system queries.
- Directory globbing, opening the CSV files and writing `main_csv.csv` in the working directory: I/O. The files are an input sequence in listing order, since the listing order depends on the platform. The catalog text is returned rather than written. Newline translation by the text-mode file is not modelled.
- The CSV reader's quoting, blank-line skipping, and rows with too many or too few fields (where missing fields become `None`): these belong to a library outside this model. Each input row is seven text fields. For reading the catalog text back, a line is split at commas and must give exactly seven fields.
- SongRecords.Construct: numeric text is an optional `+` or `-` followed by ASCII digits. Python's `int` also accepts surrounding whitespace, underscores between digits and non-ASCII digits; the model rejects those. Python's `int` also raises on decimal text longer than 4300 digits (the interpreter's `sys.int_max_str_digits` limit in Python 3.11 and later, and in security releases of 3.7 to 3.10); the model accepts text of any length, so a row with such a field constructs in the model where the source aborts the merge.
- `move_audio_files` and `copy_audio_files`: empty stubs with no behaviour.
- The dictionary literal at the start of `output_main_csv`: dead code. `TakeoutDictExample` takes its exact values (title `05 - I Shot The Sheriff.mp3`, album `Burnin&#39;`) as a row; `SheriffExample` uses the shortened title and album of the sample line `I Shot The Sheriff,Burnin,Bob Marley,282000,0,0,`, with the same artist, numbers and empty flag.
- The merge's error value carries the file position, row position and field; Python raises a `ValueError` whose message is not modelled.
