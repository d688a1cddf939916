# OSM DataFramerXML: a Dafny model of the filter-and-sample export

`DataFramerXML` reads an OpenStreetMap XML file as a stream of parse events.
It checks the source name and the root tag, and can check the requested
element tags against the document. It then writes one sampled copy of the
document per entry of its export map. Each copy holds the requested
elements whose 0-based match number is a multiple of the entry's factor,
between a fixed prolog with `<osm>` and a closing `</osm>`.

The model has four modules:

- `Names` (names.dfy) holds the text tests. `LastSegment` is what
  `s.split('.')[-1]` gives. The source check compares the ASCII lower-cased
  segment with `osm`; the export check compares it case-sensitively.
- `XmlEvents` (events.dfy) holds the document as a sequence of `Start`/`End`
  events, each carrying an opaque element with a tag and its serialized
  text. `Matched` is the filtered element stream: the elements of the `End`
  events whose tag is requested. `TagsOf` is the tag vocabulary of a run of
  events.
- `Sampling` (sampling.dfy) holds the selection rule. `Sampled(xs, f)` keeps
  the items at positions `i` with `i % f == 0`.
- `DataFramer` (dataframer.dfy) holds the class `DataFramerXML`. It carries
  both Python classes' state:
  - the event stream (`source`) and the cursor into the current pass (`pos`);
  - the captured root;
  - the requested tags, the export map, the `export` option and the
    tag-validation flag;
  - the files written so far (`outputs`), each a name with its chunks.

  Its methods are the Python methods:
  - `Open` runs the constructor chain. It makes the name check, then
    `CheckRoot`, then `Validate`, and returns `Err` for the first
    exception raised (a `ValueError`, or the parse error of an empty
    document).
  - `NextElement` is one resumption of the `_get_element` generator.
  - `ExportOne` writes one file, driving `NextElement` with the `enumerate`
    counter.
  - `ExportDataset`/`ExportFiles` loop over the export map.

  The functions `OpenError`, `ValidationError`, `FileContent` and
  `ExportRun` specify these methods, and the lemmas state what the
  exporter promises about those functions.

Some behaviour follows the code where it departs from the intended contract.

- **Options check.** The intended contract is that the `export` option and
  the export map are both present or both absent. The code skips the check
  whenever `export` is falsy, `None` included. It therefore raises only for
  a truthy `export` without a map. The model follows the code
  (`OptionsMismatchIff`).
- **Cursor reset.** The reset after each file opens a fresh parse, which
  starts at the root's own start event. Tag validation drains the cursor.
  So with validation on, the first file holds no element
  (`FirstFileAfterDrainIsEmpty`).
- **Output path check.** The intended contract checks that the destination
  root exists. The code checks the path of the `root` option
  (`self.rootPath`, default `.`), which is never written to; the files go
  under `default_path`, which nothing checks. So the check can refuse an
  export whose destination exists, and cannot catch a missing destination.
  The model follows the code: the boolean parameter of `ExportDataset` is
  whether the `root` option's path exists.
- **Root tag of the copies.** The intended contract gives each copy the
  source's root tag. The code writes the literal `<osm>` and `</osm>`, so a
  source rooted at `<OSM>`, which the case-insensitive root check accepts,
  gets copies rooted at `<osm>`. The model writes the same literals
  (`FileContentShape`).
- **Missing export map.** `export_dataset` iterates the export map without
  checking it. When the map was never given, the call fails (`NoExportFiles`).

## Model

| member | source | states |
|---|---|---|
| Names.LastSegment | src/dataFrame/DataFramerXML.py:34 | definition of `split('.')[-1]`; characterised by `LastSegmentSpec` |
| Names.IsOsmSourceName | src/dataFrame/DataFramerXML.py:34 | definition of the source-name test; characterised by `SourceNameAccepted` |
| Names.IsOsmExportName | src/dataFrame/DataFramerXML.py:101 | definition of the export-name test; characterised by `ExportCheckIsCaseSensitive` and `DottedName` |
| Names.LastSegmentSpec | src/dataFrame/DataFramerXML.py:34 | the extension taken is the longest dot-free suffix of the name: it contains no dot, ends the name, and is preceded by a dot unless it is the whole name |
| Names.NoDotName | src/dataFrame/DataFramerXML.py:34 | a name without a dot is its own extension |
| Names.DottedName | src/dataFrame/DataFramerXML.py:34 | the extension of a name is the text after its last dot |
| Names.LowerIsOsm | src/dataFrame/DataFramerXML.py:34 | lower-casing gives `osm` exactly for the eight upper/lower-case spellings of "osm" |
| Names.SourceNameAccepted | src/dataFrame/DataFramerXML.py:34-35 | the source name passes iff it has no dot and is itself `osm` in any case, or the text after its last dot is `osm` in any case |
| Names.ExportCheckIsCaseSensitive | src/dataFrame/DataFramerXML.py:101 | `data.OSM` passes the case-insensitive source check but is refused as an export name |
| DataFramer.DataFramerXML.constructor | src/dataFrame/DataFramerXML.py:72-78 | the object holds the given document, tags, export option, export map and validation flag, with the cursor at the start, no root and nothing written |
| DataFramer.DataFramerXML.Open | src/dataFrame/DataFramerXML.py:33-79 | construction (the name check, the root check, then the validation) fails exactly when `OpenError` names an error, with that error; on success the root is the first event's element, nothing is written, and the cursor is at the end after tag validation, else just after the root's start event |
| DataFramer.DataFramerXML.CheckRoot | src/dataFrame/DataFramerXML.py:44-47 | consumes exactly the first unread event and captures its element as the root; fails unless its tag lower-cases to `osm`; on an empty stream fails and consumes nothing |
| DataFramer.DataFramerXML.NextElement | src/dataFrame/DataFramerXML.py:49-52 | yields the first element of the remaining filtered stream, stopping the cursor just after its event: that event is a requested end event, none before it since the old cursor matches, and the rest of the stream begins at the new cursor; yields nothing only when no matching event remains, with the cursor at the end |
| XmlEvents.Matched | src/dataFrame/DataFramerXML.py:49-52 | definition of the filtered element stream; its length is at most the number of events; characterised by `MatchedByIndices` |
| XmlEvents.TagsOf | src/dataFrame/DataFramerXML.py:88-91 | definition of the collected tag set; characterised by `TagsOfSpec` |
| XmlEvents.MatchedByIndices | src/dataFrame/DataFramerXML.py:49-52 | the stream's `j`-th element is the element of the `j`-th matching end event: every match in event order, none skipped or repeated |
| XmlEvents.MatchIndices | src/dataFrame/DataFramerXML.py:51 | the positions of the matching events, strictly increasing, each a match, and every match among them |
| XmlEvents.MatchedAppend | src/dataFrame/DataFramerXML.py:50-52 | the stream over two consecutive stretches of events is the concatenation of their streams |
| XmlEvents.MatchedStep | src/dataFrame/DataFramerXML.py:50-52 | proof step for the generator loop (one unfolding of `Matched` at the cursor): consuming one event removes exactly that event's contribution from the front of the stream |
| XmlEvents.SkipStep | src/dataFrame/DataFramerXML.py:50-51 | proof step for the generator loop: passing over an event that is not a requested end event adds no match to the stretch already passed |
| XmlEvents.MatchedSkipsStart | src/dataFrame/DataFramerXML.py:51 | a start event never contributes an element |
| XmlEvents.TagsOfSpec | src/dataFrame/DataFramerXML.py:88-91 | the collected vocabulary holds a tag iff some event carries it |
| DataFramer.OptionsMismatch | src/dataFrame/DataFramerXML.py:82-85 | definition of the options check as written; characterised by `OptionsMismatchIff` |
| DataFramer.ValidationError | src/dataFrame/DataFramerXML.py:81-95 | definition of the error `_validate` raises; `Validate` is proved against it |
| DataFramer.OpenError | src/dataFrame/DataFramerXML.py:33-79 | definition of the error construction raises; `Open` is proved against it and `OpenWithTagValidation` characterises it |
| DataFramer.OptionsMismatchIff | src/dataFrame/DataFramerXML.py:82-85 | the option check raises iff `export` is truthy and no export map was given; an export map without `export` passes |
| DataFramer.DataFramerXML.Validate | src/dataFrame/DataFramerXML.py:81-95 | returns the option error, else with validation on the missing-tag error iff some requested tag is absent from the remaining events; the validation pass leaves the cursor at the end, otherwise the cursor stays |
| DataFramer.OpenWithTagValidation | src/dataFrame/DataFramerXML.py:87-95 | with validation on, construction succeeds iff the name, root and options pass and every requested tag occurs in some event after the root's start event |
| Sampling.Sampled | src/dataFrame/DataFramerXML.py:106-107 | definition of the sampling rule; keeps at most the items given; characterised by `SampledExactly` and `SampledNegated` |
| Sampling.SampledExactly | src/dataFrame/DataFramerXML.py:106-108 | sampling with factor `f` keeps `ceil(M/f)` items, the `j`-th being item `j*f`: exactly the positions that are multiples of `f`, in order |
| Sampling.SampledLength | src/dataFrame/DataFramerXML.py:106-108 | `ceil(M/f)` items are kept |
| Sampling.SampledAt | src/dataFrame/DataFramerXML.py:106-108 | the `j`-th kept item is item `j*f` |
| Sampling.SampledSnoc | src/dataFrame/DataFramerXML.py:106-107 | the item at position `i` is kept exactly when `i % f == 0` |
| Sampling.SampledNegated | src/dataFrame/DataFramerXML.py:107 | a negative factor keeps the same items as its absolute value, as Python's `i % f == 0` holds at the multiples of `f` whatever its sign |
| Sampling.SampledByOne | src/dataFrame/DataFramerXML.py:106-108 | factor 1 keeps every item |
| Sampling.SampledTenByThree | src/dataFrame/DataFramerXML.py:106-108 | of ten matched items, factor 3 keeps the 1st, 4th, 7th and 10th |
| DataFramer.TextsAt | src/dataFrame/DataFramerXML.py:108 | each written element text is the serialization of the corresponding kept element |
| DataFramer.TextsSnoc | src/dataFrame/DataFramerXML.py:108 | proof step for the export loop (one unfolding of `Texts`): writing one more element appends its text |
| DataFramer.ChunksStep | src/dataFrame/DataFramerXML.py:106-108 | after reading match `i`, the chunks written are those of the sample of the first `i+1` matches |
| DataFramer.FileContent | src/dataFrame/DataFramerXML.py:104-109 | definition of one file's chunks; characterised by `FileContentShape`, and `ExportOne` is proved against it |
| DataFramer.ExportRun | src/dataFrame/DataFramerXML.py:100-110 | definition of the files an export writes and how it ends; characterised by `ExportRunWritesPrefix` and `LaterFilesSeeFreshPass`, and `ExportFiles` is proved against it |
| DataFramer.FileContentShape | src/dataFrame/DataFramerXML.py:104-109 | a file is the prolog, `<osm>`, then `ceil(M/|f|)` element texts, the `j`-th being that of match `j*|f|`, then `</osm>`, for a factor `f` of either sign |
| DataFramer.DataFramerXML.ExportOne | src/dataFrame/DataFramerXML.py:103-110 | appends one file whose chunks are the sampled content of the stream from the cursor, closed only after the stream is exhausted; then resets the cursor to a fresh pass |
| DataFramer.DataFramerXML.ExportDataset | src/dataFrame/DataFramerXML.py:97-100 | fails with nothing written when the path of the `root` option does not exist or no export map was given; otherwise writes the files of `ExportRun` and ends with its outcome |
| DataFramer.DataFramerXML.ExportFiles | src/dataFrame/DataFramerXML.py:100-111 | the loop over the export map writes exactly the files of `ExportRun`, in order, and ends with its outcome |
| DataFramer.ExportRunAt | src/dataFrame/DataFramerXML.py:100-110 | proof step for the export-map loop (one unfolding of `ExportRun` at entry `k`): at entry `k` a bad name ends the run with nothing more written; a good one writes its file and hands over to a fresh pass over the entries after it |
| DataFramer.ExportStep | src/dataFrame/DataFramerXML.py:100-110 | proof step for the export-map loop (its invariant carried over one good entry): once a good entry's file is written, the files still to come are those of a fresh pass over the later entries |
| DataFramer.ExportRunWritesPrefix | src/dataFrame/DataFramerXML.py:100-102 | a run writes every entry's file and passes, or writes the files before the first entry with a non-`osm` extension and fails there; each file carries its entry's name |
| DataFramer.LaterFilesSeeFreshPass | src/dataFrame/DataFramerXML.py:110 | every file after the first holds the sample of the whole document's stream with its own factor, independent of the cursor and of earlier files |
| DataFramer.FirstFileAfterDrainIsEmpty | src/dataFrame/DataFramerXML.py:90-91 | after tag validation drained the cursor, the first export file holds only the prolog, `<osm>` and `</osm>` |
| DataFramer.FirstFileMatchesLaterFiles | src/dataFrame/DataFramerXML.py:110 | without tag validation the first file equals what a fresh pass gives, though the reset pass re-reads the root's start event |

## Left out

- Parsing and serialization by ElementTree are library calls. The document
  is an abstract event sequence, and each element carries its serialized
  text as an opaque string; well-formedness errors after the first event
  are not modelled.
- Output is a sequence of string chunks per file, not UTF-8 bytes. File
  opening and writing, `os.path.join`, `default_path` and the path
  constants are not modelled. Whether the `root` option's path
  (`self.rootPath`) exists is the boolean parameter of `ExportDataset`.
- The failure of `open` when `default_path` (the directory the files are
  written to) does not exist or cannot be written: no existence check
  covers it, and the model treats every write as succeeding.
- The `_context` property and the re-parse at each reset: every pass reads
  the same event sequence, and a reset sets the cursor back to 0.
- `self.root.clear()`: the model gives every element one fixed serialized
  text, whatever pass reads it and whatever was cleared before. The clear
  changes what is written only for the root itself, and only when its tag
  is requested (see the next line).
- DataFramer.FirstFileMatchesLaterFiles: does not hold for the source when
  the root's own tag is among the requested tags and some match comes
  before the root's end event. On the first pass the earlier yields have
  cleared the root captured by the root check, so the root is written
  stripped of its children and attributes. The reset passes never re-run
  the root check, so their clear calls act on the stale first-pass root and
  the new root is written whole. The first file and the later files then
  differ in their last element; the model, with one text per element,
  does not capture this.
- The progress and success messages printed to the console.
- The abstract base class machinery and the commented-out `main`. The two
  Python classes are one Dafny class.
- The unused `tags` argument of `_get_element`: the stream always filters
  by the object's own tags, as the code does.
- `str.lower()` beyond ASCII: `Lower` folds only `A`-`Z`.
- The export map is a sequence of pairs in the dictionary's iteration order.
- DataFramer.DataFramerXML.ExportDataset: requires every factor of the
  export map to be non-zero, so the `ZeroDivisionError` of `i % 0` is not
  modelled. This also excludes maps the source handles without error: a
  zero factor is never used in a modulo when its entry comes after a bad
  export name (the extension check raises first), or when its pass yields
  no element (as for the first file after tag validation). Negative
  factors are modelled and sample like their absolute value.
- DataFramer.DataFramerXML.ExportOne: requires a non-zero factor, for the
  same reason; a zero factor with a pass that yields no element would
  write the empty file in the source and is excluded here.
