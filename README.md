# File converter: the decision and naming logic

The repository is a small command-line converter, `main.py`. It converts
images (through Pillow), text files, Word documents (through docx2txt) and
PDF pages (through pdf2image). It has three subcommands:

- `convert <input> <output> [-f FORMAT]` converts one file;
- `batch <input_dir> <output_dir> <input_format> <output_format>` converts a directory;
- `pdf2img <input> <output_dir>` renders a PDF's pages as JPEG files.

Each conversion is one library call. This project models the program's own
logic around those calls:

- **`batch_convert`** (module `Batch`). It checks the output path and then
  the input path, and may return early. It keeps the directory entries
  that end in the literal, case-sensitive suffix `"." + input_format`. Each
  one's destination is `splitext(name)[0] + "." + output_format` inside the
  output directory. It routes the entry to a converter by the lower-cased
  input format and keeps the two counters, `found_files_count` and
  `processed_files_count`. At the end it picks the closing line. The
  driver is a method, and its loop over the listing is the method
  `ScanEntries`. Both are proved against the specification functions
  `Selected`, `PlanJobs`, `BatchCall` and `Summarize`.
- **The `convert` branch of `main`** (module `SingleConvert`). It checks
  that the input exists and recognises the kind of input from its
  lower-cased path. For an image without `-f`, it infers the format from
  the output extension: upper-cased, with `JPG` mapped to `JPEG`. A text
  input falls back to `'txt'`. The branch ends in exit code 1 with a
  reason, or in a converter call.
- **The page loop of `convert_pdf_to_image`** (module `PdfPages`). Page
  `i` (counting from 0) is saved as JPEG to `output_dir/page_{i+1}.jpg`,
  in page order, until a save fails.
- **Python's string and path primitives** the logic depends on (modules
  `Strings` and `Paths`): `str.lower`, `str.upper`, `str.endswith`,
  `str.lstrip('.')`, `str(n)`, and the POSIX `os.path.splitext` and
  `os.path.join`. `splitext` is modelled as CPython writes it: it splits at
  the last dot of the last path component and skips leading dots. So
  `.jpg` has no extension, and for `a.tar.gz` only `.gz` is the extension.

The three converters catch every exception, print a line and return
nothing (main.py:8-31). The model therefore treats a converter as an
opaque action whose success a caller cannot observe. In `batch` its
success is recorded per job as the parameter `succeeds`, and neither
counter depends on it. In `convert` the exit code is 0 once a converter
has been called.

The file system enters as values. The kind of each path comes from
`os.path.exists` and `os.path.isdir` (`PathKind`). The directory listing is
a sequence of names, in the order the file system gives. Console messages
are enums (`Stage`, `Summary`, `ConvertError`).

Where the tests and the code disagree, the model follows `main.py`:

- tests/test_functional.py:60-68 expects exit code 0 for a missing input.
  main.py:109-111 exits with 1, as `MissingInputFails` states.
- tests/test_functional.py:123-127 expects an error when no command is
  given. main.py:82 makes the command optional and enters the interactive
  loop instead (not modelled, see below).

Two more behaviours of `batch_convert` are worth noting:

- When entries match but the input format has no converter, main.py:74-77
  prints no closing line at all. `BatchConvert` states this as `NoSummary`,
  exactly when `found > 0` and the format token is unknown.
- A missing input directory prints an error and returns at main.py:50-52,
  before anything is counted. The comment at main.py:78 and the one at
  tests/test_integration.py:75-78 describe an older version that went on to
  report the counters.

## Model

| member | source | states |
|---|---|---|
| Batch.BatchConvert | main.py:41-78 | Creates the output directory exactly when it is missing. If the output path exists but is no directory, it stops before looking at the input. If the input is not a directory, it stops with no jobs, so nothing is written into the output directory. Otherwise `found` is the number of entries with the suffix `"." + input_format`. The jobs are, in listing order, one per selected entry with source `join(input_dir, name)` and destination `join(output_dir, splitext(name)[0] + "." + output_format)`, all routed to the same converter. `processed` equals `found` for a recognised format token and is 0 otherwise, whatever the converters did, so `processed <= found`. The closing line is "no files" iff `found == 0`, the completion message iff `processed > 0`, and nothing iff `found > 0` and the token is unknown |
| Batch.ScanEntries | main.py:55-73 | The loop over the listing: `found` is the number of entries `Selected` keeps, and the jobs are exactly `PlanJobs` of that selection, in listing order, when the format token has a converter, and none otherwise. `processed` is the number of jobs |
| Batch.Summarize | main.py:74-77 | The "no files" line is chosen exactly when nothing matched in an existing input directory. The completion line, carrying `processed`, is chosen exactly when something was processed and the first case does not hold. Otherwise nothing is printed |
| Batch.SelectedIff | main.py:55-57 | `Selected` keeps a name iff it is listed and ends with `"." + input_format` (both directions) |
| Batch.SelectedAppend | main.py:55-57 | Selection preserves listing order: selecting from `a + b` gives the selection from `a` followed by the selection from `b` |
| Batch.DestinationNameShape | main.py:59-60 | A destination name is a prefix of the entry's name (its `splitext` stem) followed by `"." + output_format`. A relative entry name gives a relative destination name |
| Batch.PlanJobTargets | main.py:58-70 | A planned job goes to the routed converter and records that converter's success. It reads a path ending in the entry's name and writes a path ending in `"." + output_format`. For a relative entry name, the source is inside the input directory and the destination inside the output directory |
| Batch.PlanJobsTargets | main.py:55-70 | `PlanJobs` gives every selected entry, at its own position, a job with all the properties of `PlanJobTargets`: the same converter for every job, the recorded success of that converter on the job's paths, a source ending in the entry's name, a destination ending in `"." + output_format`, and both inside their directories for a relative name |
| Batch.DestinationReplacesSuffix | main.py:59-60 | For a format without a dot and an entry `stem.fmt` whose stem is a real name, the entry is selected and its destination name is `stem.output_format` |
| Batch.DestinationsDistinct | main.py:58-60 | Two entries `stem1.fmt` and `stem2.fmt` with different stems get different destination paths in the output directory |
| Batch.HiddenNameKeepsWholeName | main.py:55-60 | A hidden entry `.fmt` (such as `.jpg`) is selected for `fmt`. `splitext` gives it no extension, so its destination name is `.fmt.output_format` (such as `.jpg.png`) |
| Batch.HiddenNamesCollide | main.py:55-60 | The different entries `.fmt` and `.fmt.fmt` (`.jpg`, `.jpg.jpg`) are both selected and get the same destination name, so one conversion overwrites the other |
| Batch.DottedFormatStripsLastPart | main.py:55-60 | With a dotted input format `f1.f2` (such as `tar.gz`), `stem.f1.f2` is selected and written as `stem.f1.output_format`: only `.f2` is stripped |
| Batch.FixtureMatchesJpg | tests/test_integration.py:41-44 | Of the integration fixture, only `img1.jpg` ends in `.jpg`; `img2.png`, `doc1.txt`, `report.docx` and `other.log` are skipped |
| Batch.IntegrationSelection | tests/test_integration.py:22-56 | Of `img1.jpg, img2.png, doc1.txt, report.docx, other.log`, format `jpg` selects only `img1.jpg` and `docx` only `report.docx` |
| Converters.BatchCall | main.py:62-70 | The batch converter is chosen by the lower-cased input token: `jpg/png/jpeg/bmp` give the image converter with the output format, `txt` the text converter with the output format, `docx` the docx converter. Any other token gives none, each case an iff |
| Converters.BatchCallIgnoresCase | main.py:62-68 | Routing gives the same result for a token and its lower-cased form |
| Converters.BatchCallExamples | main.py:62-70 | `JPG` routes to the image converter and `Docx` to docx; `gif` (accepted by `convert`) and `xyz` route nowhere |
| SingleConvert.Convert | main.py:108-132 | A converter runs only on an existing input of its own kind: the image converter on an image path, the text converter on a `.txt` path that is no image path, and the docx converter on a `.docx` path that is neither. The image and text converters never receive an empty format. `NoImageFormat` arises only for an existing image input without a usable `-f`, and `UnsupportedInput` only for an existing input of no supported kind |
| SingleConvert.FailureReasons | main.py:108-132 | Each failure reason arises exactly under its condition (both directions): `InputNotFound` iff the input is missing; `NoImageFormat` iff the input exists, is an image, `-f` is absent or empty, and the output path yields an empty inferred format; `UnsupportedInput` iff the input exists and is no image, `.txt` or `.docx` |
| SingleConvert.ExitCodeOneIff | main.py:103-149 | With `ExitCode` mapping a failure to 1 and a converter call to 0, `convert` exits with 1 iff the input is missing, or the input is an image with no `-f` and no usable output extension, or the input is no image, `.txt` or `.docx` (case-insensitive). Otherwise it exits with 0 |
| SingleConvert.MissingInputFails | main.py:109-111 | A missing input fails with `InputNotFound` whatever the other arguments |
| SingleConvert.InferFormat | main.py:113-121 | The inferred format is never `JPG`, has no lower-case ASCII letter, and is empty exactly when the output has no extension or only a bare dot |
| SingleConvert.InferFormatAppended | main.py:116-121 | For an output path `stem.ext`, the inferred format is `ext` upper-cased, with `JPG` replaced by `JPEG` |
| SingleConvert.ExplicitFormatUnchanged | main.py:113-125 | For an image input, a non-empty `-f` value reaches the image converter unchanged |
| SingleConvert.InferredImageFormat | main.py:115-125 | For an image input with `-f` absent or empty (`-f ''`) and output `stem.ext`, the image converter receives `ext` upper-cased, or `JPEG` for any case of `jpg` |
| SingleConvert.TextFormatArgument | main.py:126-127 | For an existing `.txt` input, the text converter receives the `-f` value, or `'txt'` when it is absent or empty |
| SingleConvert.InputKindsDisjoint | main.py:124-130 | A `.txt` or `.docx` input is never an image, and a `.docx` input is never `.txt`, so the order of the `elif` tests decides nothing |
| SingleConvert.DocxInputDispatched | main.py:129-130 | An existing `.docx` input, in any letter case, goes to the docx converter whatever the output path and `-f` (tests/test_functional.py:42-48 converts without `-f`) |
| SingleConvert.NoOutputExtensionFails | main.py:115-120 | For an image input without a usable `-f`, an output name with no dot (`out`) or with only the leading dot of a hidden name (`.png`) fails with `NoImageFormat` |
| SingleConvert.JpgAliasAnyCase | main.py:115-121 | With `-f` absent or empty, an output extension `jpg` in any letter case (`jpg`, `JPG`, `Jpg`) makes the image converter receive `JPEG` |
| SingleConvert.ConvertIgnoresInputCase | main.py:115-128 | The input path is classified the same as its lower-cased form |
| PdfPages.ConvertPdfToImage | main.py:32-40 | If the rasterizer fails, nothing is saved. Otherwise page `i` is saved, in order, to `join(output_dir, page_name(i))` in `JPEG`, up to the first failing save. The result is marked failed exactly when a page was not saved, and then the next page's save is the one that failed |
| PdfPages.PageNameShape | main.py:36 | A page's file name starts with `page_`, ends with `.jpg`, and holds exactly the decimal of `i + 1` in between |
| PdfPages.PagePathInDirectory | main.py:36 | The path of a page starts with the output directory and ends with the page's file name |
| PdfPages.PagePathsDistinct | main.py:35-37 | Different page indices give different files in the same directory |
| PdfPages.PageNameExamples | tests/test_unit.py:119-124 | The first page is `page_1.jpg` and the tenth `page_10.jpg` |
| Paths.SplitExt | main.py:59 | `splitext(p)` returns a root and an extension that concatenate to `p`. The extension is empty or a dot followed by no dot or separator |
| Paths.SplitExtStemNamed | main.py:59 | The converse of `SplitExtAppended`: an extension is split off only behind a stem whose last component is not all dots, so `..jpg` and `d/.jpg` have none. Together the two say that `splitext` finds an extension iff the path is a named stem, a dot and a tail free of dots and separators |
| Paths.SplitExtAppended | main.py:59 | `splitext(stem + "." + ext)` is `(stem, "." + ext)` when `ext` has no dot or separator and the stem's last component is not all dots |
| Paths.RFind | main.py:59 | `rfind` gives the index of the last occurrence, or -1 when there is none |
| Paths.Join | main.py:58-60 | `join(a, b)` is `b` for an absolute `b`. Otherwise it starts with `a`, ends with `b`, and is at most one character longer than the two together |
| Paths.JoinSeparator | main.py:58-60 | For a relative `b`, `join` inserts a character exactly when `a` is non-empty and does not already end in `/`, and the inserted character is `/` |
| Paths.JoinInjective | main.py:58-60 | Within one directory, two relative names give the same path iff they are equal |
| Strings.Lower | main.py:62 | `lower()` keeps the length and maps every character through the ASCII lower-case map |
| Strings.Upper | main.py:117 | `upper()` keeps the length and maps every character through the ASCII upper-case map |
| Strings.LowerIdempotent | main.py:62-68 | Lower-casing twice is lower-casing once |
| Strings.LStripDots | main.py:117 | `lstrip('.')` returns a suffix that does not start with a dot, after a removed prefix of dots only |
| Strings.Decimal | main.py:36 | `str(n)` is a non-empty digit string with no leading zero (except for 0) |
| Strings.DecimalRoundTrip | main.py:36 | Reading back the digits of `str(n)` gives `n` |
| Strings.DecimalInjective | main.py:36 | Different numbers have different decimal strings |

## Left out

- The conversions themselves: `Image.open`/`save`, `docx2txt.process`, file reading and writing, `convert_from_path` and `page.save` (main.py:10-11, 17-20, 26-28, 34, 37). They are foreign library calls and appear only as opaque actions that succeed or fail.
- File-system effects: `os.listdir`, `os.makedirs`, `os.path.exists`/`isdir`. Path kinds and the listing are inputs. Listing order is whatever the file system gives. `createdOutputDir` records the `makedirs` call.
- Console output: the Russian-language messages become the enums `Stage`, `Summary`, `ConvertError` and the per-job `succeeded` flag. The per-page line of `convert_pdf_to_image` is the list of saved pages.
- Argument parsing with argparse (main.py:80-101), including its usage errors. This is library behaviour, and the model starts from parsed values.
- The interactive loop (main.py:151-216). It is stdin I/O, and its command branches only print placeholders.
- The `except FileNotFoundError`/`except Exception` handlers of `main` (main.py:140-147) and the per-file handler of `batch_convert` (main.py:72-73). The converters catch every `Exception` raised inside their `try`, so no modelled action reaches them. Two unmodelled causes could: failing file-system calls (`makedirs`, `listdir`), and failing console writes, such as a `BrokenPipeError` from the `print` in a converter's own `except` block (main.py:14, 23, 31, 40), which sits outside its `try`.
- The exit codes of `batch` and `pdf2img`. Both are 0 unless one of those unmodelled exceptions (a file-system call or a console write) escapes to main.py:143-147, so no member states them.
- Batch.BatchConvert: `inputKind` is the kind of the input path observed after `makedirs` (main.py:44, 50). The model does not derive it from `outputKind`, so it does not capture that creating the output directory can create the input directory too (the same path, or an input that is an ancestor of the output).
- Strings.Lower: covers only ASCII letters. Python's `str.lower` also maps other Unicode letters, and none of them lower-cases to one of the ASCII suffixes tested here.
- Strings.Upper: covers only ASCII letters. Python's `str.upper` can also change non-ASCII characters, or lengthen them (`ß` becomes `SS`), in the inferred format.
- Paths.SplitExt: models POSIX paths only. The Windows variant with `\` and drive letters is not modelled.
- PdfPages.ConvertPdfToImage: assumes a save that fails leaves no file. The model does not say whether Pillow leaves a partial file.
