/**
  The `convert` command of `main`: from the input path, the output path,
  the optional `-f/--format` value and whether the input exists, decide
  either a failure with exit code 1 or the converter to run with the format
  argument it receives. A dispatched conversion exits with 0 whatever the
  converter then does, because the converters never raise.
 */
module SingleConvert {
  import opened Options
  import opened Strings
  import opened Paths
  import opened Converters

  datatype ConvertError =
    | InputNotFound       // the input path does not exist
    | NoImageFormat       // an image input, no -f, and the output has no extension
    | UnsupportedInput    // the input is neither an image, a .txt nor a .docx

  datatype Outcome = Dispatched(call: Call) | Failed(reason: ConvertError)

  /** Python truthiness of the `-f` value: absent and "" both count as not given. */
  predicate Given(format: Option<string>)
  {
    format.Some? && format.value != ""
  }

  /** The input path, lower-cased, ends in one of the six image extensions. */
  predicate IsImagePath(input: string)
  {
    var l := Lower(input);
    EndsWith(l, ".jpg") || EndsWith(l, ".jpeg") || EndsWith(l, ".png")
    || EndsWith(l, ".bmp") || EndsWith(l, ".gif") || EndsWith(l, ".tiff")
  }

  predicate IsTextPath(input: string) { EndsWith(Lower(input), ".txt") }

  predicate IsDocxPath(input: string) { EndsWith(Lower(input), ".docx") }

  /**
    The image format derived from the output path: its extension without
    the dot, upper-cased, with "JPG" replaced by Pillow's name "JPEG".
    Empty when the output path has no extension.
   */
  function InferFormat(output: string): (f: string)
    ensures f != "JPG"
    ensures forall i :: 0 <= i < |f| ==> !IsAsciiLower(f[i])
    ensures f == "" <==> SplitExt(output).1 == [] || SplitExt(output).1 == [ExtSep]
  {
    var ext := SplitExt(output).1;
    var stripped := LStripDots(ext);
    ExtensionStrip(ext);
    var f := Upper(stripped);
    assert |f| == |ext| - 1 || ext == [];
    if f == "JPG" then "JPEG" else f
  }

  /** An extension as `splitext` returns it loses exactly its one dot to `lstrip('.')`. */
  lemma ExtensionStrip(ext: string)
    requires ext == [] || ext[0] == ExtSep
    requires forall i :: 0 < i < |ext| ==> ext[i] != ExtSep
    ensures LStripDots(ext) == if ext == [] then [] else ext[1..]
  {
    if ext != [] {
      assert LStripDots(ext) == LStripDots(ext[1..]);
      assert ext[1..] == [] || ext[1..][0] != ExtSep;
    }
  }

  /** The format inferred from `stem.ext` is `ext` upper-cased, with the JPG alias applied. */
  lemma InferFormatAppended(stem: string, ext: string)
    requires NamedComponent(stem)
    requires forall i :: 0 <= i < |ext| ==> ext[i] != ExtSep && ext[i] != Sep
    ensures InferFormat(stem + [ExtSep] + ext) == if Upper(ext) == "JPG" then "JPEG" else Upper(ext)
  {
    SplitExtAppended(stem, ext);
    ExtensionStrip([ExtSep] + ext);
    assert ([ExtSep] + ext)[1..] == ext;
  }

  /** The conversion `convert <input> <output> [-f format]` performs. */
  function Convert(input: string, output: string, format: Option<string>, inputExists: bool): (o: Outcome)
    // a converter runs only on an existing input of its own kind
    ensures o.Dispatched? ==> inputExists
    ensures o.Dispatched? && o.call.ImageCall? ==> IsImagePath(input)
    ensures o.Dispatched? && o.call.TextCall? ==> IsTextPath(input) && !IsImagePath(input)
    ensures o.Dispatched? && o.call.DocxCall? ==> IsDocxPath(input) && !IsImagePath(input) && !IsTextPath(input)
    // neither the image nor the text converter ever receives an empty format
    ensures o.Dispatched? && !o.call.DocxCall? ==> o.call.format != ""
    // the reasons for failing
    ensures o == Failed(NoImageFormat) ==> inputExists && IsImagePath(input) && !Given(format)
    ensures o == Failed(UnsupportedInput) ==> inputExists && !IsImagePath(input) && !IsTextPath(input) && !IsDocxPath(input)
  {
    if !inputExists then Failed(InputNotFound)
    else if IsImagePath(input) then
      if Given(format) then Dispatched(ImageCall(format.value))
      else if InferFormat(output) == "" then Failed(NoImageFormat)
      else Dispatched(ImageCall(InferFormat(output)))
    else if IsTextPath(input) then
      Dispatched(TextCall(if Given(format) then format.value else "txt"))
    else if IsDocxPath(input) then Dispatched(DocxCall)
    else Failed(UnsupportedInput)
  }

  /** The process exit code of the `convert` command. */
  function ExitCode(o: Outcome): (code: int)
    ensures code == 0 || code == 1
    ensures code == 1 <==> o.Failed?
  {
    match o
    case Failed(_) => 1
    case Dispatched(_) => 0
  }

  /**
    `convert` exits with 1 exactly when the input is missing, when an image
    input has neither `-f` nor an output extension, or when the input is of
    no supported kind; in every other case it exits with 0.
   */
  lemma ExitCodeOneIff(input: string, output: string, format: Option<string>, inputExists: bool)
    ensures ExitCode(Convert(input, output, format, inputExists)) == 1 <==>
      !inputExists
      || (IsImagePath(input) && !Given(format)
          && (SplitExt(output).1 == [] || SplitExt(output).1 == [ExtSep]))
      || (!IsImagePath(input) && !IsTextPath(input) && !IsDocxPath(input))
  {
  }

  /**
    Each failure reason of `convert` arises exactly under its condition:
    a missing input, an image input whose output path yields no format
    while `-f` is absent or empty, and an existing input of no supported kind.
   */
  lemma FailureReasons(input: string, output: string, format: Option<string>, inputExists: bool)
    ensures Convert(input, output, format, inputExists) == Failed(InputNotFound) <==> !inputExists
    ensures Convert(input, output, format, inputExists) == Failed(NoImageFormat) <==>
      inputExists && IsImagePath(input) && !Given(format) && InferFormat(output) == ""
    ensures Convert(input, output, format, inputExists) == Failed(UnsupportedInput) <==>
      inputExists && !IsImagePath(input) && !IsTextPath(input) && !IsDocxPath(input)
  {
  }

  /** A missing input fails before anything else is looked at. */
  lemma MissingInputFails(input: string, output: string, format: Option<string>)
    ensures Convert(input, output, format, false) == Failed(InputNotFound)
  {
  }

  /** An explicit `-f` reaches the image converter unchanged (no upper-casing, no JPG alias). */
  lemma ExplicitFormatUnchanged(input: string, output: string, format: Option<string>)
    requires IsImagePath(input) && Given(format)
    ensures Convert(input, output, format, true) == Dispatched(ImageCall(format.value))
  {
  }

  /** Without a usable `-f` (absent or ''), the image converter gets the format inferred from the output extension. */
  lemma InferredImageFormat(input: string, stem: string, ext: string, format: Option<string>)
    requires IsImagePath(input) && !Given(format)
    requires NamedComponent(stem)
    requires ext != [] && forall i :: 0 <= i < |ext| ==> ext[i] != ExtSep && ext[i] != Sep
    ensures Convert(input, stem + [ExtSep] + ext, format, true) ==
      Dispatched(ImageCall(if Upper(ext) == "JPG" then "JPEG" else Upper(ext)))
  {
    InferFormatAppended(stem, ext);
  }

  /** A text input receives the `-f` value, or "txt" when none is given. */
  lemma TextFormatArgument(input: string, output: string, format: Option<string>)
    requires IsTextPath(input)
    ensures Convert(input, output, format, true) ==
      Dispatched(TextCall(if Given(format) then format.value else "txt"))
    ensures Convert(input, output, None, true) == Dispatched(TextCall("txt"))
  {
    InputKindsDisjoint(input);
  }

  /** The kind of input is recognised regardless of the case of its path. */
  lemma ConvertIgnoresInputCase(input: string, output: string, format: Option<string>, inputExists: bool)
    ensures Convert(Lower(input), output, format, inputExists) == Convert(input, output, format, inputExists)
  {
    LowerIdempotent(input);
  }

  /**
    The three kinds of input exclude one another: the suffixes ".txt" and
    ".docx" and the six image suffixes all end in different letters, so the
    order of the tests in `convert` decides nothing.
   */
  lemma InputKindsDisjoint(input: string)
    ensures IsTextPath(input) ==> !IsImagePath(input)
    ensures IsDocxPath(input) ==> !IsImagePath(input) && !IsTextPath(input)
  {
    var l := Lower(input);
    EndsWithLast(l, ".jpg");
    EndsWithLast(l, ".jpeg");
    EndsWithLast(l, ".png");
    EndsWithLast(l, ".bmp");
    EndsWithLast(l, ".gif");
    EndsWithLast(l, ".tiff");
    EndsWithLast(l, ".txt");
    EndsWithLast(l, ".docx");
  }

  /** A docx input goes to the docx converter, whatever the output path and the `-f` value. */
  lemma DocxInputDispatched(input: string, output: string, format: Option<string>)
    requires IsDocxPath(input)
    ensures Convert(input, output, format, true) == Dispatched(DocxCall)
  {
    InputKindsDisjoint(input);
  }

  /**
    Without a usable `-f`, an image input fails when the output name has no
    dot at all ("out") or only the leading dot of a hidden file (".png"):
    `splitext` finds no extension in either.
   */
  lemma NoOutputExtensionFails(input: string, name: string, format: Option<string>)
    requires IsImagePath(input) && !Given(format)
    requires forall i :: 0 <= i < |name| ==> name[i] != ExtSep
    ensures Convert(input, name, format, true) == Failed(NoImageFormat)
    ensures Convert(input, [ExtSep] + name, format, true) == Failed(NoImageFormat)
  {
    NoExtension(name);
  }

  /** `splitext` finds no extension in a name without dots, nor behind the one leading dot of a hidden name. */
  lemma NoExtension(name: string)
    requires forall i :: 0 <= i < |name| ==> name[i] != ExtSep
    ensures SplitExt(name).1 == [] && SplitExt([ExtSep] + name).1 == []
  {
    assert RFind(name, ExtSep) == -1;
    var hidden := [ExtSep] + name;
    assert hidden[0] == ExtSep;
    assert forall j :: 0 < j < |hidden| ==> hidden[j] == name[j - 1];
    assert RFind(hidden, ExtSep) == 0;
  }

  /** Without a usable `-f`, an output extension "jpg" in any case ("jpg", "JPG", "Jpg") gives Pillow's "JPEG". */
  lemma JpgAliasAnyCase(input: string, stem: string, ext: string, format: Option<string>)
    requires IsImagePath(input) && NamedComponent(stem) && !Given(format)
    requires Lower(ext) == "jpg"
    ensures Convert(input, stem + [ExtSep] + ext, format, true) == Dispatched(ImageCall("JPEG"))
  {
    JpgSpelling(ext);
    InferredImageFormat(input, stem, ext, format);
  }

  /** A spelling of "jpg" in any case is a clean extension that upper-cases to "JPG". */
  lemma JpgSpelling(ext: string)
    requires Lower(ext) == "jpg"
    ensures ext != [] && forall i :: 0 <= i < |ext| ==> ext[i] != ExtSep && ext[i] != Sep
    ensures Upper(ext) == "JPG"
  {
    var l := Lower(ext);
    assert l[0] == 'j' && l[1] == 'p' && l[2] == 'g';
    forall i | 0 <= i < |ext|
      ensures ext[i] != ExtSep && ext[i] != Sep
    {
      assert i == 0 || i == 1 || i == 2;
      assert l[i] == LowerChar(ext[i]);
    }
    UpperOfLower(ext);
    var u := Upper(l);
    assert u[0] == 'J' && u[1] == 'P' && u[2] == 'G';
    assert u == "JPG";
  }
}
