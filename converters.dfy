/**
  The three single-file converters, seen from their callers. Each one
  (`convert_image`, `convert_text`, `convert_docx`) catches every exception
  it meets, prints its own line and returns nothing, so a caller knows only
  which converter it invoked and with which format argument.
 */
module Converters {
  import opened Options
  import opened Strings

  /** One converter invocation, with the format argument it is given. */
  datatype Call =
    | ImageCall(format: string)  // convert_image(in, out, format)
    | TextCall(format: string)   // convert_text(in, out, format); the format is unused
    | DocxCall                   // convert_docx(in, out)

  /** The input-format tokens `batch_convert` sends to the image converter. */
  predicate IsBatchImageToken(t: string)
  {
    t == "jpg" || t == "png" || t == "jpeg" || t == "bmp"
  }

  /**
    The converter `batch_convert` routes every selected entry to: decided by
    the lower-cased input-format token alone; None for an unknown token.
   */
  function BatchCall(inputFormat: string, outputFormat: string): (c: Option<Call>)
    ensures IsBatchImageToken(Lower(inputFormat)) <==> c == Some(ImageCall(outputFormat))
    ensures Lower(inputFormat) == "txt" <==> c == Some(TextCall(outputFormat))
    ensures Lower(inputFormat) == "docx" <==> c == Some(DocxCall)
    ensures c.None? <==> !IsBatchImageToken(Lower(inputFormat)) && Lower(inputFormat) != "txt" && Lower(inputFormat) != "docx"
  {
    var t := Lower(inputFormat);
    if IsBatchImageToken(t) then Some(ImageCall(outputFormat))
    else if t == "txt" then Some(TextCall(outputFormat))
    else if t == "docx" then Some(DocxCall)
    else None
  }

  /** Routing ignores the case of the input-format token. */
  lemma BatchCallIgnoresCase(inputFormat: string, outputFormat: string)
    ensures BatchCall(Lower(inputFormat), outputFormat) == BatchCall(inputFormat, outputFormat)
  {
    LowerIdempotent(inputFormat);
  }

  /** Upper-case tokens route like lower-case ones; "gif" is no batch image token. */
  lemma BatchCallExamples()
    ensures BatchCall("JPG", "png") == Some(ImageCall("png"))
    ensures BatchCall("Docx", "txt") == Some(DocxCall)
    ensures BatchCall("gif", "png") == None
    ensures BatchCall("xyz", "abc") == None
  {
    assert Lower("JPG") == "jpg";
    assert Lower("Docx") == "docx";
    assert Lower("gif") == "gif";
    assert Lower("xyz") == "xyz";
  }
}
