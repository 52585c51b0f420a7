/**
  `batch_convert(input_dir, output_dir, input_format, output_format)`: make
  sure the output directory exists, scan the input directory's entries in
  the order the file system lists them, convert every entry whose name ends
  in "." + input_format, count what was found and what was converted, and
  report the outcome.

  The file system enters as values: the kind of the two paths and the list
  of entry names. A converter's own success or failure is a parameter
  (`succeeds`), because the converters swallow their errors and only print.
 */
module Batch {
  import opened Options
  import opened Strings
  import opened Paths
  import opened Converters

  /** What a path is on disk: `os.path.exists` and `os.path.isdir` together. */
  datatype PathKind = Missing | Directory | NotDirectory

  /** How far the driver got. */
  datatype Stage =
    | OutputNotDirectory   // the output path exists and is no directory: nothing else done
    | InputNotDirectory    // the input path is missing or no directory: nothing scanned
    | Scanned              // the entries were scanned

  /** The closing line. */
  datatype Summary =
    | NoSummary                 // nothing is printed
    | NoMatchingFiles           // "no files with extension ..."
    | Completed(count: nat)     // "batch conversion finished, files processed: count"

  /** One converter invocation, and whether that converter reported success. */
  datatype Job = Job(source: string, destination: string, call: Call, succeeded: bool)

  datatype Report = Report(
    createdOutputDir: bool,
    stage: Stage,
    found: nat,        // found_files_count
    processed: nat,    // processed_files_count
    jobs: seq<Job>,
    summary: Summary)

  /** The selection test: the literal, case-sensitive suffix "." + input_format. */
  predicate Matches(name: string, inputFormat: string)
  {
    EndsWith(name, "." + inputFormat)
  }

  /** The entries that match, in listing order. */
  function Selected(entries: seq<string>, inputFormat: string): seq<string>
  {
    if entries == [] then []
    else
      var last := entries[|entries| - 1];
      Selected(entries[..|entries| - 1], inputFormat) + (if Matches(last, inputFormat) then [last] else [])
  }

  /** The file name a selected entry is converted to: its stem, a dot and the output format. */
  function DestinationName(name: string, outputFormat: string): string
  {
    SplitExt(name).0 + "." + outputFormat
  }

  /**
    A destination name is a prefix of the entry's name followed by
    "." + output_format, and a relative entry name gives a relative one.
   */
  lemma DestinationNameShape(name: string, outputFormat: string)
    ensures var d := DestinationName(name, outputFormat);
      && |d| > |outputFormat| && EndsWith(d, "." + outputFormat)
      && StartsWith(name, d[..|d| - |outputFormat| - 1])
      && (!StartsWith(name, [Sep]) ==> !StartsWith(d, [Sep]))
  {
    var stem := SplitExt(name).0;
    var d := stem + "." + outputFormat;
    assert d[..|stem|] == stem && d[|stem|..] == "." + outputFormat;
    assert name[..|stem|] == stem;
    assert stem != [] ==> d[..1] == name[..1];
  }

  /** The invocation planned for a selected entry once its converter is known. */
  function PlanJob(name: string, inputDir: string, outputDir: string, outputFormat: string,
                   call: Call, succeeds: (Call, string, string) -> bool): Job
  {
    var source := Join(inputDir, name);
    var destination := Join(outputDir, DestinationName(name, outputFormat));
    Job(source, destination, call, succeeds(call, source, destination))
  }

  /** The invocations planned for the selected entries: one per entry, in order. */
  function PlanJobs(names: seq<string>, inputDir: string, outputDir: string, outputFormat: string,
                    call: Call, succeeds: (Call, string, string) -> bool): (jobs: seq<Job>)
    ensures |jobs| == |names|
  {
    seq(|names|, k requires 0 <= k < |names| => PlanJob(names[k], inputDir, outputDir, outputFormat, call, succeeds))
  }

  /** The closing line chosen from the two counters (main.py:74-77). */
  function Summarize(found: nat, processed: nat, inputExists: bool): (s: Summary)
    ensures s == NoMatchingFiles <==> found == 0 && inputExists
    ensures s.Completed? <==> processed > 0 && !(found == 0 && inputExists)
    ensures s.Completed? ==> s.count == processed
  {
    if found == 0 && inputExists then NoMatchingFiles
    else if processed > 0 then Completed(processed)
    else NoSummary
  }

  /**
    The driver. `outputKind` is the output path's kind on entry; `inputKind`
    is the input path's kind as `os.path.isdir` sees it after the output
    directory has been created, which matters when the two paths coincide
    or the input lies on the way to the output.
   */
  method BatchConvert(inputDir: string, outputDir: string, inputFormat: string, outputFormat: string,
                      inputKind: PathKind, outputKind: PathKind, entries: seq<string>,
                      succeeds: (Call, string, string) -> bool)
    returns (r: Report)
    // the output directory is created exactly when it is missing
    ensures r.createdOutputDir <==> outputKind == Missing
    // the two early returns, in this order
    ensures outputKind == NotDirectory ==> r.stage == OutputNotDirectory
    ensures outputKind != NotDirectory && inputKind != Directory ==> r.stage == InputNotDirectory
    ensures outputKind != NotDirectory && inputKind == Directory ==> r.stage == Scanned
    ensures r.stage != Scanned ==> r.jobs == [] && r.found == 0 && r.processed == 0 && r.summary == NoSummary
    // the scan
    ensures r.stage == Scanned ==>
      var sel := Selected(entries, inputFormat);
      var call := BatchCall(inputFormat, outputFormat);
      && r.found == |sel|
      && r.processed == |r.jobs|
      && r.processed == (if call.Some? then r.found else 0)
      && r.jobs == (if call.Some? then PlanJobs(sel, inputDir, outputDir, outputFormat, call.value, succeeds) else [])
    // the closing line
    ensures r.stage == Scanned ==>
      && (r.summary == NoMatchingFiles <==> r.found == 0)
      && (r.summary == Completed(r.processed) <==> r.processed > 0)
      && (r.summary == NoSummary <==> r.found > 0 && BatchCall(inputFormat, outputFormat).None?)
    ensures r.processed <= r.found
  {
    var created := false;
    if outputKind == Missing {
      created := true;
    } else if outputKind == NotDirectory {
      return Report(created, OutputNotDirectory, 0, 0, [], NoSummary);
    }
    if inputKind != Directory {
      return Report(created, InputNotDirectory, 0, 0, [], NoSummary);
    }
    var found, processed, jobs := ScanEntries(inputDir, outputDir, inputFormat, outputFormat, entries, succeeds);
    SummarizeScanned(found, processed, BatchCall(inputFormat, outputFormat));
    r := Report(created, Scanned, found, processed, jobs, Summarize(found, processed, inputKind != Missing));
  }

  /**
    The loop of `batch_convert` over the listing: the number of matching
    entries, the number handed to a converter, and the invocations in
    listing order.
   */
  method ScanEntries(inputDir: string, outputDir: string, inputFormat: string, outputFormat: string,
                     entries: seq<string>, succeeds: (Call, string, string) -> bool)
    returns (found: nat, processed: nat, jobs: seq<Job>)
    ensures var sel := Selected(entries, inputFormat);
      var call := BatchCall(inputFormat, outputFormat);
      && found == |sel|
      && processed == |jobs|
      && processed == (if call.Some? then found else 0)
      && jobs == (if call.Some? then PlanJobs(sel, inputDir, outputDir, outputFormat, call.value, succeeds) else [])
  {
    processed := 0;
    found := 0;
    jobs := [];
    ghost var routed := BatchCall(inputFormat, outputFormat);
    ghost var sel: seq<string> := [];
    for i := 0 to |entries|
      invariant sel == Selected(entries[..i], inputFormat)
      invariant found == |sel|
      invariant processed == |jobs|
      invariant processed == if routed.Some? then found else 0
      invariant jobs == if routed.Some? then PlanJobs(sel, inputDir, outputDir, outputFormat, routed.value, succeeds) else []
    {
      var name := entries[i];
      SelectedStep(entries, i, inputFormat);
      if EndsWith(name, "." + inputFormat) {
        found := found + 1;
        ghost var before := sel;
        sel := sel + [name];
        var source := Join(inputDir, name);
        var destination := Join(outputDir, SplitExt(name).0 + "." + outputFormat);
        var call := BatchCall(inputFormat, outputFormat);
        if call.Some? {
          PlanJobsStep(before, name, inputDir, outputDir, outputFormat, call.value, succeeds);
          jobs := jobs + [Job(source, destination, call.value, succeeds(call.value, source, destination))];
          assert jobs[|jobs| - 1] == PlanJob(name, inputDir, outputDir, outputFormat, call.value, succeeds);
          processed := processed + 1;
        }
      }
    }
    assert entries[..|entries|] == entries;
  }

  /** Scanning one more entry appends it to the selection exactly when it matches. */
  lemma SelectedStep(entries: seq<string>, i: nat, inputFormat: string)
    requires i < |entries|
    ensures Selected(entries[..i + 1], inputFormat) ==
      Selected(entries[..i], inputFormat) + (if Matches(entries[i], inputFormat) then [entries[i]] else [])
  {
    assert entries[..i + 1][..i] == entries[..i];
  }

  /** Planning one more selected entry appends its invocation. */
  lemma PlanJobsStep(names: seq<string>, name: string, inputDir: string, outputDir: string, outputFormat: string,
                     call: Call, succeeds: (Call, string, string) -> bool)
    ensures PlanJobs(names + [name], inputDir, outputDir, outputFormat, call, succeeds)
      == PlanJobs(names, inputDir, outputDir, outputFormat, call, succeeds)
         + [PlanJob(name, inputDir, outputDir, outputFormat, call, succeeds)]
  {
    var longer := names + [name];
    var l := PlanJobs(longer, inputDir, outputDir, outputFormat, call, succeeds);
    var r := PlanJobs(names, inputDir, outputDir, outputFormat, call, succeeds)
             + [PlanJob(name, inputDir, outputDir, outputFormat, call, succeeds)];
    forall k | 0 <= k < |l|
      ensures l[k] == r[k]
    {
      if k < |names| {
        assert longer[k] == names[k];
      } else {
        assert longer[k] == name;
      }
    }
  }

  /**
    A planned invocation hands the entry to the given converter, reads the
    entry under its own name and writes a file with the output extension; a
    relative entry name is read from the input directory and written into
    the output directory.
   */
  lemma PlanJobTargets(name: string, inputDir: string, outputDir: string, outputFormat: string,
                       call: Call, succeeds: (Call, string, string) -> bool)
    ensures var job := PlanJob(name, inputDir, outputDir, outputFormat, call, succeeds);
      && job.call == call && job.succeeded == succeeds(call, job.source, job.destination)
      && EndsWith(job.source, name) && EndsWith(job.destination, "." + outputFormat)
      && (!StartsWith(name, [Sep]) ==> StartsWith(job.source, inputDir) && StartsWith(job.destination, outputDir))
  {
    var base := DestinationName(name, outputFormat);
    DestinationNameShape(name, outputFormat);
    EndsWithTrans(Join(outputDir, base), base, "." + outputFormat);
  }

  /** Every planned invocation goes to the same converter, one per selected entry, in order. */
  lemma PlanJobsTargets(names: seq<string>, inputDir: string, outputDir: string, outputFormat: string,
                        call: Call, succeeds: (Call, string, string) -> bool)
    ensures var jobs := PlanJobs(names, inputDir, outputDir, outputFormat, call, succeeds);
      forall k :: 0 <= k < |names| ==>
        && jobs[k].call == call
        && jobs[k].succeeded == succeeds(call, jobs[k].source, jobs[k].destination)
        && EndsWith(jobs[k].source, names[k])
        && EndsWith(jobs[k].destination, "." + outputFormat)
        && (!StartsWith(names[k], [Sep]) ==> StartsWith(jobs[k].source, inputDir) && StartsWith(jobs[k].destination, outputDir))
  {
    forall k | 0 <= k < |names|
      ensures var job := PlanJob(names[k], inputDir, outputDir, outputFormat, call, succeeds);
        && job.call == call && job.succeeded == succeeds(call, job.source, job.destination)
        && EndsWith(job.source, names[k]) && EndsWith(job.destination, "." + outputFormat)
        && (!StartsWith(names[k], [Sep]) ==> StartsWith(job.source, inputDir) && StartsWith(job.destination, outputDir))
    {
      PlanJobTargets(names[k], inputDir, outputDir, outputFormat, call, succeeds);
    }
  }

  /** After a scan, the closing line tells the three cases of the counters apart. */
  lemma SummarizeScanned(found: nat, processed: nat, routed: Option<Call>)
    requires processed == if routed.Some? then found else 0
    ensures Summarize(found, processed, true) == NoMatchingFiles <==> found == 0
    ensures Summarize(found, processed, true) == Completed(processed) <==> processed > 0
    ensures Summarize(found, processed, true) == NoSummary <==> found > 0 && routed.None?
  {
  }

  /** An entry is selected exactly when it is listed and carries the suffix. */
  lemma {:induction false} SelectedIff(entries: seq<string>, inputFormat: string, name: string)
    ensures name in Selected(entries, inputFormat) <==> name in entries && Matches(name, inputFormat)
  {
    if entries != [] {
      var init := entries[..|entries| - 1];
      SelectedIff(init, inputFormat, name);
      assert entries == init + [entries[|entries| - 1]];
    }
  }

  /** Selection keeps listing order: the selection of a concatenation is the concatenation of the selections. */
  lemma {:induction false} SelectedAppend(a: seq<string>, b: seq<string>, inputFormat: string)
    ensures Selected(a + b, inputFormat) == Selected(a, inputFormat) + Selected(b, inputFormat)
    decreases |b|
  {
    if b == [] {
      assert a + b == a;
    } else {
      var init := b[..|b| - 1];
      SelectedAppend(a, init, inputFormat);
      assert (a + b)[..|a + b| - 1] == a + init;
    }
  }

  /**
    For an input format with no dot, a selected entry `stem.fmt` whose stem
    is a proper name is written as `stem.output_format`.
   */
  lemma DestinationReplacesSuffix(stem: string, inputFormat: string, outputFormat: string)
    requires NamedComponent(stem)
    requires forall i :: 0 <= i < |inputFormat| ==> inputFormat[i] != ExtSep && inputFormat[i] != Sep
    ensures Matches(stem + "." + inputFormat, inputFormat)
    ensures DestinationName(stem + "." + inputFormat, outputFormat) == stem + "." + outputFormat
  {
    assert stem + "." + inputFormat == stem + [ExtSep] + inputFormat;
    SplitExtAppended(stem, inputFormat);
    assert (stem + "." + inputFormat)[|stem|..] == "." + inputFormat;
  }

  /** Two different entries `stem1.fmt` and `stem2.fmt` are written to different files. */
  lemma DestinationsDistinct(stem1: string, stem2: string, inputFormat: string,
                             outputDir: string, outputFormat: string)
    requires NamedComponent(stem1) && NamedComponent(stem2)
    requires !StartsWith(stem1, [Sep]) && !StartsWith(stem2, [Sep])
    requires forall i :: 0 <= i < |inputFormat| ==> inputFormat[i] != ExtSep && inputFormat[i] != Sep
    requires stem1 != stem2
    ensures Join(outputDir, DestinationName(stem1 + "." + inputFormat, outputFormat))
         != Join(outputDir, DestinationName(stem2 + "." + inputFormat, outputFormat))
  {
    DestinationReplacesSuffix(stem1, inputFormat, outputFormat);
    DestinationReplacesSuffix(stem2, inputFormat, outputFormat);
    var d1 := stem1 + "." + outputFormat;
    var d2 := stem2 + "." + outputFormat;
    assert !StartsWith(d1, [Sep]) by { assert d1[..1] == stem1[..1] || stem1 == []; }
    assert !StartsWith(d2, [Sep]) by { assert d2[..1] == stem2[..1] || stem2 == []; }
    assert d1 != d2 by {
      if |stem1| == |stem2| {
        assert d1[..|stem1|] == stem1;
        assert d2[..|stem1|] == stem2;
      } else {
        assert |d1| != |d2|;
      }
    }
    JoinInjective(outputDir, d1, d2);
  }

  /** A single entry is selected alone exactly when it matches. */
  lemma SelectedSingle(name: string, inputFormat: string)
    ensures Selected([name], inputFormat) == if Matches(name, inputFormat) then [name] else []
  {
    assert [name][..0] == [];
  }

  /** The selection from a listing of five entries, entry by entry. */
  lemma SelectedOfFive(a: string, b: string, c: string, d: string, e: string, inputFormat: string)
    ensures Selected([a, b, c, d, e], inputFormat) ==
      Selected([a], inputFormat) + Selected([b], inputFormat) + Selected([c], inputFormat)
      + Selected([d], inputFormat) + Selected([e], inputFormat)
  {
    SelectedAppend([a], [b], inputFormat);
    SelectedAppend([a, b], [c], inputFormat);
    SelectedAppend([a, b, c], [d], inputFormat);
    SelectedAppend([a, b, c, d], [e], inputFormat);
    assert [a] + [b] == [a, b];
    assert [a, b] + [c] == [a, b, c];
    assert [a, b, c] + [d] == [a, b, c, d];
    assert [a, b, c, d] + [e] == [a, b, c, d, e];
  }

  /** The entries of the integration fixture that `jpg` selects and skips. */
  lemma FixtureMatchesJpg()
    ensures Matches("img1.jpg", "jpg") && !Matches("img2.png", "jpg") && !Matches("doc1.txt", "jpg")
    ensures !Matches("report.docx", "jpg") && !Matches("other.log", "jpg")
  {
    assert "img2.png"[5] == 'p' && "doc1.txt"[5] == 't' && "report.docx"[7] == 'd' && "other.log"[6] == 'l';
  }

  /** The entries of the integration fixture that `docx` selects and skips. */
  lemma FixtureMatchesDocx()
    ensures !Matches("img1.jpg", "docx") && !Matches("img2.png", "docx") && !Matches("doc1.txt", "docx")
    ensures Matches("report.docx", "docx") && !Matches("other.log", "docx")
  {
    assert "img1.jpg"[3] == '1' && "img2.png"[3] == '2' && "doc1.txt"[3] == '1' && "other.log"[4] == 'r';
  }

  /**
    The fixture of the integration tests: of the five entries img1.jpg,
    img2.png, doc1.txt, report.docx and other.log, the format `jpg`
    selects only img1.jpg and the format `docx` only report.docx.
   */
  lemma IntegrationSelection()
    ensures Selected(["img1.jpg", "img2.png", "doc1.txt", "report.docx", "other.log"], "jpg") == ["img1.jpg"]
    ensures Selected(["img1.jpg", "img2.png", "doc1.txt", "report.docx", "other.log"], "docx") == ["report.docx"]
  {
    FixtureMatchesJpg();
    FixtureMatchesDocx();
    SelectedOfFive("img1.jpg", "img2.png", "doc1.txt", "report.docx", "other.log", "jpg");
    SelectedOfFive("img1.jpg", "img2.png", "doc1.txt", "report.docx", "other.log", "docx");
    SelectedSingle("img1.jpg", "jpg");
    SelectedSingle("img2.png", "jpg");
    SelectedSingle("doc1.txt", "jpg");
    SelectedSingle("report.docx", "jpg");
    SelectedSingle("other.log", "jpg");
    SelectedSingle("img1.jpg", "docx");
    SelectedSingle("img2.png", "docx");
    SelectedSingle("doc1.txt", "docx");
    SelectedSingle("report.docx", "docx");
    SelectedSingle("other.log", "docx");
  }

  /**
    A hidden file named "." + fmt has no extension for `splitext`: it is
    selected for fmt and keeps its whole name as the stem.
   */
  lemma HiddenNameKeepsWholeName(inputFormat: string, outputFormat: string)
    requires forall i :: 0 <= i < |inputFormat| ==> inputFormat[i] != ExtSep && inputFormat[i] != Sep
    ensures Matches("." + inputFormat, inputFormat)
    ensures DestinationName("." + inputFormat, outputFormat) == "." + inputFormat + "." + outputFormat
  {
    var p := "." + inputFormat;
    assert p[0] == ExtSep;
    assert forall j :: 0 < j < |p| ==> p[j] == inputFormat[j - 1];
    assert RFind(p, ExtSep) == 0;
    assert RFind(p, Sep) == -1;
  }

  /**
    Two selected entries can share a destination: ".fmt" and ".fmt.fmt"
    (".jpg" and ".jpg.jpg") are both written as ".fmt.output_format".
   */
  lemma HiddenNamesCollide(inputFormat: string, outputFormat: string)
    requires inputFormat != []
    requires forall i :: 0 <= i < |inputFormat| ==> inputFormat[i] != ExtSep && inputFormat[i] != Sep
    ensures Matches("." + inputFormat, inputFormat) && Matches("." + inputFormat + "." + inputFormat, inputFormat)
    ensures "." + inputFormat != "." + inputFormat + "." + inputFormat
    ensures DestinationName("." + inputFormat, outputFormat)
         == DestinationName("." + inputFormat + "." + inputFormat, outputFormat)
  {
    var hidden := "." + inputFormat;
    HiddenNameKeepsWholeName(inputFormat, outputFormat);
    assert NamedComponent(hidden) by {
      assert forall j :: 0 < j < |hidden| ==> hidden[j] == inputFormat[j - 1];
      assert RFind(hidden, Sep) == -1;
      assert hidden[1] != ExtSep;
    }
    DestinationReplacesSuffix(hidden, inputFormat, outputFormat);
  }

  /**
    A dotted input format "f1.f2" (such as "tar.gz") selects "stem.f1.f2",
    but `splitext` strips only ".f2": the destination is "stem.f1.output_format".
   */
  lemma DottedFormatStripsLastPart(stem: string, f1: string, f2: string, outputFormat: string)
    requires NamedComponent(stem)
    requires forall i :: 0 <= i < |f1| ==> f1[i] != ExtSep && f1[i] != Sep
    requires forall i :: 0 <= i < |f2| ==> f2[i] != ExtSep && f2[i] != Sep
    ensures Matches(stem + "." + f1 + "." + f2, f1 + "." + f2)
    ensures DestinationName(stem + "." + f1 + "." + f2, outputFormat) == stem + "." + f1 + "." + outputFormat
  {
    var name := stem + "." + f1 + "." + f2;
    assert name[|stem|..] == "." + (f1 + "." + f2);
    var tail := "." + f1;
    assert tail[0] == ExtSep;
    assert forall i :: 0 < i < |tail| ==> tail[i] == f1[i - 1];
    NamedComponentExtended(stem, tail);
    assert stem + tail == stem + "." + f1;
    DestinationReplacesSuffix(stem + "." + f1, f2, outputFormat);
  }
}
