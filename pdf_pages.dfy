/**
  `convert_pdf_to_image(input_path, output_dir)`: the rasterizer returns the
  document's pages, and the i-th of them (counting from 0) is saved as
  JPEG to `output_dir/page_{i+1}.jpg`. Any exception ends the conversion;
  pages saved before it stay on disk.

  The rasterizer's result is a parameter (None when it raises), and so is
  whether each save succeeds.
 */
module PdfPages {
  import opened Options
  import opened Strings
  import opened Paths

  /** The Pillow format every page is saved in. */
  const PageFormat: string := "JPEG"

  /** The file name of the page at 0-based index `i`. */
  function PageName(i: nat): string
  {
    "page_" + Decimal(i + 1) + ".jpg"
  }

  /** A page's file name is "page_", the decimal of its 1-based number, and ".jpg". */
  lemma PageNameShape(i: nat)
    ensures var name := PageName(i);
      && StartsWith(name, "page_") && EndsWith(name, ".jpg")
      && |name| >= 10 && name[5..|name| - 4] == Decimal(i + 1)
  {
    var name := PageName(i);
    assert name[..5] == "page_";
    assert name[|name| - 4..] == ".jpg";
    assert name[5..|name| - 4] == Decimal(i + 1);
  }

  /** `os.path.join(output_dir, f"page_{i+1}.jpg")`. */
  function PagePath(outputDir: string, i: nat): string
  {
    Join(outputDir, PageName(i))
  }

  /** The page file lies in the output directory and carries the page's name. */
  lemma PagePathInDirectory(outputDir: string, i: nat)
    ensures StartsWith(PagePath(outputDir, i), outputDir) && EndsWith(PagePath(outputDir, i), PageName(i))
  {
    PageNameShape(i);
    assert PageName(i)[..5][0] == 'p';
  }

  /** A page file written to disk: where, which page, in which format. */
  datatype SavedPage<P> = SavedPage(path: string, page: P, format: string)

  method ConvertPdfToImage<P>(outputDir: string, rendered: Option<seq<P>>, saveOk: (P, string) -> bool)
    returns (saved: seq<SavedPage<P>>, failed: bool)
    // the rasterizer raised: nothing is written
    ensures rendered.None? ==> saved == [] && failed
    // otherwise the pages are written in order, each to its own numbered file, until a save fails
    ensures rendered.Some? ==>
      var pages := rendered.value;
      && |saved| <= |pages|
      && (forall i :: 0 <= i < |saved| ==>
            saved[i] == SavedPage(PagePath(outputDir, i), pages[i], PageFormat)
            && saveOk(pages[i], PagePath(outputDir, i)))
      && (failed <==> |saved| < |pages|)
      && (|saved| < |pages| ==> !saveOk(pages[|saved|], PagePath(outputDir, |saved|)))
  {
    saved := [];
    failed := false;
    if rendered.None? {
      failed := true;
      return;
    }
    var pages := rendered.value;
    var i := 0;
    while i < |pages|
      invariant 0 <= i <= |pages|
      invariant |saved| == i
      invariant forall k :: 0 <= k < i ==>
        saved[k] == SavedPage(PagePath(outputDir, k), pages[k], PageFormat)
        && saveOk(pages[k], PagePath(outputDir, k))
    {
      var path := PagePath(outputDir, i);
      if !saveOk(pages[i], path) {
        failed := true;
        return;
      }
      saved := saved + [SavedPage(path, pages[i], PageFormat)];
      i := i + 1;
    }
  }

  /** Different page indices give different files in the same directory. */
  lemma PagePathsDistinct(outputDir: string, i: nat, j: nat)
    requires i != j
    ensures PagePath(outputDir, i) != PagePath(outputDir, j)
  {
    var a, b := PageName(i), PageName(j);
    PageNameShape(i);
    PageNameShape(j);
    assert a != b by {
      if a == b {
        DecimalInjective(i + 1, j + 1);
        assert false;
      }
    }
    assert !StartsWith(a, [Sep]) && !StartsWith(b, [Sep]) by {
      assert a[..1] == "p" && b[..1] == "p";
    }
    JoinInjective(outputDir, a, b);
  }

  /** The first page is "page_1.jpg" and the tenth "page_10.jpg". */
  lemma PageNameExamples()
    ensures PageName(0) == "page_1.jpg"
    ensures PageName(9) == "page_10.jpg"
  {
    assert Decimal(1) == "1";
    assert Decimal(10) == Decimal(1) + "0";
  }
}
