/**
 What extract_document promises about the lists it returns and about its failures,
 stated over every file path and every combination of backend answers.
 */
module ExtractorProperties {
  import opened PathText
  import opened Backends
  import opened OutputNames
  import opened Extractor

  /**
   A run ends in an exception exactly when the text backend raises, creating the output
   folders raises, or the image backend of the dispatched format raises; the table
   backend never decides it.
   */
  lemma DocumentFailsOnlyOutsideTables(filePath: string, backends: Backends)
    ensures Document(filePath, backends).Extracted? <==>
      && backends.tika.Returned?
      && backends.folders.Returned?
      && (Extension(filePath) == ".pdf" ==> backends.pdfRegions.Returned?)
      && (Extension(filePath) == ".docx" ==> backends.docxTargetRefs.Returned?)
  {
  }

  /**
   Whatever the table backend does, the run ends the same way, with the same summary,
   text, metadata and images; only the table list can differ.
   */
  lemma TableOutcomeChangesOnlyTables(filePath: string, backends: Backends, tables: Call<seq<bool>>)
    ensures var d1 := Document(filePath, backends);
            var d2 := Document(filePath, backends.(tables := tables));
            && d1.Extracted? == d2.Extracted?
            && (d1.Crashed? ==> d1.fault == d2.fault)
            && (d1.Extracted? ==> d1.summary == d2.summary && d1.result.(tables := []) == d2.result.(tables := []))
  {
    var b2 := backends.(tables := tables);
    var ext := Extension(filePath);
    if backends.tika.Raised? || backends.folders.Raised? {
    } else if ext == ".pdf" {
      if backends.pdfRegions.Returned? {
        var tika := ExtractTika(backends.tika.value);
        var images := PdfImagePaths(ImageFolder(filePath), backends.pdfRegions.value);
        var r1 := tika.(images := images, tables := TablePaths(TableFolder(filePath), TablesWritten(backends.tables)));
        var r2 := tika.(images := images, tables := TablePaths(TableFolder(filePath), TablesWritten(tables)));
        assert Document(filePath, backends) == Extracted(Summarize(r1), r1);
        assert Document(filePath, b2) == Extracted(Summarize(r2), r2);
      }
    } else {
      assert Document(filePath, backends) == Document(filePath, b2);
    }
  }

  /** The lists of a finished PDF run: the page-by-page images and the tables written. */
  lemma PdfDocument(filePath: string, backends: Backends)
    requires Extension(filePath) == ".pdf"
    requires Document(filePath, backends).Extracted?
    ensures backends.pdfRegions.Returned?
    ensures var r := Document(filePath, backends).result;
            && r.images == PdfImagePaths(ImageFolder(filePath), backends.pdfRegions.value)
            && r.tables == TablePaths(TableFolder(filePath), TablesWritten(backends.tables))
  {
  }

  /** The lists of a finished DOCX run: one image per image relationship, no tables. */
  lemma DocxDocument(filePath: string, backends: Backends)
    requires Extension(filePath) == ".docx"
    requires Document(filePath, backends).Extracted?
    ensures backends.docxTargetRefs.Returned?
    ensures var r := Document(filePath, backends).result;
            && r.images == DocxImagePaths(ImageFolder(filePath), backends.docxTargetRefs.value)
            && r.tables == []
  {
  }

  /** When table detection raises, the table list is empty. */
  lemma DetectionFailureGivesNoTables(filePath: string, backends: Backends)
    requires backends.tables == Raised
    requires Document(filePath, backends).Extracted?
    ensures Document(filePath, backends).result.tables == []
  {
  }

  /**
   With `n` detected tables, the table list of a PDF is the first tables of
   table_1.csv ... table_n.csv: all of them when every export succeeds, and otherwise
   exactly those exported before the first failing export, which are kept.
   */
  lemma PdfTablesArePrefix(filePath: string, backends: Backends, exportOk: seq<bool>)
    requires Extension(filePath) == ".pdf"
    requires backends.tables == Returned(exportOk)
    requires Document(filePath, backends).Extracted?
    ensures var tables := Document(filePath, backends).result.tables;
            var all := TablePaths(TableFolder(filePath), |exportOk|);
            && tables == all[..|tables|]
            && ((forall k :: 0 <= k < |exportOk| ==> exportOk[k]) <==> tables == all)
            && (forall k :: 0 <= k < |exportOk| && !exportOk[k] ==> |tables| <= k)
            && (forall k :: 0 <= k < |tables| ==> exportOk[k])
            && (|tables| < |exportOk| ==> !exportOk[|tables|])
  {
    var n := ExportedCount(exportOk);
    var folder := TableFolder(filePath);
    PdfDocument(filePath, backends);
    var tables := Document(filePath, backends).result.tables;
    assert tables == TablePaths(folder, n);
    TablePathsPrefix(folder, n, |exportOk|);
    assert (forall k :: 0 <= k < |exportOk| ==> exportOk[k]) <==> n == |exportOk|;
  }

  /** Only a PDF gets tables. */
  lemma OnlyPdfHasTables(filePath: string, backends: Backends)
    requires Extension(filePath) != ".pdf"
    requires Document(filePath, backends).Extracted?
    ensures Document(filePath, backends).result.tables == []
  {
  }

  /** A file that is neither a PDF nor a DOCX gets no images and no tables. */
  lemma OtherFormatsHaveNoImagesOrTables(filePath: string, backends: Backends)
    requires Extension(filePath) != ".pdf" && Extension(filePath) != ".docx"
    requires Document(filePath, backends).Extracted?
    ensures Document(filePath, backends).result.images == []
    ensures Document(filePath, backends).result.tables == []
  {
  }

  /** The extension comparison ignores case: ".pdf" in any mix of upper and lower case selects the PDF steps. */
  lemma PdfExtensionAnyCase(filePath: string)
    ensures var e := SplitExt(filePath).1;
            Extension(filePath) == ".pdf" <==>
              && |e| == 4 && e[0] == '.'
              && (e[1] == 'p' || e[1] == 'P')
              && (e[2] == 'd' || e[2] == 'D')
              && (e[3] == 'f' || e[3] == 'F')
  {
    var e := SplitExt(filePath).1;
    var t := ".pdf";
    assert t[0] == '.' && t[1] == 'p' && t[2] == 'd' && t[3] == 'f';
    LowersTo(e, t);
    if |e| == 4 {
      LowerCharTo(e[0], t[0]);
      LowerCharTo(e[1], t[1]);
      LowerCharTo(e[2], t[2]);
      LowerCharTo(e[3], t[3]);
    }
  }

  /** Likewise ".docx" selects the DOCX step in any mix of cases. */
  lemma DocxExtensionAnyCase(filePath: string)
    ensures var e := SplitExt(filePath).1;
            Extension(filePath) == ".docx" <==>
              && |e| == 5 && e[0] == '.'
              && (e[1] == 'd' || e[1] == 'D')
              && (e[2] == 'o' || e[2] == 'O')
              && (e[3] == 'c' || e[3] == 'C')
              && (e[4] == 'x' || e[4] == 'X')
  {
    var e := SplitExt(filePath).1;
    var t := ".docx";
    assert t[0] == '.' && t[1] == 'd' && t[2] == 'o' && t[3] == 'c' && t[4] == 'x';
    LowersTo(e, t);
    if |e| == 5 {
      LowerCharTo(e[0], t[0]);
      LowerCharTo(e[1], t[1]);
      LowerCharTo(e[2], t[2]);
      LowerCharTo(e[3], t[3]);
      LowerCharTo(e[4], t[4]);
    }
  }

  /** A character lower-cases to a character that is not an upper-case letter exactly when it is that character or its upper-case form. */
  lemma LowerCharTo(c: char, t: char)
    requires !('A' <= t <= 'Z')
    ensures LowerChar(c) == t <==> c == t || ('a' <= t <= 'z' && c as int == t as int - 32)
  {
  }

  /** A string lower-cases to a target without upper-case letters exactly when each character is the target's or its upper-case form. */
  lemma LowersTo(e: string, target: string)
    requires forall i :: 0 <= i < |target| ==> !('A' <= target[i] <= 'Z')
    ensures LowerAscii(e) == target <==>
      |e| == |target| && forall i :: 0 <= i < |e| ==> LowerChar(e[i]) == target[i]
  {
    if |e| == |target| && forall i :: 0 <= i < |e| ==> LowerChar(e[i]) == target[i] {
      assert LowerAscii(e) == target;
    }
  }

  /** A relative name joined to a folder lands directly inside it. */
  lemma JoinedInside(folder: string, name: string)
    requires folder != [] && folder[|folder| - 1] != '/'
    requires name == [] || name[0] != '/'
    ensures folder + "/" <= Join(folder, name)
  {
    JoinRelative(folder, name);
    assert Join(folder, name)[..|folder| + 1] == folder + "/";
  }

  /**
   Every image path lies directly inside the document's image folder and every table
   path directly inside its table folder: no name the backends supply escapes them.
   */
  lemma OutputsInsideFolders(filePath: string, backends: Backends)
    requires Document(filePath, backends).Extracted?
    ensures var r := Document(filePath, backends).result;
            && (forall k :: 0 <= k < |r.images| ==> ImageFolder(filePath) + "/" <= r.images[k])
            && (forall k :: 0 <= k < |r.tables| ==> TableFolder(filePath) + "/" <= r.tables[k])
  {
    var r := Document(filePath, backends).result;
    var imageFolder := ImageFolder(filePath);
    var tableFolder := TableFolder(filePath);
    FolderShape(filePath);
    if Extension(filePath) == ".pdf" {
      PdfDocument(filePath, backends);
      var counts := backends.pdfRegions.value;
      forall k | 0 <= k < |r.images|
        ensures imageFolder + "/" <= r.images[k]
      {
        var p, i := PdfImagePathSource(imageFolder, counts, k);
        PdfImagePathAt(imageFolder, counts, p, i);
        JoinedInside(imageFolder, PdfImageName(p + 1, i + 1));
      }
      forall k | 0 <= k < |r.tables|
        ensures tableFolder + "/" <= r.tables[k]
      {
        JoinedInside(tableFolder, TableName(k + 1));
      }
    } else if Extension(filePath) == ".docx" {
      DocxDocument(filePath, backends);
      var refs := ImageRefs(backends.docxTargetRefs.value);
      forall k | 0 <= k < |r.images|
        ensures imageFolder + "/" <= r.images[k]
      {
        var name := Basename(refs[k]);
        DocxImagePathAt(imageFolder, backends.docxTargetRefs.value, k);
        assert name == [] || name[0] in name;
        JoinedInside(imageFolder, name);
      }
    }
  }

  /**
   The summary depends on the text backend alone: text counts as extracted exactly when
   `content` is present and a non-empty string (a missing key gives "", a `None` stays
   `None`), metadata exactly when `metadata` is present and non-empty.
   */
  lemma DocumentSummary(filePath: string, backends: Backends)
    requires Document(filePath, backends).Extracted?
    ensures var d := Document(filePath, backends);
            var parsed := backends.tika.value;
            && d.summary == Summarize(d.result)
            && (d.summary.textExtracted <==> parsed.content.Present? && parsed.content.value != "")
            && d.summary.percentInfoExtracted == (if d.summary.textExtracted then 100 else 0)
            && (d.summary.metadataExtracted <==> parsed.metadata.Present? && parsed.metadata.value != map[])
            && d.summary.outputFormat == OUTPUT_FORMAT
  {
  }

  /** The metrics repeat the summary: the same text verdict and twice the same 0-or-100 score. */
  lemma MetricsMirrorSummary(result: ExtractionResult, filePath: string, now: string)
    ensures var s := Summarize(result);
            var m := GetMetrics(s, result, filePath, now);
            && m.extractedText == s.textExtracted
            && m.percentRelevantInfo == m.percentInfoExtracted == s.percentInfoExtracted
            && (m.percentRelevantInfo == 100 <==> m.extractedText)
            && (m.percentRelevantInfo == 0 <==> !m.extractedText)
            && m.outputFormat == result.outputFormat
  {
  }

  /** How a plain file name <base><ext> is taken apart: that extension and that base. */
  lemma PlainPath(base: string, ext: string)
    requires base != [] && '/' !in base && '.' !in base
    requires ext != [] && ext[0] == '.' && '/' !in ext && '.' !in ext[1..]
    ensures Extension(base + ext) == LowerAscii(ext)
    ensures ImageFolder(base + ext) == "extracted/" + base + "_images"
    ensures TableFolder(base + ext) == "extracted/" + base + "_tables"
  {
    SplitPlainName(base, ext);
    FolderShape(base + ext);
  }

  /** The first two image names of page 1, and the first table name, rendered. */
  lemma FirstNames()
    ensures PdfImageName(1, 1) == "pdf_page1_img1.png"
    ensures PdfImageName(1, 2) == "pdf_page1_img2.png"
    ensures TableName(1) == "table_1.csv"
  {
    assert Decimal(1) == "1";
    assert Decimal(2) == "2";
  }

  /** One page with two image regions gives that page's first and second image. */
  lemma OnePageTwoRegions(folder: string)
    ensures PdfImagePaths(folder, [2]) == [Join(folder, PdfImageName(1, 1)), Join(folder, PdfImageName(1, 2))]
  {
    assert [2][..0] == [];
  }

  /** One table that exports fine gives the first table's path. */
  lemma OneTable(folder: string)
    ensures TablePaths(folder, TablesWritten(Returned([true]))) == [Join(folder, TableName(1))]
  {
    assert TablesWritten(Returned([true])) == 1;
  }

  /**
   A PDF <base>.pdf whose text is "Hello", with two image regions on its only page and
   one table: two page-1 images, one table, text extracted.
   */
  lemma PdfScenario(base: string, metadata: Metadata, now: string)
    requires base != [] && '/' !in base && '.' !in base
    ensures var backends := Backends(
              Returned(TikaResponse(Present("Hello"), Present(metadata))), Returned(()),
              Returned([2]), Raised, Returned([true]));
            var d := Document(base + ".pdf", backends);
            && d.Extracted?
            && d.result.text == Some("Hello")
            && d.result.images == [
                 "extracted/" + base + "_images" + "/" + "pdf_page1_img1.png",
                 "extracted/" + base + "_images" + "/" + "pdf_page1_img2.png"]
            && d.result.tables == ["extracted/" + base + "_tables" + "/" + "table_1.csv"]
            && d.summary.textExtracted && d.summary.percentInfoExtracted == 100
            && GetMetrics(d.summary, d.result, base + ".pdf", now).extractedTables
  {
    var p := base + ".pdf";
    PlainPath(base, ".pdf");
    assert LowerAscii(".pdf") == ".pdf";
    var imageFolder := ImageFolder(p);
    var tableFolder := TableFolder(p);
    var backends := Backends(
      Returned(TikaResponse(Present("Hello"), Present(metadata))), Returned(()),
      Returned([2]), Raised, Returned([true]));
    DocumentFailsOnlyOutsideTables(p, backends);
    PdfDocument(p, backends);
    OnePageTwoRegions(imageFolder);
    OneTable(tableFolder);
    FirstNames();
    JoinRelative(imageFolder, "pdf_page1_img1.png");
    JoinRelative(imageFolder, "pdf_page1_img2.png");
    JoinRelative(tableFolder, "table_1.csv");
  }

  /**
   A DOCX <base>.docx with no text and one relationship <dir>/<name> that names an image:
   no text extracted, one image stored as <name>, no tables.
   */
  lemma DocxScenario(base: string, dir: string, name: string, now: string)
    requires base != [] && '/' !in base && '.' !in base
    requires name != [] && '/' !in name && Contains(dir + "/" + name, "image")
    ensures var backends := Backends(
              Returned(TikaResponse(Null, Missing)), Returned(()),
              Raised, Returned([dir + "/" + name]), Raised);
            var d := Document(base + ".docx", backends);
            && d.Extracted?
            && d.result.images == ["extracted/" + base + "_images" + "/" + name]
            && d.result.tables == []
            && !d.summary.textExtracted && d.summary.percentInfoExtracted == 0
            && !d.summary.metadataExtracted
  {
    var p := base + ".docx";
    PlainPath(base, ".docx");
    assert LowerAscii(".docx") == ".docx";
    var imageFolder := ImageFolder(p);
    var backends := Backends(
      Returned(TikaResponse(Null, Missing)), Returned(()),
      Raised, Returned([dir + "/" + name]), Raised);
    DocumentFailsOnlyOutsideTables(p, backends);
    DocxDocument(p, backends);
    DocxAppendImage(imageFolder, [], dir + "/" + name);
    assert [] + [dir + "/" + name] == [dir + "/" + name];
    BasenameAfterSlash(dir, name);
    JoinRelative(imageFolder, name);
  }
}
