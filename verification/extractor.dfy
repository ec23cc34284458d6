/**
 The extractor: it asks the text backend for text and metadata, picks the image
 and table steps by the file's extension, assembles the result's lists, and derives
 the summary and the metrics from it.
 */
module Extractor {
  import opened PathText
  import opened Backends
  import opened OutputNames

  /** What the extractor returns about one document. */
  datatype ExtractionResult = ExtractionResult(
    text: Option<string>,
    metadata: Option<Metadata>,
    outputFormat: map<string, string>,
    images: seq<string>,
    tables: seq<string>)

  /** The heuristic digest of an ExtractionResult. */
  datatype Summary = Summary(
    textExtracted: bool,
    outputFormat: map<string, string>,
    metadataExtracted: bool,
    percentInfoExtracted: int)

  /** The report-oriented record written next to the summary. */
  datatype Metrics = Metrics(
    file: string,
    extractionTime: string,
    extractedText: bool,
    extractedImages: bool,
    extractedTables: bool,
    percentInfoExtracted: int,
    percentRelevantInfo: int,
    outputFormat: map<string, string>,
    methodUsed: string,
    permissionNeeded: string,
    notes: string)

  /** Which backend raised, ending the run. */
  datatype Fault = TextBackendFault | FolderFault | PdfImageFault | DocxImageFault

  /** A finished extraction, or the fault that ended it. */
  datatype Outcome = Extracted(summary: Summary, result: ExtractionResult) | Crashed(fault: Fault)

  /** The fixed description of the result's format. */
  const OUTPUT_FORMAT: map<string, string> := map["text" := "str", "metadata" := "dict"]

  const METHOD_USED := "open source (Apache Tika + pdfplumber/python-docx for images + Camelot for tables)"
  const PERMISSION_NEEDED := "No (open source, local processing)"
  const NOTES := "Text/metadata via Tika; images via pdfplumber/python-docx; tables via Camelot."

  /** Python truthiness of an optional string: present and non-empty. */
  predicate TextTruthy(text: Option<string>)
  {
    match text
    case None => false
    case Some(s) => s != []
  }

  /** Python truthiness of an optional mapping: present and non-empty. */
  predicate MetadataTruthy(metadata: Option<Metadata>)
  {
    match metadata
    case None => false
    case Some(m) => m != map[]
  }

  /**
   extract_tika: the text and metadata of the backend's response. A missing `content`
   key defaults to the empty string and a missing `metadata` key to the empty map; a
   key that is present but holds `None` stays `None`.
   */
  function ExtractTika(parsed: TikaResponse): (r: ExtractionResult)
    ensures r.text == None <==> parsed.content == Null
    ensures parsed.content == Missing ==> r.text == Some("")
    ensures parsed.content.Present? ==> r.text == Some(parsed.content.value)
    ensures r.metadata == None <==> parsed.metadata == Null
    ensures parsed.metadata == Missing ==> r.metadata == Some(map[])
    ensures parsed.metadata.Present? ==> r.metadata == Some(parsed.metadata.value)
    ensures r.outputFormat == OUTPUT_FORMAT
    ensures r.images == [] && r.tables == []
  {
    var text :=
      match parsed.content
      case Missing => Some("")
      case Null => None
      case Present(s) => Some(s);
    var metadata :=
      match parsed.metadata
      case Missing => Some(map[])
      case Null => None
      case Present(m) => Some(m);
    ExtractionResult(text, metadata, OUTPUT_FORMAT, [], [])
  }

  /**
   summarize_extraction: text counts as extracted when it is a non-empty string,
   metadata when it is a non-empty map; the percentage is 100 or 0 accordingly.
   */
  function Summarize(result: ExtractionResult): (s: Summary)
    ensures s.textExtracted <==> result.text.Some? && |result.text.value| > 0
    ensures s.metadataExtracted <==> result.metadata.Some? && |result.metadata.value| > 0
    ensures s.percentInfoExtracted == 0 || s.percentInfoExtracted == 100
    ensures s.percentInfoExtracted == 100 <==> s.textExtracted
    ensures s.outputFormat == result.outputFormat
  {
    var textExtracted := TextTruthy(result.text);
    Summary(
      textExtracted,
      result.outputFormat,
      MetadataTruthy(result.metadata),
      (if textExtracted then 1 else 0) * 100)
  }

  /**
   get_metrics, with the clock reading passed in as `now`: the booleans say which
   parts of the result are non-empty, and both percentages repeat the summary's.
   */
  function GetMetrics(summary: Summary, result: ExtractionResult, filePath: string, now: string): (m: Metrics)
    ensures m.file == filePath && m.extractionTime == now
    ensures m.extractedText <==> result.text.Some? && |result.text.value| > 0
    ensures m.extractedImages <==> |result.images| > 0
    ensures m.extractedTables <==> |result.tables| > 0
    ensures m.percentInfoExtracted == summary.percentInfoExtracted
    ensures m.percentRelevantInfo == summary.percentInfoExtracted
    ensures m.outputFormat == summary.outputFormat
  {
    Metrics(
      filePath,
      now,
      TextTruthy(result.text),
      result.images != [] && |result.images| > 0,
      result.tables != [] && |result.tables| > 0,
      summary.percentInfoExtracted,
      summary.percentInfoExtracted,
      summary.outputFormat,
      METHOD_USED,
      PERMISSION_NEEDED,
      NOTES)
  }

  /** The extension as extract_document compares it: splitext's extension, lower-cased. */
  function Extension(filePath: string): (e: string)
    ensures |e| == |SplitExt(filePath).1|
    ensures e == [] || e[0] == '.'
  {
    LowerAscii(SplitExt(filePath).1)
  }

  /** The file's base name without its extension. */
  function InputBase(filePath: string): string
  {
    SplitExt(Basename(filePath)).0
  }

  /** The base name has no '/'. */
  lemma InputBaseSlashFree(filePath: string)
    ensures '/' !in InputBase(filePath)
  {
    SplitExtRootKeepsSlashFree(Basename(filePath));
  }

  function ImageFolder(filePath: string): string
  {
    Join("extracted", InputBase(filePath) + "_images")
  }

  function TableFolder(filePath: string): string
  {
    Join("extracted", InputBase(filePath) + "_tables")
  }

  /** The image and table folders are extracted/<base>_images and extracted/<base>_tables, whatever the extension. */
  lemma FolderShape(filePath: string)
    ensures ImageFolder(filePath) == "extracted/" + InputBase(filePath) + "_images"
    ensures TableFolder(filePath) == "extracted/" + InputBase(filePath) + "_tables"
  {
    InputBaseSlashFree(filePath);
    FolderJoin(InputBase(filePath), "_images");
    FolderJoin(InputBase(filePath), "_tables");
  }

  /** Joining a '/'-free name with a suffix onto "extracted" inserts one '/'. */
  lemma FolderJoin(base: string, suffix: string)
    requires '/' !in base && suffix != [] && suffix[0] == '_'
    ensures Join("extracted", base + suffix) == "extracted/" + base + suffix
  {
    assert (base + suffix)[0] != '/' by {
      if base != [] {
        assert (base + suffix)[0] == base[0];
      }
    }
    assert "extracted"[8] == 'd';
    JoinRelative("extracted", base + suffix);
  }

  /**
   Tables written by the table step: none when detection raises, otherwise those
   exported before the first failing export, all of which succeeded.
   */
  function TablesWritten(tables: Call<seq<bool>>): (n: nat)
    ensures tables.Raised? ==> n == 0
    ensures tables.Returned? ==> n <= |tables.value| && (forall k :: 0 <= k < n ==> tables.value[k])
    ensures tables.Returned? && n < |tables.value| ==> !tables.value[n]
  {
    match tables
    case Raised => 0
    case Returned(exportOk) => ExportedCount(exportOk)
  }

  /**
   extract_document as a function of the backends' answers: what it returns, or which
   backend's exception ends the run. The table step's exceptions are caught. A finished
   run returns the text backend's record with the two lists filled in, and its summary.
   */
  function Document(filePath: string, backends: Backends): (d: Outcome)
    ensures d.Extracted? ==> backends.tika.Returned?
    ensures d.Extracted? ==> d.summary == Summarize(d.result)
    ensures d.Extracted? ==>
      d.result == ExtractTika(backends.tika.value).(images := d.result.images, tables := d.result.tables)
  {
    match backends.tika
    case Raised => Crashed(TextBackendFault)
    case Returned(parsed) =>
      var tika := ExtractTika(parsed);
      var ext := Extension(filePath);
      if backends.folders.Raised? then Crashed(FolderFault)
      else if ext == ".pdf" then
        match backends.pdfRegions
        case Raised => Crashed(PdfImageFault)
        case Returned(counts) =>
          var result := tika.(
            images := PdfImagePaths(ImageFolder(filePath), counts),
            tables := TablePaths(TableFolder(filePath), TablesWritten(backends.tables)));
          Extracted(Summarize(result), result)
      else if ext == ".docx" then
        match backends.docxTargetRefs
        case Raised => Crashed(DocxImageFault)
        case Returned(targetRefs) =>
          var result := tika.(images := DocxImagePaths(ImageFolder(filePath), targetRefs), tables := []);
          Extracted(Summarize(result), result)
      else
        var result := tika.(images := [], tables := []);
        Extracted(Summarize(result), result)
  }

  /** extract_images_pdf: one path per detected region, page by page, region by region. */
  method ExtractImagesPdf(counts: seq<nat>, imageFolder: string) returns (images: seq<string>)
    ensures images == PdfImagePaths(imageFolder, counts)
  {
    images := [];
    var p := 0;
    while p < |counts|
      invariant 0 <= p <= |counts|
      invariant images == PdfImagePaths(imageFolder, counts[..p])
    {
      var n := 0;
      while n < counts[p]
        invariant 0 <= n <= counts[p]
        invariant images == PdfImagePaths(imageFolder, counts[..p]) + PageImagePaths(imageFolder, p + 1, n)
      {
        images := images + [Join(imageFolder, PdfImageName(p + 1, n + 1))];
        n := n + 1;
      }
      assert counts[..p + 1][..p] == counts[..p];
      p := p + 1;
    }
    assert counts[..p] == counts;
  }

  /** extract_images_docx: one path per relationship whose target contains "image", named by its basename. */
  method ExtractImagesDocx(targetRefs: seq<string>, imageFolder: string) returns (images: seq<string>)
    ensures images == DocxImagePaths(imageFolder, targetRefs)
  {
    images := [];
    for k := 0 to |targetRefs|
      invariant images == DocxImagePaths(imageFolder, targetRefs[..k])
    {
      assert targetRefs[..k + 1][..k] == targetRefs[..k];
      if Contains(targetRefs[k], "image") {
        images := images + [Join(imageFolder, Basename(targetRefs[k]))];
      }
    }
    assert targetRefs[..|targetRefs|] == targetRefs;
  }

  /**
   The table step of extract_document, inside its try/except: tables are exported in
   detection order, and an exception (from detection or from an export) ends the step
   with the paths appended so far. It never raises.
   */
  method ExtractTables(tables: Call<seq<bool>>, tableFolder: string) returns (paths: seq<string>)
    ensures paths == TablePaths(tableFolder, TablesWritten(tables))
  {
    paths := [];
    match tables {
      case Raised =>
      case Returned(exportOk) =>
        var idx := 0;
        while idx < |exportOk|
          invariant 0 <= idx <= |exportOk|
          invariant forall k :: 0 <= k < idx ==> exportOk[k]
          invariant paths == TablePaths(tableFolder, idx)
        {
          var tablePath := Join(tableFolder, TableName(idx + 1));
          if !exportOk[idx] {
            break;
          }
          assert TablePaths(tableFolder, idx + 1) == paths + [tablePath];
          paths := paths + [tablePath];
          idx := idx + 1;
        }
        ExportedCountIsFirstFailure(exportOk, idx);
    }
  }

  /** extract_document: dispatch on the extension, then assemble the result and its summary. */
  method ExtractDocument(filePath: string, backends: Backends) returns (outcome: Outcome)
    ensures outcome == Document(filePath, backends)
  {
    var ext := Extension(filePath);
    if backends.tika.Raised? {
      return Crashed(TextBackendFault);
    }
    var result := ExtractTika(backends.tika.value);
    var images: seq<string> := [];
    var tables: seq<string> := [];
    var imageFolder := ImageFolder(filePath);
    var tableFolder := TableFolder(filePath);
    if backends.folders.Raised? {
      return Crashed(FolderFault);
    }
    if ext == ".pdf" {
      if backends.pdfRegions.Raised? {
        return Crashed(PdfImageFault);
      }
      images := ExtractImagesPdf(backends.pdfRegions.value, imageFolder);
      tables := ExtractTables(backends.tables, tableFolder);
    } else if ext == ".docx" {
      if backends.docxTargetRefs.Raised? {
        return Crashed(DocxImageFault);
      }
      images := ExtractImagesDocx(backends.docxTargetRefs.value, imageFolder);
    }
    result := result.(images := images, tables := tables);
    outcome := Extracted(Summarize(result), result);
  }
}
