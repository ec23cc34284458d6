/**
 What the extractor receives from the document-parsing libraries it calls. Each
 library is replaced by the value it hands back, or by the fact that it raised.
 */
module Backends {

  /** Python's optional value: `None` or a value. */
  datatype Option<T> = None | Some(value: T)

  /** A key looked up with `dict.get`: absent, present holding `None`, or present with a value. */
  datatype Field<T> = Missing | Null | Present(value: T)

  /** One call into a library: it returned a value, or it raised an exception. */
  datatype Call<T> = Returned(value: T) | Raised

  /** Document metadata as the text backend reports it. */
  type Metadata = map<string, string>

  /** The response of the text/metadata backend (Apache Tika): its `content` and `metadata` keys. */
  datatype TikaResponse = TikaResponse(content: Field<string>, metadata: Field<Metadata>)

  /**
   The backends' answers for one document.
   - tika: the text/metadata backend's response.
   - folders: the two `os.makedirs` calls creating the image and table folders: both
     return, or one raises (a path component that is a file, a permission error).
   - pdfRegions: for a PDF, the number of image regions pdfplumber detects on each page, in page order.
   - docxTargetRefs: for a DOCX, the `target_ref` of each relationship of the main document part, in iteration order.
   - tables: Camelot's `read_pdf` raising, or, per detected table in detection order, whether its export with `to_csv` succeeds.
   */
  datatype Backends = Backends(
    tika: Call<TikaResponse>,
    folders: Call<()>,
    pdfRegions: Call<seq<nat>>,
    docxTargetRefs: Call<seq<string>>,
    tables: Call<seq<bool>>)
}
