# DOC-Extractor, modelled in Dafny

DOC-Extractor takes one document path and produces three records:
- an `ExtractionResult`: text, metadata, a fixed output-format descriptor, and the lists of image and table files written;
- a `Summary`: whether text and metadata were extracted, plus a 0-or-100 "percent extracted" score;
- a `Metrics` record.

For the text and metadata it calls a text/metadata backend (Apache Tika). It then dispatches on the file's extension, lower-cased:
- `.pdf`: image regions are cropped per page and tables are exported. The table step sits inside a try/except.
- `.docx`: every package relationship whose target contains `image` is stored under the target's basename.
- any other extension: no images and no tables.

This project models that orchestration in `extractor.py`:
- `extract_tika`, `extract_images_pdf`, `extract_images_docx`, `summarize_extraction`, `extract_document` and `get_metrics`;
- the parts of `os.path` and `str` they rely on.

The backends are not modelled. Each backend call is replaced by the value it hands back, or by the fact that it raised (`Backends.Call`):
- the Tika response: its `content` and `metadata` keys, each missing, holding `None`, or holding a value;
- whether creating the two output folders with `os.makedirs` raises;
- the number of image regions pdfplumber finds on each page;
- the `target_ref` of each DOCX relationship, in iteration order;
- for Camelot: whether `read_pdf` raises, and, for each detected table, whether its `to_csv` succeeds.

Files:
- `path_text.dfy` (module `PathText`): the string and path helpers, with POSIX `os.path` semantics:
  - `str.rfind` and substring `in`;
  - `posixpath.basename`, `splitext` and `join`;
  - ASCII `str.lower`;
  - decimal rendering of integers, as `f'{n}'` does it.
- `backends.dfy` (module `Backends`): what the backends return.
- `output_names.dfy` (module `OutputNames`): specification functions for the three path lists (names and order), and the lemmas about them.
- `extractor.dfy` (module `Extractor`):
  - the records;
  - the pure steps (`ExtractTika`, `Summarize`, `GetMetrics`);
  - `Document`, the specification of `extract_document` as a function;
  - the loops as methods proved equal to those specification functions (`ExtractImagesPdf`, `ExtractImagesDocx`, `ExtractTables`, `ExtractDocument`).
- `extractor_properties.dfy` (module `ExtractorProperties`): properties of `extract_document` over all paths and all backend answers, and two worked scenarios.

Two behaviours of the code are easy to misread:
- A failing table step does not always give an empty list. When `read_pdf` raises, there are no tables. When an export raises, the paths appended before it stay in the list (`ExtractTables`, `PdfTablesArePrefix`).
- `content` defaults to `""` only when the key is missing. A key holding `None` gives `text == None` (`ExtractTika`), which counts as no text.

## Model

| member | source | states |
|---|---|---|
| Extractor.ExtractTika | extractor.py:10-17 | text is "" when `content` is absent, `None` when it holds None, the string otherwise; the same for metadata with the empty map; the output format is the fixed `{text: str, metadata: dict}` descriptor |
| Extractor.Summarize | extractor.py:44-51 | text counts as extracted iff it is a non-empty string; metadata iff it is a non-empty map; the score is 0 or 100, and 100 exactly when text was extracted; the format is copied |
| Extractor.GetMetrics | extractor.py:83-96 | file and time are those given; the text/images/tables flags hold iff the text/image list/table list is non-empty; both percentages and the format repeat the summary's |
| Extractor.ExtractImagesPdf | extractor.py:19-29 | the nested loop builds exactly `PdfImagePaths(folder, counts)` |
| Extractor.ExtractImagesDocx | extractor.py:31-42 | the loop builds exactly `DocxImagePaths(folder, targetRefs)` |
| Extractor.ExtractTables | extractor.py:67-75 | the guarded loop yields the paths of the tables exported before the first failure, or none when detection raises; it never raises |
| Extractor.ExtractDocument | extractor.py:54-81 | the procedure returns what `Document` specifies: the failure of the text backend, of the folder creation or of the dispatched image backend, or the assembled result with its summary |
| Extractor.Document | extractor.py:54-81 | a finished run had the text backend answer; its result is that backend's record with only the image and table lists replaced, and its summary is the summary of that result |
| Extractor.Extension | extractor.py:55 | the compared extension is as long as splitext's extension and is empty or starts with '.'; `PdfExtensionAnyCase` and `DocxExtensionAnyCase` state which extensions select each branch |
| Extractor.InputBase | extractor.py:60 | the root of splitext applied to the basename; `InputBaseSlashFree` shows it has no '/' |
| Extractor.InputBaseSlashFree | extractor.py:60 | the input base name has no '/' |
| Extractor.ImageFolder | extractor.py:61 | `FolderShape` shows it is extracted/<base>_images |
| Extractor.TableFolder | extractor.py:62 | `FolderShape` shows it is extracted/<base>_tables |
| Extractor.FolderShape | extractor.py:60-62 | the folders are extracted/<base>_images and extracted/<base>_tables, for any path |
| Extractor.FolderJoin | extractor.py:61-62 | joining a '/'-free name with a suffix onto "extracted" inserts one '/' |
| Extractor.TablesWritten | extractor.py:68-75 | no table is kept when detection raises; otherwise the count stops at the first failing export, and every export before it succeeded |
| OutputNames.PdfImageName | extractor.py:26 | the file name of a region; `PdfImageNameInjective` shows that different (page, region) pairs get different names |
| OutputNames.TableName | extractor.py:71 | the file name of a table; `TableNameInjective` shows that different numbers get different names |
| OutputNames.PageImagePaths | extractor.py:23-28 | page `p`'s i-th path is the folder joined with `pdf_page{p}_img{i+1}.png` |
| OutputNames.PdfImagePaths | extractor.py:22-28 | there are as many PDF image paths as image regions over all pages |
| OutputNames.PdfImagePathAt | extractor.py:22-28 | region i of page p (0-based) sits at position Sum(counts[..p]) + i and is named `pdf_page{p+1}_img{i+1}.png` |
| OutputNames.PdfImagePathSource | extractor.py:22-28 | every position of the list belongs to one detected region |
| OutputNames.SumPrefixMonotone | extractor.py:22-23 | counting regions over more pages never gives fewer |
| OutputNames.PdfImageOrder | extractor.py:22-23 | the list is page-major, regions in detection order within a page |
| OutputNames.PdfImageNameInjective | extractor.py:26 | different (page, region) pairs give different file names |
| OutputNames.PdfImagePathsDistinct | extractor.py:26-28 | no two regions are written to the same path |
| OutputNames.ImageRefs | extractor.py:34-35 | the filtered relationships are no more than all of them |
| OutputNames.ImageRefsMembers | extractor.py:34-35 | a target is kept iff it is a relationship target containing "image" |
| OutputNames.ImageRefsAppend | extractor.py:34-35 | filtering keeps order: filtering a concatenation concatenates the filtered parts |
| OutputNames.DocxImagePaths | extractor.py:34-41 | one DOCX image path per relationship naming an image |
| OutputNames.DocxImagePathAt | extractor.py:37-41 | the k-th path is the folder joined with the basename of the k-th image relationship |
| OutputNames.DocxAppendImage | extractor.py:35-41 | a further image relationship appends exactly one path, under its basename |
| OutputNames.DocxKeepsDuplicates | extractor.py:37-41 | two image relationships with the same basename give two equal entries: nothing is de-duplicated |
| OutputNames.TablePaths | extractor.py:70-73 | the k-th table path is the folder joined with `table_{k+1}.csv` |
| OutputNames.TablePathsPrefix | extractor.py:70-73 | writing fewer tables yields a prefix of the list for more |
| OutputNames.TableNameInjective | extractor.py:71 | different table numbers give different names |
| OutputNames.TablePathsDistinct | extractor.py:71-73 | no two tables are written to the same path |
| OutputNames.ExportedCount | extractor.py:70-75 | the number of tables exported is the index of the first failing export (or all of them): every earlier export succeeded |
| OutputNames.ExportedCountIsFirstFailure | extractor.py:70-75 | any index with only successes before it and a failure (or the end) at it is that count |
| PathText.LastIndex | extractor.py:37 | the index of the last occurrence of the character, or -1; nothing after it matches |
| PathText.LastIndexIs | extractor.py:37 | an index holding the character with no later occurrence is the last index (-1 when there is none) |
| PathText.Contains | extractor.py:35 | the substring test can hold only when the substring is no longer than the string; `ContainsIffOccurs` gives the full meaning |
| PathText.ContainsIffOccurs | extractor.py:35 | the substring test holds iff the substring occurs at some offset |
| PathText.Basename | extractor.py:37 | the basename has no '/', is a suffix of the path, and is preceded by '/' when shorter than the path |
| PathText.BasenameAfterSlash | extractor.py:37 | the basename of dir/name is name |
| PathText.ExtensionStart | extractor.py:55 | the cut is -1 or a '.' with no '.' or '/' after it |
| PathText.SplitExt | extractor.py:55 | root + extension is the path; the extension is empty or a single leading '.' with no '/' |
| PathText.SplitExtAtLastDot | extractor.py:55 | a last path component made of a stem that is not all dots, then '.' and a dotless tail, is cut at that last '.' |
| PathText.ExtensionAfterStem | extractor.py:55 | the cut falls at the last '.' of the last component when something other than dots precedes it there |
| PathText.SplitExtNoExtension | extractor.py:55 | a last component made of leading dots and a dotless tail has no extension |
| PathText.NoExtensionAfterDots | extractor.py:55 | the no-extension case stated on indices: only dots before the last '.' of the last component |
| PathText.ExtensionTail | extractor.py:55 | cutting at a final '.' with nothing but name characters after it gives such an extension |
| PathText.SplitPlainName | extractor.py:55-60 | a plain name base.ext is its own basename and splits into base and .ext |
| PathText.SplitExtRootKeepsSlashFree | extractor.py:60 | the root of a '/'-free path is '/'-free |
| PathText.Join | extractor.py:61-62 | `posixpath.join` of two parts; `JoinRelative`, `JoinInjective` and `JoinedInside` state its properties |
| PathText.JoinRelative | extractor.py:61-62 | joining a relative name to a folder not ending in '/' inserts one '/' |
| PathText.JoinInjective | extractor.py:26 | joining to one folder keeps different relative names different |
| PathText.LowerChar | extractor.py:55 | the result is never a capital; a capital A to Z moves to its small letter, 32 code points on; any other character is kept |
| PathText.LowerAscii | extractor.py:55 | lower-casing keeps the length; `LowersTo` states it character by character |
| PathText.DigitChar | extractor.py:26 | the character of a digit d is the digit d |
| PathText.Decimal | extractor.py:26 | the rendering is a non-empty run of digits without a leading zero |
| PathText.DecimalRoundTrip | extractor.py:26 | reading the rendering back gives the number |
| PathText.DecimalInjective | extractor.py:26 | different numbers render differently |
| PathText.DigitRunLength | extractor.py:26 | the leading digit run of digits followed by a non-digit is exactly those digits |
| PathText.DigitRunSplit | extractor.py:26 | digits followed by a non-digit split unambiguously |
| ExtractorProperties.DocumentFailsOnlyOutsideTables | extractor.py:54-81 | a run finishes iff the text backend answers, both folders are created, and the image backend of the dispatched format answers; the table backend never decides it |
| ExtractorProperties.TableOutcomeChangesOnlyTables | extractor.py:68-75 | changing only the table backend changes nothing but the table list |
| ExtractorProperties.PdfDocument | extractor.py:65-75 | a finished PDF run had its regions detected; its images are the region paths and its tables the paths of the tables written |
| ExtractorProperties.DocxDocument | extractor.py:76-79 | a finished DOCX run had its relationships read; its images are the DOCX image paths and it has no tables |
| ExtractorProperties.DetectionFailureGivesNoTables | extractor.py:68-75 | when detection raises, the table list is empty |
| ExtractorProperties.PdfTablesArePrefix | extractor.py:68-75 | a PDF's table list is a prefix of table_1..table_n; all of them iff every export succeeds; every table in it was exported, and when it is shorter the next export is the one that failed |
| ExtractorProperties.OnlyPdfHasTables | extractor.py:58-79 | a non-PDF gets an empty table list |
| ExtractorProperties.OtherFormatsHaveNoImagesOrTables | extractor.py:57-79 | a file neither PDF nor DOCX gets no images and no tables |
| ExtractorProperties.PdfExtensionAnyCase | extractor.py:55-65 | the PDF steps run iff the extension is ".pdf" in any mix of cases |
| ExtractorProperties.DocxExtensionAnyCase | extractor.py:55-77 | the DOCX step runs iff the extension is ".docx" in any mix of cases |
| ExtractorProperties.LowerCharTo | extractor.py:55 | a character lower-cases to a non-upper-case target iff it is the target or its upper-case form |
| ExtractorProperties.LowersTo | extractor.py:55 | a string lower-cases to such a target iff it does so character by character |
| ExtractorProperties.JoinedInside | extractor.py:38 | a relative name joined to a folder lies directly inside it |
| ExtractorProperties.OutputsInsideFolders | extractor.py:19-75 | every image path lies in the image folder and every table path in the table folder, whatever the backends report |
| ExtractorProperties.DocumentSummary | extractor.py:56-80 | the summary of a finished run depends on the text backend alone, as spelled out for content and metadata |
| ExtractorProperties.MetricsMirrorSummary | extractor.py:87-92 | the metrics' text flag is the summary's, and both percentages are its 0-or-100 score |
| ExtractorProperties.PlainPath | extractor.py:55-62 | for base.ext, the extension and both folders are as expected |
| ExtractorProperties.FirstNames | extractor.py:26 | the first names render as pdf_page1_img1.png, pdf_page1_img2.png and table_1.csv |
| ExtractorProperties.OnePageTwoRegions | extractor.py:22-28 | one page with two regions gives its first and second image, in that order |
| ExtractorProperties.OneTable | extractor.py:70-73 | one exported table gives the first table path |
| ExtractorProperties.PdfScenario | extractor.py:54-81 | base.pdf with text "Hello", two regions on one page and one exported table: those exact two image paths and one table path, with text extracted at 100 |
| ExtractorProperties.DocxScenario | extractor.py:54-81 | base.docx with no text and one relationship dir/name naming an image: one image extracted/base_images/name, no tables, nothing extracted, score 0 |

## Left out

- The backends' own work is not modelled: Tika parsing, pdfplumber cropping and PNG rendering, python-docx package reading, and Camelot detection and CSV writing. Each is represented only by what it returns or by its raising.
- File-system effects are not modelled: creating the two folders, writing the image and table files, and overwriting a file that has the same name. Only the outcome of `os.makedirs` is kept: either both calls return, or one raises and the run ends (`Backends.folders`, `FolderFault`). A DOCX relationship whose file cannot be written surfaces as that backend raising.
- The clock is not modelled: `get_metrics` reads `datetime.now()`, and the model takes the ISO time string as the parameter `now`.
- Console output and the JSON output file are not modelled: the `print` in the table step's handler, the `__main__` block's argument check, its printing, and writing `extracted/<base>.json`.
- The fixed `method_used`, `permission_needed` and `notes` strings are kept as constants, with no property stated about them.
- Extractor.Extension: lower-casing covers the ASCII letters A to Z only; Python's `str.lower` also folds non-ASCII letters, which the model leaves unchanged.
- PathText.ExtensionStart: its own contract gives only the shape of the cut (-1, or a '.' with no '.' or '/' after it). Where the cut falls is stated by `SplitExtAtLastDot` and `SplitExtNoExtension`, which between them cover every last path component.
- PathText.SplitExt: its own contract gives the shape of the split; the cut itself is stated by `SplitExtAtLastDot` and `SplitExtNoExtension`.
- PathText.LowerAscii: its own contract keeps only the length, so that the many proofs that unfold `Extension` stay small; the character-by-character meaning is `LowerChar`'s contract and the `LowersTo` lemma.
- Paths follow POSIX `os.path` semantics only; Windows separators and drive letters are not modelled.
- Extractor.ExtractTika: the dictionary `extract_tika` returns has no `images` or `tables` keys; the model's record carries empty lists there, which `extract_document` always overwrites.
- Backend exceptions other than a raise (non-termination, partial output) are not modelled.
