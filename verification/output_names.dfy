/**
 Names of the files the extractor writes, and the order in which it lists them:
 PDF image regions as `pdf_page{p}_img{n}.png` (page-major, both 1-based), DOCX
 images under the basename of their relationship target, tables as `table_{n}.csv`.
 */
module OutputNames {
  import opened PathText

  /** File name of the `n`-th image region (1-based) of page `page` (1-based). */
  function PdfImageName(page: nat, n: nat): (r: string)
  {
    "pdf_page" + Decimal(page) + "_img" + Decimal(n) + ".png"
  }

  /** File name of the `n`-th table (1-based). */
  function TableName(n: nat): (r: string)
  {
    "table_" + Decimal(n) + ".csv"
  }

  /** Total number of image regions over all pages. */
  function Sum(counts: seq<nat>): nat
  {
    if counts == [] then 0 else Sum(counts[..|counts| - 1]) + counts[|counts| - 1]
  }

  /** Position in the image list of region `i` (0-based) of page `p` (0-based). */
  function RegionIndex(counts: seq<nat>, p: nat, i: nat): nat
    requires p <= |counts|
  {
    Sum(counts[..p]) + i
  }

  /** The paths of the first `count` regions of page `page` (1-based), in detection order. */
  function PageImagePaths(folder: string, page: nat, count: nat): (r: seq<string>)
    ensures |r| == count
    ensures forall i :: 0 <= i < count ==> r[i] == Join(folder, PdfImageName(page, i + 1))
  {
    if count == 0 then []
    else PageImagePaths(folder, page, count - 1) + [Join(folder, PdfImageName(page, count))]
  }

  /** The paths extract_images_pdf lists for pages with the given region counts. */
  function PdfImagePaths(folder: string, counts: seq<nat>): (r: seq<string>)
    ensures |r| == Sum(counts)
  {
    if counts == [] then []
    else
      PdfImagePaths(folder, counts[..|counts| - 1])
        + PageImagePaths(folder, |counts|, counts[|counts| - 1])
  }

  /** The entry for region `i` of page `p` (both 0-based) sits at RegionIndex and is named for page p+1, region i+1. */
  lemma {:induction false} PdfImagePathAt(folder: string, counts: seq<nat>, p: nat, i: nat)
    requires p < |counts| && i < counts[p]
    ensures RegionIndex(counts, p, i) < |PdfImagePaths(folder, counts)|
    ensures PdfImagePaths(folder, counts)[RegionIndex(counts, p, i)] == Join(folder, PdfImageName(p + 1, i + 1))
  {
    var n := |counts|;
    var init := counts[..n - 1];
    var front := PdfImagePaths(folder, init);
    var page := PageImagePaths(folder, n, counts[n - 1]);
    assert PdfImagePaths(folder, counts) == front + page;
    if p == n - 1 {
      assert counts[..p] == init;
      assert (front + page)[|front| + i] == page[i];
    } else {
      assert counts[..p] == init[..p];
      PdfImagePathAt(folder, init, p, i);
      assert (front + page)[RegionIndex(init, p, i)] == front[RegionIndex(init, p, i)];
    }
  }

  /** Every entry of the PDF image list belongs to exactly one detected region: its page and region. */
  lemma {:induction false} PdfImagePathSource(folder: string, counts: seq<nat>, k: nat)
    returns (p: nat, i: nat)
    requires k < |PdfImagePaths(folder, counts)|
    ensures p < |counts| && i < counts[p] && k == RegionIndex(counts, p, i)
  {
    var n := |counts|;
    var init := counts[..n - 1];
    if k < Sum(init) {
      p, i := PdfImagePathSource(folder, init, k);
      assert counts[..p] == init[..p];
    } else {
      p, i := n - 1, k - Sum(init);
      assert counts[..p] == init;
    }
  }

  /** Prefix sums grow with the prefix. */
  lemma {:induction false} SumPrefixMonotone(counts: seq<nat>, p: nat, q: nat)
    requires p <= q <= |counts|
    ensures Sum(counts[..p]) <= Sum(counts[..q])
    decreases q - p
  {
    if p < q {
      SumPrefixMonotone(counts, p, q - 1);
      assert counts[..q][..q - 1] == counts[..q - 1];
    }
  }

  /** The list is page-major: an earlier page, or an earlier region on the same page, comes first. */
  lemma PdfImageOrder(counts: seq<nat>, p1: nat, i1: nat, p2: nat, i2: nat)
    requires p1 < |counts| && i1 < counts[p1]
    requires p2 < |counts| && i2 < counts[p2]
    requires p1 < p2 || (p1 == p2 && i1 < i2)
    ensures RegionIndex(counts, p1, i1) < RegionIndex(counts, p2, i2)
  {
    if p1 < p2 {
      assert counts[..p1 + 1][..p1] == counts[..p1];
      SumPrefixMonotone(counts, p1 + 1, p2);
    }
  }

  /** Different (page, region) pairs get different file names. */
  lemma PdfImageNameInjective(p1: nat, i1: nat, p2: nat, i2: nat)
    requires PdfImageName(p1, i1) == PdfImageName(p2, i2)
    ensures p1 == p2 && i1 == i2
  {
    var tail1 := Decimal(p1) + ("_img" + (Decimal(i1) + ".png"));
    var tail2 := Decimal(p2) + ("_img" + (Decimal(i2) + ".png"));
    assert PdfImageName(p1, i1) == "pdf_page" + tail1;
    assert PdfImageName(p2, i2) == "pdf_page" + tail2;
    assert tail1 == PdfImageName(p1, i1)[8..];
    assert tail2 == PdfImageName(p2, i2)[8..];
    DigitRunSplit(Decimal(p1), "_img" + (Decimal(i1) + ".png"), Decimal(p2), "_img" + (Decimal(i2) + ".png"));
    DecimalInjective(p1, p2);
    var rest1 := Decimal(i1) + ".png";
    var rest2 := Decimal(i2) + ".png";
    assert rest1 == ("_img" + rest1)[4..];
    assert rest2 == ("_img" + rest2)[4..];
    DigitRunSplit(Decimal(i1), ".png", Decimal(i2), ".png");
    DecimalInjective(i1, i2);
  }

  /** No two regions of a PDF are written to the same path. */
  lemma PdfImagePathsDistinct(folder: string, counts: seq<nat>, j: nat, k: nat)
    requires j < k < |PdfImagePaths(folder, counts)|
    ensures PdfImagePaths(folder, counts)[j] != PdfImagePaths(folder, counts)[k]
  {
    var p1, i1 := PdfImagePathSource(folder, counts, j);
    var p2, i2 := PdfImagePathSource(folder, counts, k);
    PdfImagePathAt(folder, counts, p1, i1);
    PdfImagePathAt(folder, counts, p2, i2);
    if PdfImagePaths(folder, counts)[j] == PdfImagePaths(folder, counts)[k] {
      JoinInjective(folder, PdfImageName(p1 + 1, i1 + 1), PdfImageName(p2 + 1, i2 + 1));
      PdfImageNameInjective(p1 + 1, i1 + 1, p2 + 1, i2 + 1);
    }
  }

  /** The relationship targets that name an image: those containing "image", in order. */
  function ImageRefs(targetRefs: seq<string>): (r: seq<string>)
    ensures |r| <= |targetRefs|
  {
    if targetRefs == [] then []
    else
      var last := targetRefs[|targetRefs| - 1];
      ImageRefs(targetRefs[..|targetRefs| - 1]) + (if Contains(last, "image") then [last] else [])
  }

  /** The filter keeps exactly the relationship targets that contain "image". */
  lemma {:induction false} ImageRefsMembers(targetRefs: seq<string>, x: string)
    ensures x in ImageRefs(targetRefs) <==> x in targetRefs && Contains(x, "image")
  {
    if targetRefs != [] {
      var init := targetRefs[..|targetRefs| - 1];
      ImageRefsMembers(init, x);
      assert targetRefs == init + [targetRefs[|targetRefs| - 1]];
    }
  }

  /** Filtering a concatenation filters each part and keeps their order. */
  lemma {:induction false} ImageRefsAppend(a: seq<string>, b: seq<string>)
    ensures ImageRefs(a + b) == ImageRefs(a) + ImageRefs(b)
  {
    if b == [] {
      assert a + b == a;
    } else {
      assert (a + b)[..|a + b| - 1] == a + b[..|b| - 1];
      assert (a + b)[|a + b| - 1] == b[|b| - 1];
      ImageRefsAppend(a, b[..|b| - 1]);
    }
  }

  /** The paths extract_images_docx lists, one per relationship, in iteration order. */
  function DocxImagePaths(folder: string, targetRefs: seq<string>): (r: seq<string>)
    ensures |r| == |ImageRefs(targetRefs)|
  {
    if targetRefs == [] then []
    else
      var last := targetRefs[|targetRefs| - 1];
      DocxImagePaths(folder, targetRefs[..|targetRefs| - 1])
        + (if Contains(last, "image") then [Join(folder, Basename(last))] else [])
  }

  /** The k-th path is the folder joined with the basename of the k-th image relationship. */
  lemma {:induction false} DocxImagePathAt(folder: string, targetRefs: seq<string>, k: nat)
    requires k < |ImageRefs(targetRefs)|
    ensures DocxImagePaths(folder, targetRefs)[k] == Join(folder, Basename(ImageRefs(targetRefs)[k]))
  {
    var init := targetRefs[..|targetRefs| - 1];
    if k < |ImageRefs(init)| {
      DocxImagePathAt(folder, init, k);
    }
  }

  /** Two image relationships with the same basename give two equal entries: nothing is de-duplicated. */
  lemma DocxKeepsDuplicates(folder: string, a: string, b: string)
    requires Contains(a, "image") && Contains(b, "image") && Basename(a) == Basename(b)
    ensures DocxImagePaths(folder, [a, b]) == [Join(folder, Basename(a)), Join(folder, Basename(a))]
  {
    DocxAppendImage(folder, [], a);
    DocxAppendImage(folder, [a], b);
    assert [] + [a] == [a] && [a] + [b] == [a, b];
    var path := Join(folder, Basename(a));
    assert DocxImagePaths(folder, [a]) == [path];
    assert DocxImagePaths(folder, [a, b]) == [path] + [path];
  }

  /** A further relationship naming an image appends one path, under its basename. */
  lemma DocxAppendImage(folder: string, targetRefs: seq<string>, ref: string)
    requires Contains(ref, "image")
    ensures DocxImagePaths(folder, targetRefs + [ref]) == DocxImagePaths(folder, targetRefs) + [Join(folder, Basename(ref))]
  {
    assert (targetRefs + [ref])[..|targetRefs|] == targetRefs;
  }

  /** The paths of the first `n` tables, in detection order. */
  function TablePaths(folder: string, n: nat): (r: seq<string>)
    ensures |r| == n
    ensures forall k :: 0 <= k < n ==> r[k] == Join(folder, TableName(k + 1))
  {
    if n == 0 then [] else TablePaths(folder, n - 1) + [Join(folder, TableName(n))]
  }

  /** Fewer tables written gives a prefix of the list for more. */
  lemma {:induction false} TablePathsPrefix(folder: string, m: nat, n: nat)
    requires m <= n
    ensures TablePaths(folder, m) == TablePaths(folder, n)[..m]
  {
    if m < n {
      TablePathsPrefix(folder, m, n - 1);
      assert TablePaths(folder, n)[..n - 1] == TablePaths(folder, n - 1);
    }
  }

  /** Different table numbers get different file names. */
  lemma TableNameInjective(m: nat, n: nat)
    requires TableName(m) == TableName(n)
    ensures m == n
  {
    var rest1 := Decimal(m) + ".csv";
    var rest2 := Decimal(n) + ".csv";
    assert TableName(m) == "table_" + rest1 && TableName(n) == "table_" + rest2;
    assert rest1 == TableName(m)[6..];
    assert rest2 == TableName(n)[6..];
    DigitRunSplit(Decimal(m), ".csv", Decimal(n), ".csv");
    DecimalInjective(m, n);
  }

  /** No two tables are written to the same path. */
  lemma TablePathsDistinct(folder: string, n: nat, j: nat, k: nat)
    requires j < k < n
    ensures TablePaths(folder, n)[j] != TablePaths(folder, n)[k]
  {
    if TablePaths(folder, n)[j] == TablePaths(folder, n)[k] {
      JoinInjective(folder, TableName(j + 1), TableName(k + 1));
      TableNameInjective(j + 1, k + 1);
    }
  }

  /** The count of exported tables is the index of the first failing export, or the number of tables. */
  lemma ExportedCountIsFirstFailure(exportOk: seq<bool>, i: nat)
    requires i <= |exportOk|
    requires forall k :: 0 <= k < i ==> exportOk[k]
    requires i == |exportOk| || !exportOk[i]
    ensures ExportedCount(exportOk) == i
  {
  }

  /** How many tables are exported before the first export that raises (all of them when none does). */
  function ExportedCount(exportOk: seq<bool>): (n: nat)
    ensures n <= |exportOk|
    ensures forall k :: 0 <= k < n ==> exportOk[k]
    ensures n < |exportOk| ==> !exportOk[n]
  {
    if exportOk == [] || !exportOk[0] then 0 else 1 + ExportedCount(exportOk[1..])
  }
}
