/** The page-level effect of each PDF tool: which pages of which input end
    up in the saved document, in which order, and with what rotation or
    watermark. pdf-lib itself is opaque here: a loaded document is just its
    sequence of pages, and a file whose bytes pdf-lib cannot load is
    `Unreadable` (the tool's `catch` arm then shows its error toast). */
module Pages {
  import opened Wrappers
  import opened JsText
  import Colour
  import Placement

  /** A text drawn on a page with `drawText`. */
  datatype Mark = Mark(
    text: string, x: real, y: real, size: real,
    colour: Colour.Rgb, rotation: int, opacity: real)

  /** A page: an identifier for its content, its size, the angle recorded in
      its `/Rotate` entry, and the texts drawn on it so far. */
  datatype Page = Page(content: nat, width: real, height: real, rotation: int, marks: seq<Mark>)

  /** What `PDFDocument.load` makes of a selected file. */
  datatype PdfFile = Readable(pages: seq<Page>) | Unreadable

  /** The error toasts a tool can end with. */
  datatype Failure =
    | NoFileSelected
    | TooFewFiles
    | InvalidPageNumber
    | PageExceedsTotal(total: nat)
    | NoWatermarkText
    | LoadFailed

  // ---------------------------------------------------------------- page numbers

  /** `parsed` names one of `total` pages, counted from 1. */
  predicate ValidPage(parsed: Option<int>, total: nat) {
    parsed.Some? && 1 <= parsed.value <= total
  }

  /** The `!pageNum || pageNum < 1` guard, run before the file is loaded:
      `NaN`, 0 and negative numbers are rejected. */
  function CheckPageNumber(parsed: Option<int>): (r: Result<nat, Failure>)
    ensures r.Success? <==> parsed.Some? && parsed.value >= 1
    ensures r.Success? ==> r.value == parsed.value
    ensures r.Failure? ==> r.error == InvalidPageNumber
  {
    match parsed
    case None => Failure(InvalidPageNumber)
    case Some(n) => if n == 0 || n < 1 then Failure(InvalidPageNumber) else Success(n)
  }

  /** The `pageNum > totalPages` guard, run once the page count is known,
      followed by the conversion to a 0-based index. */
  function PageIndex(pageNum: nat, total: nat): (r: Result<nat, Failure>)
    requires pageNum >= 1
    ensures r.Success? <==> pageNum <= total
    ensures r.Success? ==> r.value < total && r.value + 1 == pageNum
    ensures r.Failure? ==> r.error == PageExceedsTotal(total)
  {
    if pageNum > total then Failure(PageExceedsTotal(total)) else Success(pageNum - 1)
  }

  /** The two guards together accept exactly the page numbers 1..total and
      map each to an index in [0, total). */
  lemma PageGuardsAcceptExactlyValid(parsed: Option<int>, total: nat)
    ensures CheckPageNumber(parsed).Success? && PageIndex(CheckPageNumber(parsed).value, total).Success?
        <==> ValidPage(parsed, total)
    ensures ValidPage(parsed, total) ==>
        PageIndex(CheckPageNumber(parsed).value, total).value == parsed.value - 1
  {
  }

  // ---------------------------------------------------------------- split

  /** `splitPDF`: a new document holding only the requested page. */
  function SplitPdf(file: Option<PdfFile>, input: string): (r: Result<seq<Page>, Failure>)
    ensures file.None? ==> r == Failure(NoFileSelected)
    ensures file.Some? && !CheckPageNumber(ParseInt(input, Default)).Success? ==> r == Failure(InvalidPageNumber)
    ensures file == Some(Unreadable) && CheckPageNumber(ParseInt(input, Default)).Success? ==> r == Failure(LoadFailed)
    ensures file.Some? && file.value.Readable? && CheckPageNumber(ParseInt(input, Default)).Success?
      && !ValidPage(ParseInt(input, Default), |file.value.pages|)
      ==> r == Failure(PageExceedsTotal(|file.value.pages|))
    ensures r.Success? <==>
      file.Some? && file.value.Readable? && ValidPage(ParseInt(input, Default), |file.value.pages|)
    ensures r.Success? ==>
      var pages := file.value.pages;
      r.value == [pages[ParseInt(input, Default).value - 1]]
  {
    match file
    case None => Failure(NoFileSelected)
    case Some(f) =>
      match CheckPageNumber(ParseInt(input, Default))
      case Failure(e) => Failure(e)
      case Success(pageNum) =>
        match f
        case Unreadable => Failure(LoadFailed)
        case Readable(pages) =>
          match PageIndex(pageNum, |pages|)
          case Failure(e) => Failure(e)
          case Success(i) => Success([pages[i]])
  }

  // ---------------------------------------------------------------- delete

  /** `deletePage`: the document with the requested page removed and every
      other page kept in order. */
  function DeletePage(file: Option<PdfFile>, input: string): (r: Result<seq<Page>, Failure>)
    ensures file.None? ==> r == Failure(NoFileSelected)
    ensures file.Some? && !CheckPageNumber(ParseInt(input, Default)).Success? ==> r == Failure(InvalidPageNumber)
    ensures file == Some(Unreadable) && CheckPageNumber(ParseInt(input, Default)).Success? ==> r == Failure(LoadFailed)
    ensures file.Some? && file.value.Readable? && CheckPageNumber(ParseInt(input, Default)).Success?
      && !ValidPage(ParseInt(input, Default), |file.value.pages|)
      ==> r == Failure(PageExceedsTotal(|file.value.pages|))
    ensures r.Success? <==>
      file.Some? && file.value.Readable? && ValidPage(ParseInt(input, Default), |file.value.pages|)
    ensures r.Success? ==>
      var pages := file.value.pages;
      var i := ParseInt(input, Default).value - 1;
      |r.value| == |pages| - 1 && r.value == pages[..i] + pages[i + 1..]
  {
    match file
    case None => Failure(NoFileSelected)
    case Some(f) =>
      match CheckPageNumber(ParseInt(input, Default))
      case Failure(e) => Failure(e)
      case Success(pageNum) =>
        match f
        case Unreadable => Failure(LoadFailed)
        case Readable(pages) =>
          match PageIndex(pageNum, |pages|)
          case Failure(e) => Failure(e)
          case Success(i) => Success(pages[..i] + pages[i + 1..])
  }

  /** The page that split extracts is exactly the page that delete removes:
      putting it back where it was restores the original document. */
  lemma SplitDeleteReassemble(pages: seq<Page>, input: string)
    requires DeletePage(Some(Readable(pages)), input).Success?
    ensures SplitPdf(Some(Readable(pages)), input).Success?
    ensures var i := ParseInt(input, Default).value - 1;
      var kept := DeletePage(Some(Readable(pages)), input).value;
      var taken := SplitPdf(Some(Readable(pages)), input).value;
      kept[..i] + taken + kept[i..] == pages
  {
    var parsed := ParseInt(input, Default);
    assert ValidPage(parsed, |pages|);
    var i := parsed.value - 1;
    var kept := DeletePage(Some(Readable(pages)), input).value;
    assert kept == pages[..i] + pages[i + 1..];
    assert SplitPdf(Some(Readable(pages)), input).value == [pages[i]];
    assert kept[..i] == pages[..i];
    assert kept[i..] == pages[i + 1..];
    assert pages[..i] + [pages[i]] + pages[i + 1..] == pages;
  }

  /** Typing page `n` in decimal selects page `n` when it exists. */
  lemma DecimalPageNumber(pages: seq<Page>, n: nat)
    requires 1 <= n <= |pages|
    ensures SplitPdf(Some(Readable(pages)), DecimalString(n)) == Success([pages[n - 1]])
    ensures DeletePage(Some(Readable(pages)), DecimalString(n)) == Success(pages[..n - 1] + pages[n..])
  {
    DecimalStringRoundTrip(n);
  }

  // ---------------------------------------------------------------- merge

  predicate AllReadable(files: seq<PdfFile>) {
    forall k :: 0 <= k < |files| ==> files[k].Readable?
  }

  /** Every page of every file, file after file in selection order. */
  function Concat(files: seq<PdfFile>): seq<Page>
    requires AllReadable(files)
  {
    if |files| == 0 then [] else Concat(files[..|files| - 1]) + files[|files| - 1].pages
  }

  /** The number of pages in the first `k` files. */
  function Offset(files: seq<PdfFile>, k: nat): nat
    requires AllReadable(files) && k <= |files|
  {
    if k == 0 then 0 else Offset(files, k - 1) + |files[k - 1].pages|
  }

  /** The merged document holds as many pages as all the files together. */
  lemma {:induction false} ConcatLength(files: seq<PdfFile>)
    requires AllReadable(files)
    ensures |Concat(files)| == Offset(files, |files|)
  {
    if |files| > 0 {
      var init := files[..|files| - 1];
      ConcatLength(init);
      OffsetPrefixAt(files, init, |init|);
    }
  }

  /** Page `j` of file `k` sits at position `Offset(files, k) + j` of the
      merged document. */
  lemma {:induction false} ConcatAt(files: seq<PdfFile>, k: nat, j: nat)
    requires AllReadable(files) && k < |files| && j < |files[k].pages|
    ensures Offset(files, k) + j < |Concat(files)|
    ensures Concat(files)[Offset(files, k) + j] == files[k].pages[j]
  {
    var last := |files| - 1;
    var init := files[..last];
    ConcatLength(files);
    ConcatLength(init);
    PrefixOffsetBound(files, k, j);
    if k < last {
      assert files[k] == init[k];
      OffsetPrefixAt(files, init, k);
      PrefixOffsetBound(init, k, j);
      ConcatAt(init, k, j);
    } else {
      OffsetPrefixAt(files, init, |init|);
    }
  }

  /** A page of a file that is not the last one lies before the last
      file's offset. */
  lemma PrefixOffsetBound(files: seq<PdfFile>, k: nat, j: nat)
    requires AllReadable(files) && k < |files| && j < |files[k].pages|
    ensures Offset(files, k) + j < Offset(files, |files|)
  {
    OffsetMonotone(files, k + 1, |files|);
  }

  lemma {:induction false} OffsetMonotone(files: seq<PdfFile>, k: nat, m: nat)
    requires AllReadable(files) && k <= m <= |files|
    ensures Offset(files, k) <= Offset(files, m)
  {
    if k < m {
      OffsetMonotone(files, k, m - 1);
    }
  }

  /** Offsets into a prefix of the selection are offsets into the whole. */
  lemma {:induction false} OffsetPrefixAt(files: seq<PdfFile>, init: seq<PdfFile>, k: nat)
    requires AllReadable(files) && |files| > 0 && init == files[..|files| - 1]
    requires k <= |init|
    ensures AllReadable(init) && Offset(init, k) == Offset(files, k)
  {
    if k > 0 {
      OffsetPrefixAt(files, init, k - 1);
    }
  }

  /** Merging a selection is merging its two halves and joining the results. */
  lemma {:induction false} ConcatAppend(a: seq<PdfFile>, b: seq<PdfFile>)
    requires AllReadable(a) && AllReadable(b)
    ensures AllReadable(a + b)
    ensures Concat(a + b) == Concat(a) + Concat(b)
  {
    if |b| == 0 {
      assert a + b == a;
    } else {
      var b' := b[..|b| - 1];
      assert (a + b)[..|a + b| - 1] == a + b';
      ConcatAppend(a, b');
    }
  }

  /** `mergePDFs`: at least two files are needed; the pages of each are
      copied, in selection order, into a fresh document. */
  method MergePdfs(files: seq<PdfFile>) returns (r: Result<seq<Page>, Failure>)
    ensures |files| < 2 ==> r == Failure(TooFewFiles)
    ensures |files| >= 2 && !AllReadable(files) ==> r == Failure(LoadFailed)
    ensures |files| >= 2 && AllReadable(files) ==> r == Success(Concat(files))
  {
    if |files| < 2 {
      return Failure(TooFewFiles);
    }
    var merged: seq<Page> := [];
    var i := 0;
    while i < |files|
      invariant 0 <= i <= |files|
      invariant AllReadable(files[..i])
      invariant merged == Concat(files[..i])
    {
      match files[i]
      case Unreadable =>
        return Failure(LoadFailed);
      case Readable(pages) =>
        assert files[..i + 1][..i] == files[..i];
        merged := merged + pages;
      i := i + 1;
    }
    assert files[..i] == files;
    return Success(merged);
  }

  // ---------------------------------------------------------------- rotate

  /** Every page's recorded angle advanced by `degree`, nothing else touched. */
  function RotatePages(pages: seq<Page>, degree: int): (rotated: seq<Page>)
    ensures |rotated| == |pages|
    ensures forall i :: 0 <= i < |pages| ==>
      rotated[i].rotation - pages[i].rotation == degree
      && rotated[i].(rotation := pages[i].rotation) == pages[i]
  {
    seq(|pages|, i requires 0 <= i < |pages| => pages[i].(rotation := pages[i].rotation + degree))
  }

  /** `rotatePDF`: the summed angle is written back as is; whether pdf-lib
      reduces it modulo 360 is outside this model. */
  function RotatePdf(file: Option<PdfFile>, degree: int): (r: Result<seq<Page>, Failure>)
    ensures file.None? ==> r == Failure(NoFileSelected)
    ensures file == Some(Unreadable) ==> r == Failure(LoadFailed)
    ensures r.Success? <==> file.Some? && file.value.Readable?
    ensures r.Success? ==> |r.value| == |file.value.pages|
    ensures r.Success? ==> r.value == RotatePages(file.value.pages, degree)
    ensures r.Success? ==> forall i :: 0 <= i < |r.value| ==>
      r.value[i] == file.value.pages[i].(rotation := file.value.pages[i].rotation + degree)
  {
    match file
    case None => Failure(NoFileSelected)
    case Some(Unreadable) => Failure(LoadFailed)
    case Some(Readable(pages)) => Success(RotatePages(pages, degree))
  }

  /** Rotating by `a` and then by `b` is rotating by `a + b`. */
  lemma RotateCompose(pages: seq<Page>, a: int, b: int)
    ensures RotatePages(RotatePages(pages, a), b) == RotatePages(pages, a + b)
  {
  }

  /** Rotating back by the opposite angle restores the document. */
  lemma RotateInverse(pages: seq<Page>, degree: int)
    ensures RotatePages(RotatePages(pages, degree), -degree) == pages
  {
    RotateCompose(pages, degree, -degree);
  }

  // ---------------------------------------------------------------- watermark

  /** The text `addWatermark` draws on `page`: at the origin placed for that
      page's own size, with the chosen size, colour, angle and opacity. */
  function WatermarkMark(page: Page, text: string, colorHex: string, size: real,
                         rotation: int, opacity: real, position: string): Mark
  {
    var o := Placement.Place(page.width, page.height, |text|, size, Placement.ParsePosition(position));
    Mark(text, o.x, o.y, size, Colour.ToRgb(colorHex), rotation, opacity)
  }

  /** `addWatermark`: the trimmed text is drawn once on every page, placed
      for that page's own size; nothing else about the pages changes. */
  function AddWatermark(file: Option<PdfFile>, text: string, colorHex: string, size: real,
                        rotation: int, opacity: real, position: string): (r: Result<seq<Page>, Failure>)
    ensures file.None? ==> r == Failure(NoFileSelected)
    ensures file.Some? && AllWhiteSpace(text) ==> r == Failure(NoWatermarkText)
    ensures file == Some(Unreadable) && !AllWhiteSpace(text) ==> r == Failure(LoadFailed)
    ensures r.Success? <==> file.Some? && file.value.Readable? && !AllWhiteSpace(text)
    ensures r.Success? ==>
      var pages := file.value.pages;
      |r.value| == |pages|
      && forall i :: 0 <= i < |pages| ==>
        r.value[i].(marks := pages[i].marks) == pages[i]
        && r.value[i].marks == pages[i].marks
           + [WatermarkMark(pages[i], Trim(text), colorHex, size, rotation, opacity, position)]
  {
    TrimEmptyIff(text);
    match file
    case None => Failure(NoFileSelected)
    case Some(f) =>
      var t := Trim(text);
      if t == [] then Failure(NoWatermarkText)
      else
        match f
        case Unreadable => Failure(LoadFailed)
        case Readable(pages) =>
          Success(seq(|pages|, i requires 0 <= i < |pages| =>
            pages[i].(marks := pages[i].marks
              + [WatermarkMark(pages[i], t, colorHex, size, rotation, opacity, position)])))
  }

  /** The drawn text is never empty and never starts or ends with
      whitespace. */
  lemma WatermarkTextTrimmed(file: Option<PdfFile>, text: string, colorHex: string, size: real,
                             rotation: int, opacity: real, position: string, i: nat)
    requires AddWatermark(file, text, colorHex, size, rotation, opacity, position).Success?
    requires i < |file.value.pages|
    ensures var pages := AddWatermark(file, text, colorHex, size, rotation, opacity, position).value;
      var m := pages[i].marks[|pages[i].marks| - 1];
      |m.text| > 0 && !IsWhiteSpace(m.text[0]) && !IsWhiteSpace(m.text[|m.text| - 1])
  {
    TrimEmptyIff(text);
  }

  /** When the trimmed text at the chosen size, with a margin on each side,
      fits across and up a page, the watermark drawn on that page lies
      within it, whatever the position. */
  lemma WatermarkOnPage(file: Option<PdfFile>, text: string, colorHex: string, size: real,
                        rotation: int, opacity: real, position: string, i: nat)
    requires AddWatermark(file, text, colorHex, size, rotation, opacity, position).Success?
    requires i < |file.value.pages|
    requires size >= 0.0
    requires Placement.TextWidth(|Trim(text)|, size) + 2.0 * Placement.Margin <= file.value.pages[i].width
    requires size + 2.0 * Placement.Margin <= file.value.pages[i].height
    ensures var page := AddWatermark(file, text, colorHex, size, rotation, opacity, position).value[i];
      var m := page.marks[|page.marks| - 1];
      0.0 <= m.x && m.x + Placement.TextWidth(|m.text|, m.size) <= page.width
      && 0.0 <= m.y && m.y + m.size <= page.height
  {
    var page := file.value.pages[i];
    Placement.FootprintOnPage(page.width, page.height, |Trim(text)|, size, Placement.ParsePosition(position));
  }
}
