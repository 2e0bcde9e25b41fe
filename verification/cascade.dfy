/** `extract_pdf_text_advanced`: the full text of a PDF, tried with four
    libraries in a fixed order. PyMuPDF, pdfplumber and pypdf each join their
    page texts with '\n' and are accepted when the stripped result has at
    least 50 characters; OCR over the first five pages comes last, accepted at
    20 characters; failing everything gives a fixed message.

    The libraries themselves are not modelled: what each one returns (or the
    exception it raises) is passed in as a `Sources` value. */
module Cascade {
  import opened Wrappers
  import opened Text
  import opened Numerals
  import Pagination

  const MinReaderText := 50
  const MinOcrText := 20
  const OcrPageLimit := 5

  const OcrMissingMessage := "OCR kutubxonalari o'rnatilmagan (pytesseract, pdf2image kerak)"
  const OcrErrorPrefix := "OCR xatosi: "
  const NoTextMessage := "PDF faylidan matn oqib bolmadi. Fayl shikastlangan yoki matn yoq bolishi mumkin."

  /** The OCR stage: either its imports fail, or it yields each rendered page's
      recognised text (or raises while doing so). */
  datatype Ocr = NotInstalled | Scanned(pages: Read<seq<string>>)

  /** What each library gives for the file.
      `fitz`: PyMuPDF's `page.get_text()` per page (always a string);
      `plumber`: pdfplumber's `page.extract_text()` per page (may be None);
      `pypdf`: pypdf's `page.extract_text()` per page (may be None). */
  datatype Sources = Sources(
    fitz: Read<seq<string>>,
    plumber: Read<seq<Option<string>>>,
    pypdf: Read<seq<Option<string>>>,
    ocr: Ocr)

  /** PyMuPDF: the page texts joined with '\n'. */
  function FitzText(src: Sources): Read<string> {
    match src.fitz
    case Raised(m) => Raised(m)
    case Returned(ts) => Returned(Join(ts, "\n"))
  }

  /** pdfplumber: `page.extract_text() or ""`, joined with '\n'. */
  function PlumberText(src: Sources): Read<string> {
    match src.plumber
    case Raised(m) => Raised(m)
    case Returned(ts) =>
      Returned(Join(seq(|ts|, i requires 0 <= i < |ts| => Pagination.TextOrEmpty(ts[i])), "\n"))
  }

  /** pypdf: the page texts joined with '\n'; a page without text (None) makes
      the join raise a TypeError. */
  function PypdfText(src: Sources): (r: Read<string>)
    ensures src.pypdf.Returned? && (exists i :: 0 <= i < |src.pypdf.value| && src.pypdf.value[i].None?)
      ==> r.Raised?
  {
    match src.pypdf
    case Raised(m) => Raised(m)
    case Returned(ts) =>
      if exists i :: 0 <= i < |ts| && ts[i].None? then Raised("sequence item: expected str instance, NoneType found")
      else Returned(Join(seq(|ts|, i requires 0 <= i < |ts| => ts[i].value), "\n"))
  }

  /** A reader's text is used when it did not raise and has at least 50
      characters once stripped; it is then returned stripped. */
  function Accept(t: Read<string>): (r: Option<string>)
    ensures r.Some? <==> t.Returned? && |Strip(t.value)| >= MinReaderText
    ensures r.Some? ==> |r.value| >= MinReaderText && Strip(r.value) == r.value
  {
    match t
    case Raised(_) => None
    case Returned(s) =>
      StripIdempotent(s);
      if |Strip(s)| >= MinReaderText then Some(Strip(s)) else None
  }

  /** The three text readers, in the order they are tried. */
  function Readers(src: Sources): (rs: seq<Read<string>>)
    ensures |rs| == 3
  {
    [FitzText(src), PlumberText(src), PypdfText(src)]
  }

  /** The first reader whose text is accepted. */
  function FirstAccepted(rs: seq<Read<string>>): Option<string> {
    if |rs| == 0 then None
    else if Accept(rs[0]).Some? then Accept(rs[0])
    else FirstAccepted(rs[1..])
  }

  /** Reader `k` wins: it is accepted and every reader before it is not. */
  predicate Wins(rs: seq<Read<string>>, k: int) {
    0 <= k < |rs| && Accept(rs[k]).Some? && forall j :: 0 <= j < k ==> Accept(rs[j]).None?
  }

  /** Some reader is accepted exactly when one reader wins. */
  lemma {:induction false} FirstAcceptedSome(rs: seq<Read<string>>)
    ensures FirstAccepted(rs).Some? <==> exists k :: Wins(rs, k)
  {
    if |rs| > 0 {
      FirstAcceptedSome(rs[1..]);
      if Accept(rs[0]).Some? {
        assert Wins(rs, 0);
      } else if FirstAccepted(rs[1..]).Some? {
        var k :| Wins(rs[1..], k);
        WinsShift(rs, k);
      } else {
        forall k | Wins(rs, k) ensures false {
          WinsUnshift(rs, k);
        }
      }
    }
  }

  lemma WinsShift(rs: seq<Read<string>>, k: int)
    requires |rs| > 0 && Accept(rs[0]).None? && Wins(rs[1..], k)
    ensures Wins(rs, k + 1)
  {
    forall j | 0 < j < k + 1 ensures Accept(rs[j]).None? {
      assert rs[j] == rs[1..][j - 1];
    }
  }

  lemma WinsUnshift(rs: seq<Read<string>>, k: int)
    requires |rs| > 0 && Accept(rs[0]).None? && Wins(rs, k)
    ensures k > 0 && Wins(rs[1..], k - 1)
  {
  }

  /** The text of the first accepted reader is the text of the reader that
      wins. */
  lemma {:induction false} FirstAcceptedWins(rs: seq<Read<string>>, k: int)
    requires Wins(rs, k)
    ensures FirstAccepted(rs) == Accept(rs[k])
  {
    if Accept(rs[0]).None? {
      WinsUnshift(rs, k);
      FirstAcceptedWins(rs[1..], k - 1);
    }
  }

  /** The block the OCR loop appends for page number `n` (1-based). */
  function OcrBlock(n: nat, t: string): string {
    "\n--- Sahifa " + NatToString(n) + " ---\n" + t + "\n"
  }

  /** The blocks of the OCR'd pages, numbered from 1. */
  function OcrBlocks(ts: seq<string>): (bs: seq<string>)
    ensures |bs| == |ts| && forall i :: 0 <= i < |ts| ==> bs[i] == OcrBlock(i + 1, ts[i])
  {
    seq(|ts|, i requires 0 <= i < |ts| => OcrBlock(i + 1, ts[i]))
  }

  /** The rendered pages: the first five only. */
  function OcrPages(ts: seq<string>): (r: seq<string>)
    ensures |r| <= OcrPageLimit && |r| <= |ts| && r == ts[..|r|]
    ensures |ts| >= OcrPageLimit ==> |r| == OcrPageLimit
    ensures |ts| <= OcrPageLimit ==> r == ts
  {
    if |ts| <= OcrPageLimit then ts else ts[..OcrPageLimit]
  }

  /** The OCR loop as written: `ocr_text += f"..."` once per rendered page.
      It accumulates the page blocks in page order. */
  method AccumulateOcr(ts: seq<string>) returns (ocr: string)
    ensures ocr == Concat(OcrBlocks(ts))
  {
    ocr := "";
    var i := 0;
    while i < |ts|
      invariant 0 <= i <= |ts|
      invariant ocr == Concat(OcrBlocks(ts)[..i])
    {
      var bs := OcrBlocks(ts);
      ConcatAppend(bs[..i], [bs[i]]);
      assert bs[..i + 1] == bs[..i] + [bs[i]];
      ocr := ocr + OcrBlock(i + 1, ts[i]);
      i := i + 1;
    }
    assert OcrBlocks(ts)[..i] == OcrBlocks(ts);
  }

  /** The OCR stage's verdict: `Some(text)` returns `text` from the function,
      `None` falls through to the final message. */
  function OcrStage(o: Ocr): (r: Option<string>)
    ensures o.NotInstalled? ==> r == Some(OcrMissingMessage)
    ensures o.Scanned? && o.pages.Raised? ==> r == Some(OcrErrorPrefix + o.pages.message)
  {
    match o
    case NotInstalled => Some(OcrMissingMessage)
    case Scanned(Raised(m)) => Some(OcrErrorPrefix + m)
    case Scanned(Returned(ts)) =>
      var t := Concat(OcrBlocks(OcrPages(ts)));
      if |Strip(t)| >= MinOcrText then Some(Strip(t)) else None
  }

  /** `extract_pdf_text_advanced` as written. */
  function ExtractPdfTextAdvanced(src: Sources): (r: string)
    ensures FirstAccepted(Readers(src)).Some? ==> r == FirstAccepted(Readers(src)).value
    ensures FirstAccepted(Readers(src)).None? && OcrStage(src.ocr).Some? ==> r == OcrStage(src.ocr).value
    ensures FirstAccepted(Readers(src)).None? && OcrStage(src.ocr).None? ==> r == NoTextMessage
  {
    match FirstAccepted(Readers(src))
    case Some(t) => t
    case None =>
      match OcrStage(src.ocr)
      case Some(t) => t
      case None => NoTextMessage
  }

  /** Reader priority: when PyMuPDF's text is usable it is the answer, whatever
      the later readers and OCR would give. */
  lemma FitzFirst(src: Sources)
    requires Accept(FitzText(src)).Some?
    ensures ExtractPdfTextAdvanced(src) == Strip(FitzText(src).value)
  {
  }

  /** A later reader is consulted only when every earlier one failed: the
      answer is reader `k`'s stripped text exactly when reader `k` wins. */
  lemma ReaderAnswer(src: Sources, k: int)
    requires Wins(Readers(src), k)
    ensures ExtractPdfTextAdvanced(src) == Strip(Readers(src)[k].value)
    ensures |ExtractPdfTextAdvanced(src)| >= MinReaderText
  {
    FirstAcceptedWins(Readers(src), k);
  }

  /** OCR is reached only when no reader is accepted. */
  lemma OcrOnlyAsLastResort(src: Sources)
    requires forall k :: 0 <= k < 3 ==> !Wins(Readers(src), k)
    ensures ExtractPdfTextAdvanced(src)
         == match OcrStage(src.ocr) case Some(t) => t case None => NoTextMessage
  {
    FirstAcceptedSome(Readers(src));
  }

  /** Only the first five rendered pages are OCR'd: what the later pages say
      never matters. */
  lemma OcrIgnoresLaterPages(ts: seq<string>, more: seq<string>)
    requires |ts| >= OcrPageLimit
    ensures OcrStage(Scanned(Returned(ts + more))) == OcrStage(Scanned(Returned(ts)))
  {
    assert OcrPages(ts + more) == OcrPages(ts);
  }

  // ---------------------------------------------------------------- OCR threshold

  /** Where the marker dashes sit in the first two blocks. */
  lemma MarkerDashes(t0: string, t1: string)
    ensures OcrBlock(1, t0)[1] == '-'
    ensures |OcrBlock(1, t0)| >= 19
    ensures |OcrBlock(2, t1)| > 15 && OcrBlock(2, t1)[15] == '-'
  {
    assert NatToString(1) == "1";
    assert NatToString(2) == "2";
  }

  /** The marker characters alone reach the OCR threshold once two pages are
      rendered: a dash opens the first block and another closes the second
      block's header, more than 20 characters apart. */
  lemma {:induction false} TwoMarkersSpan(t0: string, t1: string, rest: seq<string>)
    ensures |Strip(Concat(OcrBlocks([t0, t1] + rest)))| >= MinOcrText
  {
    var bs := OcrBlocks([t0, t1] + rest);
    var b0 := OcrBlock(1, t0);
    var b1 := OcrBlock(2, t1);
    assert bs[..2] == [b0, b1];
    assert bs == [b0, b1] + bs[2..];
    ConcatAppend([b0, b1], bs[2..]);
    assert Concat([b0, b1]) == b0 + b1 by {
      assert [b0, b1][1..] == [b1];
    }
    var s := Concat(bs);
    assert s == (b0 + b1) + Concat(bs[2..]);
    MarkerDashes(t0, t1);
    var q := |b0| + 15;
    assert s[1] == b0[1];
    assert s[q] == b1[15];
    StripSpan(s, 1, q);
  }

  /** As written, two or more rendered pages are always accepted by the OCR
      stage, even when OCR recognised nothing at all on any of them. */
  lemma BlankScanAccepted(ts: seq<string>)
    requires |ts| >= 2
    ensures OcrStage(Scanned(Returned(ts))).Some?
  {
    var ps := OcrPages(ts);
    assert ps == [ps[0], ps[1]] + ps[2..];
    TwoMarkersSpan(ps[0], ps[1], ps[2..]);
  }

  /** The OCR stage with the threshold applied to the recognised text itself
      (joined with '\n', as the readers' texts are), not to the page markers. */
  function OcrStageIntended(o: Ocr): (r: Option<string>)
    ensures o.NotInstalled? ==> r == Some(OcrMissingMessage)
    ensures o.Scanned? && o.pages.Raised? ==> r == Some(OcrErrorPrefix + o.pages.message)
    ensures o.Scanned? && o.pages.Returned? && r.Some? ==>
      |Strip(Join(OcrPages(o.pages.value), "\n"))| >= MinOcrText
  {
    match o
    case NotInstalled => Some(OcrMissingMessage)
    case Scanned(Raised(m)) => Some(OcrErrorPrefix + m)
    case Scanned(Returned(ts)) =>
      var pages := OcrPages(ts);
      if |Strip(Join(pages, "\n"))| >= MinOcrText then Some(Strip(Concat(OcrBlocks(pages)))) else None
  }

  /** Page texts that are all whitespace join to all whitespace. */
  lemma {:induction false} JoinBlank(ts: seq<string>)
    requires forall i, k :: 0 <= i < |ts| && 0 <= k < |ts[i]| ==> IsSpace(ts[i][k])
    ensures forall k :: 0 <= k < |Join(ts, "\n")| ==> IsSpace(Join(ts, "\n")[k])
  {
    if |ts| > 1 {
      JoinBlank(ts[1..]);
      var j := Join(ts, "\n");
      assert j == ts[0] + "\n" + Join(ts[1..], "\n");
      forall k | 0 <= k < |j| ensures IsSpace(j[k]) {
        if k < |ts[0]| {
          assert j[k] == ts[0][k];
        } else if k > |ts[0]| {
          assert j[k] == Join(ts[1..], "\n")[k - |ts[0]| - 1];
        }
      }
    }
  }

  /** With the intended threshold, a scan in which OCR recognised only
      whitespace falls through to the final message. */
  lemma BlankScanRejectedIntended(ts: seq<string>)
    requires forall i, k :: 0 <= i < |ts| && 0 <= k < |ts[i]| ==> IsSpace(ts[i][k])
    ensures OcrStageIntended(Scanned(Returned(ts))).None?
  {
    var ps := OcrPages(ts);
    assert forall i :: 0 <= i < |ps| ==> ps[i] == ts[i];
    JoinBlank(ps);
  }

  /** `extract_pdf_text_advanced` with the intended OCR threshold. */
  function ExtractPdfTextIntended(src: Sources): (r: string)
    ensures FirstAccepted(Readers(src)).Some? ==> r == FirstAccepted(Readers(src)).value
    ensures FirstAccepted(Readers(src)).None? && OcrStageIntended(src.ocr).Some? ==>
      r == OcrStageIntended(src.ocr).value
    ensures FirstAccepted(Readers(src)).None? && OcrStageIntended(src.ocr).None? ==> r == NoTextMessage
  {
    match FirstAccepted(Readers(src))
    case Some(t) => t
    case None =>
      match OcrStageIntended(src.ocr)
      case Some(t) => t
      case None => NoTextMessage
  }
}
