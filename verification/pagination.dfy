/** A book's page records and full text, derived from its attached file
    (`Book.save_pages_from_file` and `Book.extract_text_from_file`).

    The PDF, DOCX and TXT readers are not modelled; what they return for the
    attached file is passed in as a `Library` value. */
module Pagination {
  import opened Wrappers
  import opened Text

  /** A stored `BookPage` row of the book: its 1-based number and its text. */
  datatype Page = Page(number: nat, text: string)

  /** One python-docx paragraph: its text, and whether one of its runs holds a
      page break (an explicit `<w:br w:type="page">` or a
      `<w:lastRenderedPageBreak>`). */
  datatype Paragraph = Paragraph(text: string, hasPageBreak: bool)

  /** How far pypdf gets through the file: `texts` holds what `extract_text()`
      returned (possibly None) for each page read, in order; `failure` is the
      message of the exception raised next, by the page after the last one
      read or, with no page read, by `PdfReader` itself. */
  datatype PdfScan = PdfScan(texts: seq<Option<string>>, failure: Option<string>)

  /** What each reader gives for the attached file.
      `pdf`: how pypdf's page-by-page reading goes;
      `docxParagraphs`: python-docx's paragraph list (the document is parsed
      whole when it is opened, so it either raises or yields every paragraph);
      `txtContent`: the file decoded as UTF-8. */
  datatype Library = Library(
    pdf: PdfScan,
    docxParagraphs: Read<seq<Paragraph>>,
    txtContent: Read<string>)

  /** A book: the name of its attached file and its stored pages. Django
      stores a missing file as NULL (None) and a cleared one as `''`; both
      mean "no file", since a FieldFile is false when its name is empty. */
  datatype Book = Book(fileName: Option<string>, pages: seq<Page>)

  /** `bool(book.file)`: a file is attached and its name is not empty. */
  predicate HasFile(b: Book) {
    b.fileName.Some? && b.fileName.value != ""
  }

  /** The file kinds `save_pages_from_file` recognises, by lower-cased suffix. */
  datatype Kind = Pdf | Docx | Txt | Unsupported

  function KindOf(name: string): (k: Kind)
    ensures k == Pdf <==> EndsWith(Lower(name), ".pdf")
    ensures k == Docx <==> EndsWith(Lower(name), ".docx")
    ensures k == Txt <==> EndsWith(Lower(name), ".txt")
  {
    var lower := Lower(name);
    SuffixesExclusive(lower);
    if EndsWith(lower, ".pdf") then Pdf
    else if EndsWith(lower, ".docx") then Docx
    else if EndsWith(lower, ".txt") then Txt
    else Unsupported
  }

  /** Two suffixes with different last characters never both end one name. */
  lemma SuffixesExclusive(s: string)
    ensures !(EndsWith(s, ".pdf") && EndsWith(s, ".docx"))
    ensures !(EndsWith(s, ".pdf") && EndsWith(s, ".txt"))
    ensures !(EndsWith(s, ".docx") && EndsWith(s, ".txt"))
  {
    if EndsWith(s, ".pdf") { assert s[|s| - 1] == 'f'; }
    if EndsWith(s, ".docx") { assert s[|s| - 1] == 'x'; }
    if EndsWith(s, ".txt") { assert s[|s| - 1] == 't'; }
  }

  /** Page numbers run 1, 2, ..., N in storage order. */
  predicate Contiguous(pages: seq<Page>) {
    forall i :: 0 <= i < |pages| ==> pages[i].number == i + 1
  }

  /** Number a list of page texts 1..N. */
  function NumberPages(texts: seq<string>): (pages: seq<Page>)
    ensures |pages| == |texts| && Contiguous(pages)
    ensures forall i :: 0 <= i < |texts| ==> pages[i].text == texts[i]
  {
    seq(|texts|, i requires 0 <= i < |texts| => Page(i + 1, texts[i]))
  }

  // ---------------------------------------------------------------- PDF

  /** `page.extract_text() or ''`. */
  function TextOrEmpty(t: Option<string>): string {
    match t
    case Some(s) => s
    case None => ""
  }

  /** PDF branch: one page per reader page, in reader order. */
  function PdfPages(reader: seq<Option<string>>): (pages: seq<Page>)
    ensures |pages| == |reader| && Contiguous(pages)
    ensures forall i :: 0 <= i < |reader| ==> pages[i].text == TextOrEmpty(reader[i])
  {
    NumberPages(seq(|reader|, i requires 0 <= i < |reader| => TextOrEmpty(reader[i])))
  }

  // ---------------------------------------------------------------- DOCX

  function Texts(ps: seq<Paragraph>): (ts: seq<string>)
    ensures |ts| == |ps| && forall i :: 0 <= i < |ps| ==> ts[i] == ps[i].text
  {
    seq(|ps|, i requires 0 <= i < |ps| => ps[i].text)
  }

  function Flatten(gs: seq<seq<string>>): seq<string> {
    if |gs| == 0 then [] else gs[0] + Flatten(gs[1..])
  }

  lemma FlattenAppend(a: seq<seq<string>>, b: seq<seq<string>>)
    ensures Flatten(a + b) == Flatten(a) + Flatten(b)
  {
    if |a| > 0 {
      assert (a + b)[1..] == a[1..] + b;
      FlattenAppend(a[1..], b);
    } else {
      assert a + b == b;
    }
  }

  /** Number of paragraphs flagged with a page break. */
  function CountBreaks(ps: seq<Paragraph>): nat {
    if |ps| == 0 then 0 else (if ps[0].hasPageBreak then 1 else 0) + CountBreaks(ps[1..])
  }

  /** The paragraph groups the DOCX loop produces when it still has to read
      `ps` and has `current` (non-empty) on the page being filled: a flagged
      paragraph closes the current page and opens a new one. */
  function GroupsFrom(ps: seq<Paragraph>, current: seq<string>): (gs: seq<seq<string>>)
    requires |current| > 0
    ensures |gs| > 0
  {
    if |ps| == 0 then [current]
    else if ps[0].hasPageBreak then [current] + GroupsFrom(ps[1..], [ps[0].text])
    else GroupsFrom(ps[1..], current + [ps[0].text])
  }

  lemma {:induction false} GroupsFromCount(ps: seq<Paragraph>, current: seq<string>)
    requires |current| > 0
    ensures |GroupsFrom(ps, current)| == 1 + CountBreaks(ps)
  {
    if |ps| > 0 {
      if ps[0].hasPageBreak {
        GroupsFromCount(ps[1..], [ps[0].text]);
      } else {
        GroupsFromCount(ps[1..], current + [ps[0].text]);
      }
    }
  }

  lemma TextsCons(ps: seq<Paragraph>)
    requires |ps| > 0
    ensures Texts(ps) == [ps[0].text] + Texts(ps[1..])
  {
    assert Texts(ps)[1..] == Texts(ps[1..]);
  }

  lemma FlattenCons(g: seq<string>, rest: seq<seq<string>>)
    ensures Flatten([g] + rest) == g + Flatten(rest)
  {
    assert ([g] + rest)[0] == g && ([g] + rest)[1..] == rest;
  }

  lemma AppendAssoc(a: seq<string>, b: seq<string>, c: seq<string>)
    ensures (a + b) + c == a + (b + c)
  {
  }

  lemma {:induction false} GroupsFromFlatten(ps: seq<Paragraph>, current: seq<string>)
    requires |current| > 0
    ensures Flatten(GroupsFrom(ps, current)) == current + Texts(ps)
  {
    if |ps| > 0 {
      var t := ps[0].text;
      TextsCons(ps);
      if ps[0].hasPageBreak {
        var rest := GroupsFrom(ps[1..], [t]);
        assert GroupsFrom(ps, current) == [current] + rest;
        GroupsFromFlatten(ps[1..], [t]);
        FlattenCons(current, rest);
        assert current + ([t] + Texts(ps[1..])) == current + Flatten(rest);
      } else {
        assert GroupsFrom(ps, current) == GroupsFrom(ps[1..], current + [t]);
        GroupsFromFlatten(ps[1..], current + [t]);
        AppendAssoc(current, [t], Texts(ps[1..]));
      }
    }
  }

  lemma {:induction false} GroupsFromNonEmpty(ps: seq<Paragraph>, current: seq<string>)
    requires |current| > 0
    ensures forall k :: 0 <= k < |GroupsFrom(ps, current)| ==> |GroupsFrom(ps, current)[k]| > 0
  {
    if |ps| > 0 {
      if ps[0].hasPageBreak {
        var rest := GroupsFrom(ps[1..], [ps[0].text]);
        GroupsFromNonEmpty(ps[1..], [ps[0].text]);
        assert GroupsFrom(ps, current) == [current] + rest;
      } else {
        GroupsFromNonEmpty(ps[1..], current + [ps[0].text]);
      }
    }
  }

  /** The paragraph groups of a whole document: the first paragraph always
      opens page 1, whether flagged or not. */
  function Groups(ps: seq<Paragraph>): (gs: seq<seq<string>>)
    ensures |ps| == 0 <==> |gs| == 0
  {
    if |ps| == 0 then [] else GroupsFrom(ps[1..], [ps[0].text])
  }

  /** DOCX branch: each group's paragraphs joined with '\n', numbered 1..N. */
  function DocxPages(ps: seq<Paragraph>): seq<Page> {
    var gs := Groups(ps);
    NumberPages(seq(|gs|, k requires 0 <= k < |gs| => Join(gs[k], "\n")))
  }

  /** Partition: the pages' paragraph lists, concatenated, are the document's
      paragraph list, in order, with nothing dropped or repeated; no page is
      empty. */
  lemma DocxPartition(ps: seq<Paragraph>)
    ensures Flatten(Groups(ps)) == Texts(ps)
    ensures forall k :: 0 <= k < |Groups(ps)| ==> |Groups(ps)[k]| > 0
  {
    if |ps| > 0 {
      GroupsFromFlatten(ps[1..], [ps[0].text]);
      GroupsFromNonEmpty(ps[1..], [ps[0].text]);
      assert Texts(ps) == [ps[0].text] + Texts(ps[1..]);
    }
  }

  /** Page count: no pages for no paragraphs, otherwise one page plus one for
      every flagged paragraph after the first. */
  lemma DocxPageCount(ps: seq<Paragraph>)
    ensures |DocxPages(ps)| == if |ps| == 0 then 0 else 1 + CountBreaks(ps[1..])
    ensures Contiguous(DocxPages(ps))
  {
    if |ps| > 0 {
      GroupsFromCount(ps[1..], [ps[0].text]);
    }
  }

  /** `x` is the paragraph index at which one of the groups `gs` starts. */
  predicate IsOffset(gs: seq<seq<string>>, x: int) {
    |gs| > 0 && (x == 0 || IsOffset(gs[1..], x - |gs[0]|))
  }

  lemma {:induction false} OffsetsFrom(ps: seq<Paragraph>, current: seq<string>, x: int)
    requires |current| > 0
    ensures IsOffset(GroupsFrom(ps, current), x)
        <==> x == 0 || (|current| <= x < |current| + |ps| && ps[x - |current|].hasPageBreak)
    decreases |ps|
  {
    if |ps| > 0 {
      if ps[0].hasPageBreak {
        var rest := GroupsFrom(ps[1..], [ps[0].text]);
        assert ([current] + rest)[1..] == rest;
        OffsetsFrom(ps[1..], [ps[0].text], x - |current|);
      } else {
        OffsetsFrom(ps[1..], current + [ps[0].text], x);
      }
    }
  }

  /** A page starts at paragraph 0 and at every flagged paragraph after it, and
      nowhere else: a flag on the first paragraph opens no extra page. */
  lemma DocxPageStarts(ps: seq<Paragraph>, x: int)
    ensures IsOffset(Groups(ps), x)
        <==> 0 <= x < |ps| && (x == 0 || ps[x].hasPageBreak)
  {
    if |ps| > 0 {
      OffsetsFrom(ps[1..], [ps[0].text], x);
    }
  }

  function JoinAll(gs: seq<seq<string>>): (ts: seq<string>)
    ensures |ts| == |gs| && forall k :: 0 <= k < |gs| ==> ts[k] == Join(gs[k], "\n")
  {
    seq(|gs|, k requires 0 <= k < |gs| => Join(gs[k], "\n"))
  }

  /** Closing the page being filled appends one page, numbered after the
      closed ones. */
  lemma FlushPage(done: seq<seq<string>>, current: seq<string>)
    ensures NumberPages(JoinAll(done + [current]))
         == NumberPages(JoinAll(done)) + [Page(|done| + 1, Join(current, "\n"))]
  {
    assert JoinAll(done + [current]) == JoinAll(done) + [Join(current, "\n")];
  }

  /** One step of `GroupsFrom`, folded into the groups already closed. */
  lemma GroupsFromStep(done: seq<seq<string>>, ps: seq<Paragraph>, current: seq<string>)
    requires |ps| > 0 && |current| > 0
    ensures ps[0].hasPageBreak ==>
      done + GroupsFrom(ps, current) == (done + [current]) + GroupsFrom(ps[1..], [ps[0].text])
    ensures !ps[0].hasPageBreak ==>
      done + GroupsFrom(ps, current) == done + GroupsFrom(ps[1..], current + [ps[0].text])
  {
    if ps[0].hasPageBreak {
      assert GroupsFrom(ps, current) == [current] + GroupsFrom(ps[1..], [ps[0].text]);
      assert done + ([current] + GroupsFrom(ps[1..], [ps[0].text]))
          == (done + [current]) + GroupsFrom(ps[1..], [ps[0].text]);
    }
  }

  /** The DOCX loop of `save_pages_from_file` as written: it walks the
      paragraphs once, flushing the page being filled when a flagged paragraph
      arrives and the page is not empty, and flushes the last page at the end.
      It produces exactly the pages `DocxPages` describes. */
  method PaginateDocx(ps: seq<Paragraph>) returns (pages: seq<Page>)
    ensures pages == DocxPages(ps)
  {
    var current: seq<string> := [];
    ghost var done: seq<seq<string>> := [];
    pages := [];
    var pageNumber := 1;
    var i := 0;
    while i < |ps|
      invariant 0 <= i <= |ps|
      invariant pageNumber == |done| + 1
      invariant pages == NumberPages(JoinAll(done))
      invariant i == 0 ==> done == [] && current == []
      invariant i > 0 ==> |current| > 0 && done + GroupsFrom(ps[i..], current) == Groups(ps)
    {
      var p := ps[i];
      if i == 0 {
        current := [p.text];
      } else {
        assert ps[i..][1..] == ps[i + 1..];
        GroupsFromStep(done, ps[i..], current);
        if p.hasPageBreak {
          FlushPage(done, current);
          pages := pages + [Page(pageNumber, Join(current, "\n"))];
          pageNumber := pageNumber + 1;
          done := done + [current];
          current := [p.text];
        } else {
          current := current + [p.text];
        }
      }
      i := i + 1;
    }
    if current != [] {
      FlushPage(done, current);
      pages := pages + [Page(pageNumber, Join(current, "\n"))];
      done := done + [current];
    }
    assert done == Groups(ps);
  }

  // ---------------------------------------------------------------- save_pages_from_file

  /** The book after re-deriving its pages, and the error message when a
      reader raised (the exception then propagates to the caller). */
  datatype SaveResult = SaveResult(book: Book, raised: Option<string>)

  /** The pages stored for kind `k` and the exception that stopped the
      storing, if any. Pages are created one by one with no transaction, so a
      PDF page that raises leaves the pages before it stored; the DOCX and TXT
      readers raise before any page is created. An unsupported kind stores
      nothing. */
  function DerivePages(k: Kind, lib: Library): (r: (seq<Page>, Option<string>))
    ensures Contiguous(r.0)
    ensures k == Unsupported ==> r == ([], None)
    ensures k == Pdf ==> |r.0| == |lib.pdf.texts| && r.1 == lib.pdf.failure
    ensures k == Pdf ==> forall i :: 0 <= i < |r.0| ==> r.0[i].text == TextOrEmpty(lib.pdf.texts[i])
    ensures k == Docx && lib.docxParagraphs.Raised? ==> r == ([], Some(lib.docxParagraphs.message))
    ensures k == Txt && lib.txtContent.Raised? ==> r == ([], Some(lib.txtContent.message))
    ensures k != Pdf && r.1.None? ==>
      (r.0 != [] <==> k == Txt || (k == Docx && lib.docxParagraphs.Returned? && lib.docxParagraphs.value != []))
  {
    match k
    case Pdf => (PdfPages(lib.pdf.texts), lib.pdf.failure)
    case Docx =>
      (match lib.docxParagraphs
       case Raised(m) => ([], Some(m))
       case Returned(ps) => DocxPageCount(ps); (DocxPages(ps), None))
    case Txt =>
      (match lib.txtContent
       case Raised(m) => ([], Some(m))
       case Returned(t) => (NumberPages([t]), None))
    case Unsupported => ([], None)
  }

  /** `Book.save_pages_from_file`. Without a file nothing happens. Otherwise the
      old pages are deleted first, then the branch for the file's kind stores
      the new ones. An exception propagates to the caller and leaves whatever
      was stored before it: no page for DOCX and TXT, the pages read so far for
      PDF. */
  function SavePagesFromFile(b: Book, lib: Library): (r: SaveResult)
    ensures b.fileName.None? || b.fileName == Some("") ==> r == SaveResult(b, None)
    ensures HasFile(b) ==> r.book.fileName == b.fileName && Contiguous(r.book.pages)
    ensures r.raised.Some? ==> HasFile(b)
    ensures r.raised.Some? && HasFile(b) && KindOf(b.fileName.value) != Pdf ==> r.book.pages == []
    ensures r.raised.Some? && HasFile(b) && KindOf(b.fileName.value) == Pdf ==>
      r.book.pages == PdfPages(lib.pdf.texts) && r.raised == lib.pdf.failure
  {
    if !HasFile(b) then SaveResult(b, None)
    else
      var (pages, raised) := DerivePages(KindOf(b.fileName.value), lib);
      SaveResult(Book(b.fileName, pages), raised)
  }

  /** A named file of an unsupported kind stores no page and raises nothing. */
  lemma SavedUnsupported(b: Book, lib: Library)
    requires HasFile(b) && KindOf(b.fileName.value) == Unsupported
    ensures SavePagesFromFile(b, lib) == SaveResult(Book(b.fileName, []), None)
  {
  }

  /** A PDF stores one page per page read, carrying that page's text ('' for
      None), and raises what the reader raised next. */
  lemma SavedPdf(b: Book, lib: Library)
    requires b.fileName.Some? && KindOf(b.fileName.value) == Pdf
    ensures |SavePagesFromFile(b, lib).book.pages| == |lib.pdf.texts|
    ensures forall i :: 0 <= i < |lib.pdf.texts| ==>
      SavePagesFromFile(b, lib).book.pages[i].text == TextOrEmpty(lib.pdf.texts[i])
    ensures SavePagesFromFile(b, lib).raised == lib.pdf.failure
  {
    assert SavePagesFromFile(b, lib).book.pages == PdfPages(lib.pdf.texts);
  }

  /** When page `k` of a PDF raises, the book keeps exactly the first `k`
      pages that a clean read of the same document would have stored. */
  lemma {:induction false} PdfRaiseKeepsPrefix(b: Book, full: seq<Option<string>>, k: nat, m: string,
                            docx: Read<seq<Paragraph>>, txt: Read<string>)
    requires b.fileName.Some? && KindOf(b.fileName.value) == Pdf && k < |full|
    ensures var clean := SavePagesFromFile(b, Library(PdfScan(full, None), docx, txt));
      var broken := SavePagesFromFile(b, Library(PdfScan(full[..k], Some(m)), docx, txt));
      && clean.raised == None && broken.raised == Some(m)
      && |clean.book.pages| == |full|
      && broken.book.pages == clean.book.pages[..k]
  {
    var clean := SavePagesFromFile(b, Library(PdfScan(full, None), docx, txt));
    var broken := SavePagesFromFile(b, Library(PdfScan(full[..k], Some(m)), docx, txt));
    assert clean.book.pages == PdfPages(full);
    assert broken.book.pages == PdfPages(full[..k]);
    assert PdfPages(full[..k]) == PdfPages(full)[..k];
  }

  /** A TXT file stores its whole content as page 1. */
  lemma SavedTxt(b: Book, lib: Library)
    requires b.fileName.Some? && KindOf(b.fileName.value) == Txt && lib.txtContent.Returned?
    ensures SavePagesFromFile(b, lib).book.pages == [Page(1, lib.txtContent.value)]
  {
  }

  /** Replace semantics: the pages a book had before never influence the pages
      it has after, so re-deriving twice gives the same pages as once. */
  lemma ReplaceSemantics(b: Book, lib: Library)
    requires HasFile(b)
    ensures SavePagesFromFile(b, lib).book == SavePagesFromFile(Book(b.fileName, []), lib).book
    ensures SavePagesFromFile(SavePagesFromFile(b, lib).book, lib) == SavePagesFromFile(b, lib)
  {
  }

  // ---------------------------------------------------------------- extract_text_from_file

  /** The non-empty texts, each followed by '\n' (the PDF accumulation loop). */
  function TerminateNonEmpty(ts: seq<string>): string {
    if |ts| == 0 then "" else (if ts[0] != "" then ts[0] + "\n" else "") + TerminateNonEmpty(ts[1..])
  }

  function PageTexts(pages: seq<Page>): (ts: seq<string>)
    ensures |ts| == |pages| && forall i :: 0 <= i < |pages| ==> ts[i] == pages[i].text
  {
    seq(|pages|, i requires 0 <= i < |pages| => pages[i].text)
  }

  const ReadErrorPrefix := "Faylni o'qishda xatolik: "

  /** `Book.extract_text_from_file`: never raises; a reader's exception becomes
      an error string. */
  function ExtractTextFromFile(b: Book, lib: Library): (text: string)
    ensures !HasFile(b) ==> text == ""
    ensures b.fileName.Some? && KindOf(b.fileName.value) == Unsupported ==> text == ""
    ensures b.fileName.Some? && KindOf(b.fileName.value) == Txt && lib.txtContent.Returned? ==>
      text == lib.txtContent.value
    ensures b.fileName.Some? && KindOf(b.fileName.value) == Pdf && lib.pdf.failure.None? ==>
      text == Strip(text)
    ensures b.fileName.Some? && KindOf(b.fileName.value) == Pdf && lib.pdf.failure.Some? ==>
      text == ReadErrorPrefix + lib.pdf.failure.value
    ensures b.fileName.Some? && KindOf(b.fileName.value) == Docx && lib.docxParagraphs.Raised? ==>
      text == ReadErrorPrefix + lib.docxParagraphs.message
    ensures b.fileName.Some? && KindOf(b.fileName.value) == Txt && lib.txtContent.Raised? ==>
      text == ReadErrorPrefix + lib.txtContent.message
  {
    if !HasFile(b) then ""
    else
      match KindOf(b.fileName.value)
      case Pdf =>
        (match lib.pdf.failure
         case Some(m) => ReadErrorPrefix + m
         case None =>
           var reader := lib.pdf.texts;
           var r := Strip(TerminateNonEmpty(PageTexts(PdfPages(reader))));
           StripIdempotent(TerminateNonEmpty(PageTexts(PdfPages(reader))));
           r)
      case Docx =>
        (match lib.docxParagraphs
         case Raised(m) => ReadErrorPrefix + m
         case Returned(ps) => TerminateAll(Texts(ps)))
      case Txt =>
        (match lib.txtContent
         case Raised(m) => ReadErrorPrefix + m
         case Returned(t) => t)
      case Unsupported => ""
  }

  lemma {:induction false} TerminateGroups(gs: seq<seq<string>>)
    requires forall k :: 0 <= k < |gs| ==> |gs[k]| > 0
    ensures TerminateAll(JoinAll(gs)) == TerminateAll(Flatten(gs))
  {
    if |gs| > 0 {
      TerminateGroups(gs[1..]);
      JoinTerminated(gs[0]);
      assert JoinAll(gs) == [Join(gs[0], "\n")] + JoinAll(gs[1..]);
      TerminateAllAppend(gs[0], Flatten(gs[1..]));
    }
  }

  /** The DOCX full text and the DOCX pages agree: the text is the pages' texts,
      each followed by '\n'. */
  lemma DocxTextMatchesPages(b: Book, lib: Library)
    requires b.fileName.Some? && KindOf(b.fileName.value) == Docx && lib.docxParagraphs.Returned?
    ensures ExtractTextFromFile(b, lib)
         == TerminateAll(PageTexts(SavePagesFromFile(b, lib).book.pages))
  {
    var ps := lib.docxParagraphs.value;
    DocxPartition(ps);
    TerminateGroups(Groups(ps));
    assert PageTexts(DocxPages(ps)) == JoinAll(Groups(ps));
  }

  /** The PDF full text and the PDF pages agree: the text is the non-empty page
      texts, each followed by '\n', with the whole stripped. */
  lemma PdfTextMatchesPages(b: Book, lib: Library)
    requires b.fileName.Some? && KindOf(b.fileName.value) == Pdf && lib.pdf.failure.None?
    ensures ExtractTextFromFile(b, lib)
         == Strip(TerminateNonEmpty(PageTexts(SavePagesFromFile(b, lib).book.pages)))
  {
    var reader := lib.pdf.texts;
    assert DerivePages(Pdf, lib) == (PdfPages(reader), None);
    assert SavePagesFromFile(b, lib).book.pages == PdfPages(reader);
  }

  /** The TXT full text is the text of the single page. */
  lemma TxtTextMatchesPage(b: Book, lib: Library)
    requires b.fileName.Some? && KindOf(b.fileName.value) == Txt && lib.txtContent.Returned?
    ensures |SavePagesFromFile(b, lib).book.pages| == 1
    ensures ExtractTextFromFile(b, lib) == SavePagesFromFile(b, lib).book.pages[0].text
  {
  }
}
