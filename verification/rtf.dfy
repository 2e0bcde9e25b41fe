/** The RTF branch of `convert_file`: the file's text, one RTF paragraph per
    line, with the three RTF control characters escaped, inside a fixed
    header and a closing brace. */
module Rtf {
  import opened Wrappers
  import opened Text
  import opened Numerals

  const Header := "{\\rtf1\\ansi\\deff0{\\fonttbl{\\f0 Times New Roman;}}\\f0\\fs24\n"
  const LineEnd := "\\par\n"
  const Unsupported := "Bu format qo'llab-quvvatlanmaydi."
  const ErrorPrefix := "Xatolik: "

  // ---------------------------------------------------------------- source text

  /** What the readers give for the file: the UTF-8 text (undecodable bytes
      replaced), python-docx's paragraph texts, pypdf's page texts. */
  datatype Readers = Readers(txt: Read<string>, paragraphs: Read<seq<string>>, pdfPages: Read<seq<Option<string>>>)

  /** The index of the first page pypdf found no text on, or `|ps|` when
      every page has text. */
  function FirstMissing(ps: seq<Option<string>>): (k: nat)
    ensures k <= |ps|
    ensures forall j :: 0 <= j < k ==> ps[j].Some?
    ensures k < |ps| ==> ps[k].None?
  {
    if |ps| == 0 || ps[0].None? then 0 else 1 + FirstMissing(ps[1..])
  }

  /** The page texts, when every page has one. */
  function PageValues(ps: seq<Option<string>>): (ts: seq<string>)
    requires forall j :: 0 <= j < |ps| ==> ps[j].Some?
    ensures |ts| == |ps| && forall j :: 0 <= j < |ps| ==> Some(ts[j]) == ps[j]
  {
    seq(|ps|, j requires 0 <= j < |ps| => ps[j].value)
  }

  /** The `TypeError` message of `str.join` meeting None at item `k`. */
  function NoneItem(k: nat): string {
    "sequence item " + NatToString(k) + ": expected str instance, NoneType found"
  }

  /** The text to export, or the message that replaces it. Each reader's
      exception becomes the message after the prefix; a pypdf page without
      text (None) makes the join raise on the first such page. */
  function SourceText(ext: string, rd: Readers): (text: string)
    ensures ext == "txt" && rd.txt.Returned? ==> text == rd.txt.value
    ensures ext == "txt" && rd.txt.Raised? ==> text == ErrorPrefix + rd.txt.message
    ensures (ext == "doc" || ext == "docx") && rd.paragraphs.Returned? ==> text == Join(rd.paragraphs.value, "\n")
    ensures (ext == "doc" || ext == "docx") && rd.paragraphs.Raised? ==> text == ErrorPrefix + rd.paragraphs.message
    ensures ext == "pdf" && rd.pdfPages.Raised? ==> text == ErrorPrefix + rd.pdfPages.message
    ensures ext == "pdf" && rd.pdfPages.Returned? && FirstMissing(rd.pdfPages.value) == |rd.pdfPages.value| ==>
              text == Join(PageValues(rd.pdfPages.value), "\n")
    ensures ext == "pdf" && rd.pdfPages.Returned? && FirstMissing(rd.pdfPages.value) < |rd.pdfPages.value| ==>
              text == ErrorPrefix + NoneItem(FirstMissing(rd.pdfPages.value))
    ensures ext !in ["txt", "doc", "docx", "pdf"] ==> text == Unsupported
  {
    if ext == "txt" then
      match rd.txt
      case Raised(m) => ErrorPrefix + m
      case Returned(t) => t
    else if ext == "doc" || ext == "docx" then
      match rd.paragraphs
      case Raised(m) => ErrorPrefix + m
      case Returned(ps) => Join(ps, "\n")
    else if ext == "pdf" then
      match rd.pdfPages
      case Raised(m) => ErrorPrefix + m
      case Returned(ps) =>
        var k := FirstMissing(ps);
        if k < |ps| then ErrorPrefix + NoneItem(k) else Join(PageValues(ps), "\n")
    else Unsupported
  }

  /** The join error names the first text-less page, whatever follows it. */
  lemma {:induction false} PdfNoneNamesFirst(rd: Readers, pre: seq<Option<string>>, post: seq<Option<string>>)
    requires forall j :: 0 <= j < |pre| ==> pre[j].Some?
    requires rd.pdfPages == Returned(pre + [None] + post)
    ensures SourceText("pdf", rd) == ErrorPrefix + NoneItem(|pre|)
  {
    FirstMissingAt(pre, post);
  }

  lemma {:induction false} FirstMissingAt(pre: seq<Option<string>>, post: seq<Option<string>>)
    requires forall j :: 0 <= j < |pre| ==> pre[j].Some?
    ensures FirstMissing(pre + [None] + post) == |pre|
  {
    if |pre| > 0 {
      assert (pre + [None] + post)[1..] == pre[1..] + [None] + post;
      FirstMissingAt(pre[1..], post);
    } else {
      assert (pre + [None] + post)[0] == None;
    }
  }

  /** With text on every page, the exported text is those texts joined. */
  lemma PdfAllPagesJoin(rd: Readers, ts: seq<string>)
    requires rd.pdfPages.Returned? && |rd.pdfPages.value| == |ts|
    requires forall j :: 0 <= j < |ts| ==> rd.pdfPages.value[j] == Some(ts[j])
    ensures SourceText("pdf", rd) == Join(ts, "\n")
  {
    var ps := rd.pdfPages.value;
    if FirstMissing(ps) < |ps| {
      assert false;
    }
    assert PageValues(ps) == ts;
  }

  // ---------------------------------------------------------------- escaping

  /** `s.replace(c, r)` for a single character `c`. */
  function ReplaceChar(s: string, c: char, r: string): string {
    if |s| == 0 then "" else (if s[0] == c then r else [s[0]]) + ReplaceChar(s[1..], c, r)
  }

  lemma ReplaceCharAppend(a: string, b: string, c: char, r: string)
    ensures ReplaceChar(a + b, c, r) == ReplaceChar(a, c, r) + ReplaceChar(b, c, r)
  {
    if |a| > 0 {
      assert (a + b)[1..] == a[1..] + b;
      ReplaceCharAppend(a[1..], b, c, r);
    } else {
      assert a + b == b;
    }
  }

  /** The escaped form of one character. */
  function EscapeChar(c: char): string {
    if c == '\\' || c == '{' || c == '}' then ['\\', c] else [c]
  }

  /** Every character escaped on its own. */
  function Escape(s: string): string {
    if |s| == 0 then "" else EscapeChar(s[0]) + Escape(s[1..])
  }

  /** The line escaping as written: three `replace` calls in a row,
      backslash first. */
  function EscapeLine(line: string): string {
    ReplaceChar(ReplaceChar(ReplaceChar(line, '\\', "\\\\"), '{', "\\{"), '}', "\\}")
  }

  /** Escaping the backslash first is what makes the three replacements act
      character by character: the backslashes the later two insert are never
      doubled again. */
  lemma {:induction false} EscapeLineIsEscape(line: string)
    ensures EscapeLine(line) == Escape(line)
  {
    if |line| > 0 {
      var c := line[0];
      var rest := line[1..];
      assert line == [c] + rest;
      ReplaceCharAppend([c], rest, '\\', "\\\\");
      var a1 := ReplaceChar([c], '\\', "\\\\");
      var b1 := ReplaceChar(rest, '\\', "\\\\");
      ReplaceCharAppend(a1, b1, '{', "\\{");
      var a2 := ReplaceChar(a1, '{', "\\{");
      var b2 := ReplaceChar(b1, '{', "\\{");
      ReplaceCharAppend(a2, b2, '}', "\\}");
      EscapeLineIsEscape(rest);
      if c == '\\' {
        assert a1 == "\\\\";
        assert ReplaceChar("\\\\", '{', "\\{") == "\\\\" by {
          assert "\\\\"[1..] == "\\";
        }
        assert ReplaceChar("\\\\", '}', "\\}") == "\\\\" by {
          assert "\\\\"[1..] == "\\";
        }
      } else if c == '{' {
        assert ReplaceChar("\\{", '}', "\\}") == "\\{" by {
          assert "\\{"[1..] == "{";
        }
      }
    }
  }

  // ---------------------------------------------------------------- document

  /** Each line escaped and closed with `\par` and a newline. */
  function Body(lines: seq<string>): string {
    if |lines| == 0 then "" else EscapeLine(lines[0]) + LineEnd + Body(lines[1..])
  }

  /** The RTF document for a text. */
  function Document(text: string): (doc: string)
    ensures StartsWith(doc, Header) && EndsWith(doc, "}")
  {
    var d := Header + Body(Split(text, '\n')) + "}";
    assert d[..|Header|] == Header;
    d
  }

  /** The `rtf_content += ...` loop over `text.split('\n')`, as written. */
  method BuildDocument(text: string) returns (rtf: string)
    ensures rtf == Document(text)
  {
    var lines := Split(text, '\n');
    rtf := Header;
    var i := 0;
    assert lines[0..] == lines;
    while i < |lines|
      invariant 0 <= i <= |lines|
      invariant rtf + Body(lines[i..]) + "}" == Document(text)
    {
      assert lines[i..][1..] == lines[i + 1..];
      rtf := rtf + EscapeLine(lines[i]) + LineEnd;
      i := i + 1;
    }
    rtf := rtf + "}";
  }

  // ---------------------------------------------------------------- reading back

  /** An RTF reader for the body: a backslash before `\`, `{` or `}` stands
      for that character, `\par` plus newline ends a line, anything else is
      itself. */
  function Decode(s: string): string
    decreases |s|
  {
    if |s| == 0 then ""
    else if |s| >= 2 && s[0] == '\\' && (s[1] == '\\' || s[1] == '{' || s[1] == '}') then [s[1]] + Decode(s[2..])
    else if StartsWith(s, LineEnd) then "\n" + Decode(s[|LineEnd|..])
    else [s[0]] + Decode(s[1..])
  }

  lemma DecodeEscapedChar(c: char, tail: string)
    ensures Decode(EscapeChar(c) + tail) == [c] + Decode(tail)
  {
    var t := EscapeChar(c) + tail;
    if c == '\\' || c == '{' || c == '}' {
      assert t[2..] == tail;
    } else {
      assert t[1..] == tail;
    }
  }

  lemma {:induction false} DecodeEscaped(line: string, rest: string)
    ensures Decode(Escape(line) + rest) == line + Decode(rest)
  {
    if |line| > 0 {
      var c := line[0];
      DecodeEscaped(line[1..], rest);
      assert Escape(line) + rest == EscapeChar(c) + (Escape(line[1..]) + rest);
      DecodeEscapedChar(c, Escape(line[1..]) + rest);
      assert line == [c] + line[1..];
    } else {
      assert Escape(line) + rest == rest;
    }
  }

  lemma DecodeLineEnd(b: string)
    ensures Decode(LineEnd + b) == "\n" + Decode(b)
  {
    var t := LineEnd + b;
    assert t[..|LineEnd|] == LineEnd;
    assert t[|LineEnd|..] == b;
  }

  /** One exported line reads back as the line and a newline. */
  lemma DecodeLine(line: string, rest: string)
    ensures Decode(EscapeLine(line) + LineEnd + rest) == line + "\n" + Decode(rest)
  {
    EscapeLineIsEscape(line);
    assert EscapeLine(line) + LineEnd + rest == Escape(line) + (LineEnd + rest);
    DecodeEscaped(line, LineEnd + rest);
    DecodeLineEnd(rest);
  }

  /** Reading the body back gives every line followed by a newline. */
  lemma {:induction false} DecodeBody(lines: seq<string>)
    ensures Decode(Body(lines)) == TerminateAll(lines)
  {
    if |lines| > 0 {
      DecodeLine(lines[0], Body(lines[1..]));
      DecodeBody(lines[1..]);
    }
  }

  /** The text a reader recovers from a document: drop the header and the
      closing brace, decode, drop the last newline. */
  function Recover(doc: string): Option<string> {
    if |doc| < |Header| + 1 || !StartsWith(doc, Header) || doc[|doc| - 1] != '}' then None
    else
      var d := Decode(doc[|Header|..|doc| - 1]);
      if |d| == 0 || d[|d| - 1] != '\n' then None else Some(d[..|d| - 1])
  }

  /** Round trip: the exported document reads back as exactly the exported
      text, whatever braces and backslashes it holds. */
  lemma RecoverDocument(text: string)
    ensures Recover(Document(text)) == Some(text)
  {
    var lines := Split(text, '\n');
    var doc := Document(text);
    assert doc[|Header|..|doc| - 1] == Body(lines);
    DecodeBody(lines);
    JoinTerminated(lines);
  }
}
