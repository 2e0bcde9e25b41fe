/** In-book search (`ai_search_books`): the list of search terms, the scan of
    every page for every occurrence of each term, the snippet around each hit,
    and the ordered, capped response.

    The language model is not modelled: its query analysis and its answer are
    passed in as `Option` values (None when no client is configured or the
    call raised). */
module Search {
  import opened Wrappers
  import opened Text
  import opened Numerals

  /** The parsed JSON of the analysis call. `corrected` is "" and `keywords`
      is [] when the field is missing or empty (both are falsy in Python). */
  datatype Analysis = Analysis(corrected: string, keywords: seq<string>, isQuestion: bool)

  datatype SearchPage = SearchPage(number: int, text: string)
  datatype SearchBook = SearchBook(id: int, authorId: int, title: string, authorName: string, pages: seq<SearchPage>)

  const MaxTerms := 5
  const SnippetRadius := 150
  const MaxResults := 20
  const MaxContexts := 5

  // ---------------------------------------------------------------- term list

  predicate NoDuplicates<T(==)>(s: seq<T>) {
    forall i, j :: 0 <= i < j < |s| ==> s[i] != s[j]
  }

  /** The keyword a raw keyword becomes: lower-cased, then stripped. */
  function KeywordTerm(kw: string): string {
    Strip(Lower(kw))
  }

  /** The normalised keywords, in order. */
  function KeywordTerms(kws: seq<string>): (ks: seq<string>)
    ensures |ks| == |kws| && forall j :: 0 <= j < |kws| ==> ks[j] == KeywordTerm(kws[j])
  {
    seq(|kws|, j requires 0 <= j < |kws| => KeywordTerm(kws[j]))
  }

  /** A normalised keyword is added when it is non-empty, longer than 2
      characters and not already a term. */
  function AddKeywords(terms: seq<string>, ks: seq<string>): (r: seq<string>)
    decreases |ks|
    ensures |terms| <= |r| && r[..|terms|] == terms
  {
    if |ks| == 0 then terms
    else
      var next := if ks[0] != "" && ks[0] !in terms && |ks[0]| > 2 then terms + [ks[0]] else terms;
      AddKeywords(next, ks[1..])
  }

  /** The terms added are new, distinct and longer than 2 characters. */
  lemma {:induction false} AddKeywordsFresh(terms: seq<string>, ks: seq<string>)
    requires NoDuplicates(terms)
    decreases |ks|
    ensures NoDuplicates(AddKeywords(terms, ks))
    ensures forall k :: |terms| <= k < |AddKeywords(terms, ks)| ==>
      |AddKeywords(terms, ks)[k]| > 2 && AddKeywords(terms, ks)[k] !in terms
  {
    if |ks| > 0 {
      var next := if ks[0] != "" && ks[0] !in terms && |ks[0]| > 2 then terms + [ks[0]] else terms;
      AddKeywordsFresh(next, ks[1..]);
      var r := AddKeywords(next, ks[1..]);
      assert r[..|next|] == next;
    }
  }

  /** Every term comes from the starting list or from a keyword. */
  lemma {:induction false} AddKeywordsSound(terms: seq<string>, ks: seq<string>, t: string)
    requires t in AddKeywords(terms, ks)
    decreases |ks|
    ensures t in terms || t in ks
  {
    if |ks| > 0 {
      var next := if ks[0] != "" && ks[0] !in terms && |ks[0]| > 2 then terms + [ks[0]] else terms;
      AddKeywordsSound(next, ks[1..], t);
    }
  }

  /** Every qualifying keyword ends up a term. */
  lemma {:induction false} AddKeywordsComplete(terms: seq<string>, ks: seq<string>, t: string)
    requires t in ks && |t| > 2
    decreases |ks|
    ensures t in AddKeywords(terms, ks)
  {
    var next := if ks[0] != "" && ks[0] !in terms && |ks[0]| > 2 then terms + [ks[0]] else terms;
    var r := AddKeywords(next, ks[1..]);
    if t == ks[0] {
      assert r[..|next|] == next;
      var i :| 0 <= i < |next| && next[i] == t;
      assert r[i] == t;
    } else {
      AddKeywordsComplete(next, ks[1..], t);
    }
  }

  /** The keywords the loop appends, stated without the loop: in their order
      in `ks`, each one longer than 2 characters, not already in `terms`, and
      not equal to an earlier keyword. */
  function Fresh(terms: seq<string>, ks: seq<string>): (fs: seq<string>)
    decreases |ks|
  {
    if |ks| == 0 then []
    else
      var pre := ks[..|ks| - 1];
      var k := ks[|ks| - 1];
      Fresh(terms, pre) + (if |k| > 2 && k !in terms && k !in pre then [k] else [])
  }

  /** A long enough keyword is among the fresh ones exactly when it occurs in
      `ks` and not in `terms`. */
  lemma {:induction false} FreshMembers(terms: seq<string>, ks: seq<string>, k: string)
    requires |k| > 2
    decreases |ks|
    ensures k in Fresh(terms, ks) <==> k in ks && k !in terms
  {
    if |ks| > 0 {
      var pre := ks[..|ks| - 1];
      assert ks == pre + [ks[|ks| - 1]];
      FreshMembers(terms, pre, k);
    }
  }

  /** The loop from the `i`-th keyword on, started with the keywords before
      it already appended, ends with every fresh keyword appended in order. */
  lemma {:induction false} AddKeywordsFrom(terms: seq<string>, ks: seq<string>, i: nat)
    requires i <= |ks|
    decreases |ks| - i
    ensures AddKeywords(terms + Fresh(terms, ks[..i]), ks[i..]) == terms + Fresh(terms, ks)
  {
    if i == |ks| {
      assert ks[..i] == ks;
    } else {
      var cur := terms + Fresh(terms, ks[..i]);
      var k := ks[i];
      assert ks[i..][0] == k && ks[i..][1..] == ks[i + 1..];
      assert ks[..i + 1][..i] == ks[..i] && ks[..i + 1][i] == k;
      if |k| > 2 {
        FreshMembers(terms, ks[..i], k);
      }
      var next := if k != "" && k !in cur && |k| > 2 then cur + [k] else cur;
      assert next == terms + Fresh(terms, ks[..i + 1]);
      AddKeywordsFrom(terms, ks, i + 1);
    }
  }

  /** The loop appends exactly the fresh keywords, in their given order. */
  lemma AddKeywordsInOrder(terms: seq<string>, ks: seq<string>)
    ensures AddKeywords(terms, ks) == terms + Fresh(terms, ks)
  {
    AddKeywordsFrom(terms, ks, 0);
    assert ks[..0] == [] && ks[0..] == ks && terms + [] == terms;
  }

  /** The term list from normalised parts: the lower-cased query `q`, the
      lower-cased correction `c` when the analysis has one, and the normalised
      keywords `ks`. The correction goes in front when it differs from `q`. */
  function TermList(q: string, c: Option<string>, ks: seq<string>): (terms: seq<string>)
    ensures |terms| >= 1 && q in terms && NoDuplicates(terms)
    ensures terms[0] == q || (c.Some? && terms[0] == c.value != q && terms[1] == q)
  {
    var withCorrected := if c.Some? && c.value != q then [c.value, q] else [q];
    var r := AddKeywords(withCorrected, ks);
    AddKeywordsFresh(withCorrected, ks);
    assert r[..|withCorrected|] == withCorrected;
    assert q in withCorrected;
    r
  }

  /** The term list is the query (after the differing correction) followed by
      the fresh keywords in their given order, so `search_terms[:5]` searches
      the earliest ones. */
  lemma TermListInOrder(q: string, c: Option<string>, ks: seq<string>)
    ensures c.Some? && c.value != q ==> TermList(q, c, ks) == [c.value, q] + Fresh([c.value, q], ks)
    ensures c.None? || c.value == q ==> TermList(q, c, ks) == [q] + Fresh([q], ks)
  {
    AddKeywordsInOrder(if c.Some? && c.value != q then [c.value, q] else [q], ks);
  }

  /** A string is a term exactly when it is the query, the correction, or a
      qualifying keyword. */
  lemma TermListMembers(q: string, c: Option<string>, ks: seq<string>, t: string)
    ensures t in TermList(q, c, ks) <==> t == q || (c.Some? && t == c.value) || (t in ks && |t| > 2)
  {
    var withCorrected := if c.Some? && c.value != q then [c.value, q] else [q];
    var r := AddKeywords(withCorrected, ks);
    assert r[..|withCorrected|] == withCorrected;
    if t in r && t !in withCorrected {
      AddKeywordsSound(withCorrected, ks, t);
      AddKeywordsFresh(withCorrected, ks);
    }
    if t in ks && |t| > 2 {
      AddKeywordsComplete(withCorrected, ks, t);
    }
    if t in withCorrected {
      var i :| 0 <= i < |withCorrected| && withCorrected[i] == t;
      assert r[i] == t;
    }
  }

  /** The correction the analysis offers, lower-cased, when it has one. */
  function Correction(analysis: Option<Analysis>): Option<string> {
    if analysis.Some? && analysis.value.corrected != "" then Some(Lower(analysis.value.corrected)) else None
  }

  /** `search_terms` as the view assembles it. */
  function SearchTerms(query: string, analysis: Option<Analysis>): (terms: seq<string>)
    ensures |terms| >= 1 && Lower(query) in terms && NoDuplicates(terms)
  {
    TermList(Lower(query), Correction(analysis),
             if analysis.Some? then KeywordTerms(analysis.value.keywords) else [])
  }

  /** Only the first five terms are searched. */
  function SearchedTerms(terms: seq<string>): (r: seq<string>)
    ensures |r| <= MaxTerms && |r| <= |terms| && r == terms[..|r|]
    ensures |terms| <= MaxTerms ==> r == terms
  {
    if |terms| <= MaxTerms then terms else terms[..MaxTerms]
  }

  // ---------------------------------------------------------------- occurrence scan

  /** The occurrence indexes of `sub` in `s` at or after `start`, as the scan
      visits them: each search resumes one past the previous hit, so
      overlapping occurrences are all found. */
  function Occurrences(s: string, sub: string, start: nat): (r: seq<nat>)
    ensures forall k :: 0 <= k < |r| ==> start <= r[k] && OccursAt(s, sub, r[k])
    ensures forall k :: 0 < k < |r| ==> r[k - 1] < r[k]
    decreases |s| + 1 - start
  {
    var i := Find(s, sub, start);
    if i == -1 then [] else [i as nat] + Occurrences(s, sub, i + 1)
  }

  /** Completeness: every occurrence at or after `start` is visited. */
  lemma {:induction false} OccurrencesComplete(s: string, sub: string, start: nat, j: int)
    requires start <= j && OccursAt(s, sub, j)
    ensures j in Occurrences(s, sub, start)
    decreases |s| + 1 - start
  {
    FindLeast(s, sub, start, j);
    var i := Find(s, sub, start);
    var rest := Occurrences(s, sub, i + 1);
    assert Occurrences(s, sub, start) == [i as nat] + rest;
    if j > i {
      OccurrencesComplete(s, sub, i + 1, j);
      assert j in rest;
    }
  }

  /** One step of the scan: with no further match nothing is left to visit;
      otherwise the match found is visited next and the scan resumes just
      after it, still inside the text. */
  lemma OccurrencesStep(visited: seq<nat>, s: string, sub: string, start: nat)
    ensures Find(s, sub, start) == -1 ==> visited + Occurrences(s, sub, start) == visited
    ensures Find(s, sub, start) != -1 ==>
      start < Find(s, sub, start) + 1 <= |s| + 1
      && (visited + [Find(s, sub, start) as nat]) + Occurrences(s, sub, Find(s, sub, start) + 1)
         == visited + Occurrences(s, sub, start)
  {
    var i := Find(s, sub, start);
    if i != -1 {
      assert Occurrences(s, sub, start) == [i as nat] + Occurrences(s, sub, i + 1);
    } else {
      assert visited + [] == visited;
    }
  }

  /** The `while True` loop over `find` for one term on one page: the indexes
      it visits are exactly the occurrences, in increasing order. */
  method ScanOccurrences(s: string, sub: string) returns (visited: seq<nat>)
    ensures visited == Occurrences(s, sub, 0)
  {
    visited := [];
    var start: nat := 0;
    while true
      invariant visited + Occurrences(s, sub, start) == Occurrences(s, sub, 0)
      decreases |s| + 1 - start
    {
      var idx := Find(s, sub, start);
      OccurrencesStep(visited, s, sub, start);
      if idx == -1 {
        break;
      }
      visited := visited + [idx as nat];
      start := idx + 1;
    }
  }

  /** One match the scan meets: the term, where it was found, and the index
      in the page's lower-cased text. */
  datatype Candidate = Candidate(term: string, book: SearchBook, page: SearchPage, idx: nat)

  /** The de-duplication key `"{book.id}-{page.page_number}-{idx}"`. */
  datatype Key = Key(bookId: int, pageNumber: int, idx: nat)

  function KeyOf(c: Candidate): Key {
    Key(c.book.id, c.page.number, c.idx)
  }

  /** The candidate really is an occurrence of its term in its page. */
  predicate Genuine(c: Candidate) {
    OccursAt(Lower(c.page.text), c.term, c.idx)
  }

  function PageCandidates(term: string, b: SearchBook, p: SearchPage): (r: seq<Candidate>)
    ensures forall c :: c in r ==> Genuine(c)
  {
    var occ := Occurrences(Lower(p.text), term, 0);
    seq(|occ|, k requires 0 <= k < |occ| => Candidate(term, b, p, occ[k]))
  }

  function PagesCandidates(term: string, b: SearchBook, ps: seq<SearchPage>): (r: seq<Candidate>)
    ensures forall c :: c in r ==> Genuine(c)
  {
    if |ps| == 0 then [] else PageCandidates(term, b, ps[0]) + PagesCandidates(term, b, ps[1..])
  }

  function BooksCandidates(term: string, bs: seq<SearchBook>): (r: seq<Candidate>)
    ensures forall c :: c in r ==> Genuine(c)
  {
    if |bs| == 0 then [] else PagesCandidates(term, bs[0], bs[0].pages) + BooksCandidates(term, bs[1..])
  }

  /** Every candidate in loop order: terms, then books, then pages, then
      indexes. */
  function Candidates(terms: seq<string>, bs: seq<SearchBook>): (r: seq<Candidate>)
    ensures forall c :: c in r ==> Genuine(c)
  {
    if |terms| == 0 then [] else BooksCandidates(terms[0], bs) + Candidates(terms[1..], bs)
  }

  /** Each occurrence of a searched term on a page of a searched book is a
      candidate. */
  lemma CandidatesComplete(terms: seq<string>, bs: seq<SearchBook>, t: int, b: int, p: int, j: int)
    requires 0 <= t < |terms| && 0 <= b < |bs| && 0 <= p < |bs[b].pages|
    requires OccursAt(Lower(bs[b].pages[p].text), terms[t], j)
    ensures Candidate(terms[t], bs[b], bs[b].pages[p], j) in Candidates(terms, bs)
  {
    var page := bs[b].pages[p];
    OccurrencesComplete(Lower(page.text), terms[t], 0, j);
    var occ := Occurrences(Lower(page.text), terms[t], 0);
    var k :| 0 <= k < |occ| && occ[k] == j;
    assert PageCandidates(terms[t], bs[b], page)[k] == Candidate(terms[t], bs[b], page, j);
    PagesMember(terms[t], bs[b], bs[b].pages, p, Candidate(terms[t], bs[b], page, j));
    BooksMember(terms[t], bs, b, Candidate(terms[t], bs[b], page, j));
    TermsMember(terms, bs, t, Candidate(terms[t], bs[b], page, j));
  }

  lemma {:induction false} PagesMember(term: string, b: SearchBook, ps: seq<SearchPage>, p: int, c: Candidate)
    requires 0 <= p < |ps| && c in PageCandidates(term, b, ps[p])
    ensures c in PagesCandidates(term, b, ps)
  {
    var here := PageCandidates(term, b, ps[0]);
    var rest := PagesCandidates(term, b, ps[1..]);
    assert PagesCandidates(term, b, ps) == here + rest;
    if p > 0 {
      assert ps[1..][p - 1] == ps[p];
      PagesMember(term, b, ps[1..], p - 1, c);
      assert c in rest;
    } else {
      assert c in here;
    }
  }

  lemma {:induction false} BooksMember(term: string, bs: seq<SearchBook>, b: int, c: Candidate)
    requires 0 <= b < |bs| && c in PagesCandidates(term, bs[b], bs[b].pages)
    ensures c in BooksCandidates(term, bs)
  {
    var here := PagesCandidates(term, bs[0], bs[0].pages);
    var rest := BooksCandidates(term, bs[1..]);
    assert BooksCandidates(term, bs) == here + rest;
    if b > 0 {
      assert bs[1..][b - 1] == bs[b];
      BooksMember(term, bs[1..], b - 1, c);
      assert c in rest;
    } else {
      assert c in here;
    }
  }

  lemma {:induction false} TermsMember(terms: seq<string>, bs: seq<SearchBook>, t: int, c: Candidate)
    requires 0 <= t < |terms| && c in BooksCandidates(terms[t], bs)
    ensures c in Candidates(terms, bs)
  {
    var here := BooksCandidates(terms[0], bs);
    var rest := Candidates(terms[1..], bs);
    assert Candidates(terms, bs) == here + rest;
    if t > 0 {
      assert terms[1..][t - 1] == terms[t];
      TermsMember(terms[1..], bs, t - 1, c);
      assert c in rest;
    } else {
      assert c in here;
    }
  }

  function Keys(cs: seq<Candidate>): set<Key> {
    set c | c in cs :: KeyOf(c)
  }

  /** The `found_positions` filter: a candidate is kept only when its key has
      not been met before. */
  function KeepFirst(cs: seq<Candidate>, seen: set<Key>): (r: seq<Candidate>)
    ensures forall c :: c in r ==> c in cs && KeyOf(c) !in seen
    ensures forall i, j :: 0 <= i < j < |r| ==> KeyOf(r[i]) != KeyOf(r[j])
  {
    if |cs| == 0 then []
    else if KeyOf(cs[0]) in seen then KeepFirst(cs[1..], seen)
    else [cs[0]] + KeepFirst(cs[1..], seen + {KeyOf(cs[0])})
  }

  /** Nothing is lost: every key met and not seen before has a kept
      candidate. */
  lemma {:induction false} KeepFirstComplete(cs: seq<Candidate>, seen: set<Key>, c: Candidate)
    requires c in cs && KeyOf(c) !in seen
    ensures exists d :: d in KeepFirst(cs, seen) && KeyOf(d) == KeyOf(c)
  {
    if KeyOf(cs[0]) == KeyOf(c) {
      assert cs[0] in KeepFirst(cs, seen);
    } else {
      var next := if KeyOf(cs[0]) in seen then seen else seen + {KeyOf(cs[0])};
      KeepFirstComplete(cs[1..], next, c);
      var d :| d in KeepFirst(cs[1..], next) && KeyOf(d) == KeyOf(c);
      assert d in KeepFirst(cs, seen);
    }
  }

  // ---------------------------------------------------------------- snippets

  /** The snippet window: up to 150 characters either side of the match,
      clipped to the text. */
  function Window(textLen: nat, idx: nat, termLen: nat): (w: (nat, nat))
    requires idx + termLen <= textLen
    ensures w.0 <= idx && idx + termLen <= w.1 <= textLen
    ensures idx - w.0 == if idx < SnippetRadius then idx else SnippetRadius
    ensures w.1 - (idx + termLen) == if textLen - (idx + termLen) < SnippetRadius then textLen - (idx + termLen) else SnippetRadius
  {
    (if idx < SnippetRadius then 0 else idx - SnippetRadius,
     if idx + termLen + SnippetRadius < textLen then idx + termLen + SnippetRadius else textLen)
  }

  lemma SliceOfSlice(s: string, a: int, b: int, i: int, j: int)
    requires 0 <= a <= b <= |s| && 0 <= i <= j <= b - a
    ensures s[a..b][i..j] == s[a + i..a + j]
  {
    assert forall k :: 0 <= k < j - i ==> s[a..b][i..j][k] == s[a + i + k];
  }

  /** The highlighted snippet, wrapped in "...": the window with the matched
      characters between `<mark>` and `</mark>`. */
  function Highlight(text: string, idx: nat, termLen: nat): (r: string)
    requires idx + termLen <= |text|
    ensures var w := Window(|text|, idx, termLen);
      r == "..." + text[w.0..idx] + "<mark>" + text[idx..idx + termLen] + "</mark>" + text[idx + termLen..w.1] + "..."
  {
    var w := Window(|text|, idx, termLen);
    var snippet := text[w.0..w.1];
    var hs := idx - w.0;
    var he := hs + termLen;
    SliceOfSlice(text, w.0, w.1, 0, hs);
    SliceOfSlice(text, w.0, w.1, hs, he);
    SliceOfSlice(text, w.0, w.1, he, w.1 - w.0);
    "..." + (snippet[..hs] + "<mark>" + snippet[hs..he] + "</mark>" + snippet[he..]) + "..."
  }

  /** Lower-casing commutes with slicing. */
  lemma LowerSlice(s: string, a: int, b: int)
    requires 0 <= a <= b <= |s|
    ensures Lower(s[a..b]) == Lower(s)[a..b]
  {
  }

  /** The marked characters are, up to case, exactly the search term. */
  lemma MarkedIsTerm(c: Candidate)
    requires Genuine(c)
    ensures Lower(c.page.text[c.idx..c.idx + |c.term|]) == c.term
  {
    LowerSlice(c.page.text, c.idx, c.idx + |c.term|);
  }

  /** One result row. */
  datatype Hit = Hit(bookId: int, bookTitle: string, authorName: string, snippet: string,
                     pageNumber: int, position: nat, searchTerm: string)

  function HitOf(c: Candidate): (h: Hit)
    requires Genuine(c)
    ensures h.bookId == c.book.id && h.bookTitle == c.book.title && h.pageNumber == c.page.number
    ensures h.position == c.idx && h.searchTerm == c.term
  {
    Hit(c.book.id, c.book.title, c.book.authorName, Highlight(c.page.text, c.idx, |c.term|),
        c.page.number, c.idx, c.term)
  }

  function HitsOf(cs: seq<Candidate>): (hs: seq<Hit>)
    requires forall c :: c in cs ==> Genuine(c)
    ensures |hs| == |cs| && forall k :: 0 <= k < |cs| ==> hs[k] == HitOf(cs[k])
  {
    seq(|cs|, k requires 0 <= k < |cs| => HitOf(cs[k]))
  }

  /** The AI-context line `"[{title}, {page}-sahifa]: {snippet}"`, with the raw
      (unhighlighted) window. */
  function ContextOf(c: Candidate): string
    requires Genuine(c)
  {
    var w := Window(|c.page.text|, c.idx, |c.term|);
    "[" + c.book.title + ", " + IntToString(c.page.number) + "-sahifa]: " + c.page.text[w.0..w.1]
  }

  // ---------------------------------------------------------------- ordering

  /** Python's `str` ordering: code point by code point, a proper prefix first. */
  predicate StrLess(a: string, b: string) {
    if |a| == 0 then |b| > 0
    else if |b| == 0 then false
    else a[0] < b[0] || (a[0] == b[0] && StrLess(a[1..], b[1..]))
  }

  lemma {:induction false} StrLessTotal(a: string, b: string)
    ensures a == b || StrLess(a, b) || StrLess(b, a)
  {
    if |a| > 0 && |b| > 0 && a[0] == b[0] {
      StrLessTotal(a[1..], b[1..]);
      if a[1..] == b[1..] {
        assert a == [a[0]] + a[1..] && b == [b[0]] + b[1..];
      }
    }
  }

  /** The sort key `(book_title, page_number, position)`, compared as a tuple. */
  predicate HitLe(x: Hit, y: Hit) {
    StrLess(x.bookTitle, y.bookTitle)
    || (x.bookTitle == y.bookTitle
        && (x.pageNumber < y.pageNumber || (x.pageNumber == y.pageNumber && x.position <= y.position)))
  }

  lemma HitLeTotal(x: Hit, y: Hit)
    ensures HitLe(x, y) || HitLe(y, x)
  {
    StrLessTotal(x.bookTitle, y.bookTitle);
  }

  lemma {:induction false} StrLessTrans(a: string, b: string, c: string)
    requires StrLess(a, b) && StrLess(b, c)
    ensures StrLess(a, c)
  {
    if |a| > 0 && a[0] == b[0] && b[0] == c[0] {
      StrLessTrans(a[1..], b[1..], c[1..]);
    }
  }

  /** Together with `HitLeTotal`, the sort key is a total preorder. */
  lemma {:induction false} HitLeTrans(x: Hit, y: Hit, z: Hit)
    requires HitLe(x, y) && HitLe(y, z)
    ensures HitLe(x, z)
  {
    if StrLess(x.bookTitle, y.bookTitle) && StrLess(y.bookTitle, z.bookTitle) {
      StrLessTrans(x.bookTitle, y.bookTitle, z.bookTitle);
    }
  }

  predicate Sorted(s: seq<Hit>) {
    forall i :: 0 < i < |s| ==> HitLe(s[i - 1], s[i])
  }

  /** In a sorted list every hit sorts no later than every hit after it. */
  lemma {:induction false} SortedEveryPair(s: seq<Hit>, i: int, j: int)
    requires Sorted(s) && 0 <= i <= j < |s|
    ensures HitLe(s[i], s[j])
    decreases j - i
  {
    if i < j {
      SortedEveryPair(s, i, j - 1);
      HitLeTrans(s[i], s[j - 1], s[j]);
    }
  }

  /** The sort key `(book_title, page_number, position)` as a value. */
  function SortKey(h: Hit): (string, int, int) {
    (h.bookTitle, h.pageNumber, h.position)
  }

  /** `[h]` when `h` has key `k`, otherwise nothing. */
  function Tied(h: Hit, k: (string, int, int)): seq<Hit> {
    if SortKey(h) == k then [h] else []
  }

  /** The hits of `s` whose sort key is `k`, in their order in `s`. */
  function WithKey(s: seq<Hit>, k: (string, int, int)): seq<Hit> {
    if |s| == 0 then [] else Tied(s[0], k) + WithKey(s[1..], k)
  }

  lemma {:induction false} WithKeyCons(x: Hit, s: seq<Hit>, k: (string, int, int))
    ensures WithKey([x] + s, k) == Tied(x, k) + WithKey(s, k)
  {
    assert ([x] + s)[1..] == s;
  }

  /** Two hits with different keys never both have key `k`. */
  lemma {:induction false} TiedSwap(a: Hit, b: Hit, t: seq<Hit>, k: (string, int, int))
    requires SortKey(a) != SortKey(b)
    ensures Tied(a, k) + (Tied(b, k) + t) == Tied(b, k) + (Tied(a, k) + t)
  {
  }

  /** Inserting keeps `x` ahead of every hit with the same key. */
  lemma {:induction false} InsertStable(x: Hit, s: seq<Hit>, k: (string, int, int))
    requires Sorted(s)
    ensures WithKey(Insert(x, s), k) == WithKey([x] + s, k)
    decreases |s|
  {
    if |s| > 0 && !HitLe(x, s[0]) {
      var rest := Insert(x, s[1..]);
      assert Insert(x, s) == [s[0]] + rest;
      InsertStable(x, s[1..], k);
      WithKeyCons(s[0], rest, k);
      WithKeyCons(x, s[1..], k);
      assert WithKey(Insert(x, s), k) == Tied(s[0], k) + (Tied(x, k) + WithKey(s[1..], k));
      TiedSwap(s[0], x, WithKey(s[1..], k), k);
      WithKeyCons(s[0], s[1..], k);
      assert s == [s[0]] + s[1..];
      WithKeyCons(x, s, k);
    }
  }

  /** The sort is stable, as Python's `list.sort` is: hits with equal keys
      keep their input order. */
  lemma {:induction false} SortStable(s: seq<Hit>, k: (string, int, int))
    ensures WithKey(SortHits(s), k) == WithKey(s, k)
  {
    if |s| > 0 {
      SortStable(s[1..], k);
      InsertStable(s[0], SortHits(s[1..]), k);
      WithKeyCons(s[0], SortHits(s[1..]), k);
      WithKeyCons(s[0], s[1..], k);
      assert s == [s[0]] + s[1..];
    }
  }

  /** Insert `x` before the first element it sorts before. */
  function Insert(x: Hit, s: seq<Hit>): (r: seq<Hit>)
    requires Sorted(s)
    ensures Sorted(r) && multiset(r) == multiset(s) + multiset{x}
    ensures r[0] == x || (|s| > 0 && r[0] == s[0])
  {
    if |s| == 0 then [x]
    else if HitLe(x, s[0]) then [x] + s
    else
      HitLeTotal(x, s[0]);
      var rest := Insert(x, s[1..]);
      assert s == [s[0]] + s[1..];
      [s[0]] + rest
  }

  /** `all_found_snippets.sort(key=...)`: a sorted permutation of the hits. */
  function SortHits(s: seq<Hit>): (r: seq<Hit>)
    ensures Sorted(r) && multiset(r) == multiset(s)
  {
    if |s| == 0 then []
    else
      assert s == [s[0]] + s[1..];
      Insert(s[0], SortHits(s[1..]))
  }

  // ---------------------------------------------------------------- response

  /** What the view answers to a well-formed POST. */
  datatype Response =
    | EmptyQuery
    | NoBooks
    | Found(results: seq<Hit>, aiResponse: Option<string>, searchInfo: Option<string>,
            message: string, totalOccurrences: nat, uniqueBooks: nat)

  /** The question words the query may start with. */
  const QuestionWords: seq<string> :=
    ["nima", "kim", "qanday", "qachon", "nega", "qaysi", "qayer", "necha", "qancha", "nimaga"]

  predicate IsQuestion(query: string, analysis: Option<Analysis>) {
    (analysis.Some? && analysis.value.isQuestion)
    || EndsWith(query, "?")
    || exists k :: 0 <= k < |QuestionWords| && StartsWith(Lower(query), QuestionWords[k])
  }

  /** `search_info`: the correction notice and/or the first three terms. */
  function SearchInfo(query: string, analysis: Option<Analysis>, terms: seq<string>): (r: Option<string>)
    ensures r.None? <==> |terms| <= 1 && !(analysis.Some? && analysis.value.corrected != ""
                                          && Lower(analysis.value.corrected) != Lower(query))
  {
    var corrected :=
      if analysis.Some? && analysis.value.corrected != "" && Lower(analysis.value.corrected) != Lower(query)
      then Some("Tuzatildi: \"" + analysis.value.corrected + "\"") else None;
    if |terms| > 1 then
      var shown := if |terms| <= 3 then terms else terms[..3];
      Some((if corrected.Some? then corrected.value + " | " else "") + "Qidirildi: " + Join(shown, ", "))
    else corrected
  }

  function Message(query: string, total: nat, books: nat): string {
    if total > 0 then "'" + query + "' bo'yicha " + IntToString(total) + " ta natija topildi ("
                      + IntToString(books) + " ta kitobda)"
    else "'" + query + "' kitoblardan topilmadi"
  }

  /** The books searched: one author's when `author_id` is given and truthy,
      otherwise all. */
  function SelectBooks(all: seq<SearchBook>, authorId: Option<int>): (r: seq<SearchBook>)
    ensures forall b :: b in r <==> b in all && (authorId.None? || authorId.value == 0 || b.authorId == authorId.value)
  {
    if authorId.None? || authorId.value == 0 then all
    else if |all| == 0 then []
    else (if all[0].authorId == authorId.value then [all[0]] else []) + SelectBooks(all[1..], authorId)
  }

  /** The kept candidates of a query, in scan order. */
  function Kept(terms: seq<string>, books: seq<SearchBook>): (r: seq<Candidate>)
    ensures forall c :: c in r ==> Genuine(c)
  {
    KeepFirst(Candidates(SearchedTerms(terms), books), {})
  }

  function Contexts(cs: seq<Candidate>): (r: seq<string>)
    requires forall c :: c in cs ==> Genuine(c)
    ensures |r| == |cs|
  {
    seq(|cs|, k requires 0 <= k < |cs| => ContextOf(cs[k]))
  }

  /** The hits of a query over the selected books, in response order. */
  function AllHits(query: string, books: seq<SearchBook>, analysis: Option<Analysis>): (hs: seq<Hit>)
    ensures Sorted(hs)
    ensures multiset(hs) == multiset(HitsOf(Kept(SearchTerms(query, analysis), books)))
  {
    SortHits(HitsOf(Kept(SearchTerms(query, analysis), books)))
  }

  /** Hits that tie on the sort key come out in scan order, which decides
      which of them fall within the first 20. */
  lemma {:induction false} AllHitsStable(query: string, books: seq<SearchBook>, analysis: Option<Analysis>,
                      k: (string, int, int))
    ensures WithKey(AllHits(query, books, analysis), k)
         == WithKey(HitsOf(Kept(SearchTerms(query, analysis), books)), k)
  {
    SortStable(HitsOf(Kept(SearchTerms(query, analysis), books)), k);
  }

  /** The first `n` elements (all of them when there are fewer). */
  function Cap<T>(s: seq<T>, n: nat): (r: seq<T>)
    ensures |r| == if |s| < n then |s| else n
    ensures r == s[..|r|]
  {
    if |s| <= n then s else s[..n]
  }

  function BookIds(hs: seq<Hit>): set<int> {
    set h | h in hs :: h.bookId
  }

  /** The AI answer is asked for only for a question with at least one
      context snippet (at most five are sent). */
  function AiAnswer(query: string, analysis: Option<Analysis>, kept: seq<Candidate>,
                    answer: Option<string>): (r: Option<string>)
    requires forall c :: c in kept ==> Genuine(c)
    ensures r.Some? ==> IsQuestion(query, analysis) && kept != []
    ensures IsQuestion(query, analysis) && kept != [] ==> r == answer
  {
    var relevant := Cap(Contexts(kept), MaxContexts);
    if IsQuestion(query, analysis) && relevant != [] then answer else None
  }

  /** The successful response: the first twenty hits in sort order, and the
      count of all of them. */
  function FoundResponse(query: string, books: seq<SearchBook>,
                         analysis: Option<Analysis>, answer: Option<string>): (r: Response)
    ensures r.Found?
    ensures r.totalOccurrences == |AllHits(query, books, analysis)|
    ensures r.results == Cap(AllHits(query, books, analysis), MaxResults)
  {
    var terms := SearchTerms(query, analysis);
    var hits := AllHits(query, books, analysis);
    Found(Cap(hits, MaxResults), AiAnswer(query, analysis, Kept(terms, books), answer),
          SearchInfo(query, analysis, terms),
          Message(query, |hits|, |BookIds(hits)|), |hits|, |BookIds(hits)|)
  }

  /** The listed results are sorted, and are the first twenty of all hits. */
  lemma ResultsSorted(query: string, books: seq<SearchBook>, analysis: Option<Analysis>, answer: Option<string>)
    ensures var r := FoundResponse(query, books, analysis, answer);
      Sorted(r.results) && r.totalOccurrences >= |r.results|
      && (r.totalOccurrences >= MaxResults ==> |r.results| == MaxResults)
  {
  }

  /** `ai_search_books` for a POST whose body parsed: `rawQuery` is the
      `query` field, `answer` what the answering call returns. */
  function SearchBooks(rawQuery: string, authorId: Option<int>, all: seq<SearchBook>,
                       analysis: Option<Analysis>, answer: Option<string>): (r: Response)
    ensures Strip(rawQuery) == "" <==> r == EmptyQuery
    ensures r == NoBooks <==> Strip(rawQuery) != "" && SelectBooks(all, authorId) == []
    ensures r.Found? ==> r == FoundResponse(Strip(rawQuery), SelectBooks(all, authorId), analysis, answer)
  {
    var query := Strip(rawQuery);
    if query == "" then EmptyQuery
    else
      var books := SelectBooks(all, authorId);
      if books == [] then NoBooks
      else FoundResponse(query, books, analysis, answer)
  }
}
