/** Reading progress as `read_book` keeps it: the furthest page a reader has
    opened, never moving backwards. */
module Reading {
  import opened Wrappers

  /** A `ReadingProgress` row: the page reached and the book's page count
      when it was last saved. */
  datatype Progress = Progress(currentPage: int, totalPages: nat)

  /** `get_or_create` plus the conditional update, for an authenticated
      reader opening page `requested` of a book with `pageCount` pages. A new
      row takes the model's default page (`defaultPage`; the model class is
      not part of this model) and the page count; an existing row moves
      forward only, and then also refreshes the page count. */
  function OpenPage(existing: Option<Progress>, requested: int, pageCount: nat, defaultPage: int): (p: Progress)
    ensures existing.None? ==> p == Progress(defaultPage, pageCount)
    ensures existing.Some? ==>
      p.currentPage == (if requested > existing.value.currentPage then requested else existing.value.currentPage)
    ensures existing.Some? && requested <= existing.value.currentPage ==> p == existing.value
  {
    match existing
    case None => Progress(defaultPage, pageCount)
    case Some(prev) =>
      if requested > prev.currentPage then Progress(requested, pageCount) else prev
  }

  /** Opening the same page again changes nothing. */
  lemma OpenPageIdempotent(p: Progress, requested: int, pageCount: nat, defaultPage: int)
    ensures var once := OpenPage(Some(p), requested, pageCount, defaultPage);
      OpenPage(Some(once), requested, pageCount, defaultPage) == once
  {
  }

  function Max(a: int, b: int): int {
    if a >= b then a else b
  }

  /** The furthest of a starting page and a list of requested pages. */
  function Furthest(start: int, pages: seq<int>): int
    decreases |pages|
  {
    if |pages| == 0 then start else Furthest(Max(start, pages[0]), pages[1..])
  }

  /** A reading session: pages opened one after another. */
  function Session(p: Progress, pages: seq<int>, pageCount: nat, defaultPage: int): Progress
    decreases |pages|
  {
    if |pages| == 0 then p
    else Session(OpenPage(Some(p), pages[0], pageCount, defaultPage), pages[1..], pageCount, defaultPage)
  }

  /** After any session the stored page is the furthest page ever reached:
      never less than where it started, nor than any page opened. */
  lemma {:induction false} SessionReachesFurthest(p: Progress, pages: seq<int>, pageCount: nat, defaultPage: int)
    ensures Session(p, pages, pageCount, defaultPage).currentPage == Furthest(p.currentPage, pages)
    ensures Furthest(p.currentPage, pages) >= p.currentPage
    ensures forall k :: 0 <= k < |pages| ==> Furthest(p.currentPage, pages) >= pages[k]
    decreases |pages|
  {
    if |pages| > 0 {
      var next := OpenPage(Some(p), pages[0], pageCount, defaultPage);
      SessionReachesFurthest(next, pages[1..], pageCount, defaultPage);
      assert forall k :: 1 <= k < |pages| ==> pages[k] == pages[1..][k - 1];
    }
  }
}
