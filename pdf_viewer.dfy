/**
 * The PDF viewer shared by both rename tools: wrap-around page navigation
 * (`get_next_page` / `get_prev_page`) and the part of `event_loop` that
 * opens a document and moves between its pages. The two tools carry the
 * same code for this, so it is modelled once.
 */
module PdfViewer {
  import opened Arith

  /** `get_next_page`: one page on, back to 0 after the last page. */
  function NextPage(page: int, total: int): (r: int)
    ensures r == 0 || r == page + 1
    ensures 0 <= page < total ==> 0 <= r < total && r == (page + 1) % total
  {
    if page + 1 >= total then 0 else page + 1
  }

  /** `get_prev_page`: one page back, on to the last page before the first. */
  function PrevPage(page: int, total: int): (r: int)
    ensures r == total - 1 || r == page - 1
    ensures 0 <= page < total ==> 0 <= r < total && r == (page - 1 + total) % total
  {
    if page - 1 < 0 then total - 1 else page - 1
  }

  /** Going back undoes going on, and going on undoes going back, on every page of a document. */
  lemma NextPrevInverse(page: int, total: int)
    requires 0 <= page < total
    ensures PrevPage(NextPage(page, total), total) == page
    ensures NextPage(PrevPage(page, total), total) == page
  {
  }

  /** `k` presses of the next button. */
  function NextPages(page: int, total: int, k: nat): int {
    if k == 0 then page else NextPage(NextPages(page, total, k - 1), total)
  }

  /** `k` presses of the next button move `k` pages round the document. */
  lemma {:induction false} NextPagesWrap(page: int, total: int, k: nat)
    requires 0 <= page < total
    ensures NextPages(page, total, k) == (page + k) % total
  {
    if k > 0 {
      NextPagesWrap(page, total, k - 1);
      var q := (page + k - 1) % total;
      assert NextPage(q, total) == (q + 1) % total;
      ModSucc(page + k - 1, total);
    }
  }

  /** `((x % n) + 1) % n == (x + 1) % n`. */
  lemma ModSucc(x: int, n: int)
    requires n > 0
    ensures ((x % n) + 1) % n == (x + 1) % n
  {
    var q, r := x / n, x % n;
    if r + 1 == n {
      ModUnique(x + 1, n, q + 1, 0);
      ModUnique(r + 1, n, 1, 0);
    } else {
      ModUnique(x + 1, n, q, r + 1);
      ModUnique(r + 1, n, 0, r + 1);
    }
  }

  /** Pressing next once per page comes back to the page it started from. */
  lemma FullCircle(page: int, total: int)
    requires 0 <= page < total
    ensures NextPages(page, total, total) == page
  {
    NextPagesWrap(page, total, total);
    ModUnique(page + total, total, 1, page);
  }

  /** An opened PDF: where it was opened from and how many pages it has. */
  datatype Doc = Doc(path: string, pageCount: nat)

  /** A page's display list: which document and which page it renders. */
  datatype DisplayList = DisplayList(docPath: string, page: nat)

  /**
   * The viewer's fields. `docName` is `""` both before a document is chosen
   * (Python's `None`) and when an empty name is chosen: the loop treats the
   * two alike.
   */
  datatype ViewerState = ViewerState(page: int, totalPage: int, docName: string)

  /** One event read from the window. */
  datatype ViewerEvent =
    | Closed                                   // the window was closed
    | Timeout                                  // `read(timeout=100)` returned its (non-empty) timeout key
    | DocSelected(path: string, pageCount: nat) // a PDF was chosen; `pageCount` is what it holds
    | Next                                     // the next button or the mouse wheel down
    | Prev                                     // the previous button or the mouse wheel up
    | Other(key: string)                       // any other button, handled after the page update

  /** What the loop does after the navigation part of one iteration. */
  datatype ViewerAction =
    | Quit                   // `break`
    | Skip                   // `continue`: an event while no document is open
    | Proceed(show: bool)    // go on, rendering `page` first when `show` holds

  /** The state the viewer starts in. */
  const Initial: ViewerState := ViewerState(0, 0, "")

  /**
   * One iteration of the loop up to the page update: choosing a document
   * resets the page, every event (a timeout included, its key being
   * non-empty) is ignored while no document is open, and the navigation
   * events wrap around.
   */
  function Step(s: ViewerState, e: ViewerEvent): (ViewerState, ViewerAction) {
    if e.Closed? then (s, Quit)
    else
      var current := if e.DocSelected? then ViewerState(0, e.pageCount, e.path) else s;
      if current.docName == "" then (current, Skip)
      else if e.Next? then (current.(page := NextPage(current.page, current.totalPage)), Proceed(true))
      else if e.Prev? then (current.(page := PrevPage(current.page, current.totalPage)), Proceed(true))
      else (current, Proceed(e.DocSelected?))
  }

  /** The page is on the document whenever the document has a page. */
  predicate InRange(s: ViewerState) {
    s.totalPage >= 0 && (s.totalPage > 0 ==> 0 <= s.page < s.totalPage)
  }

  /** On a document with at least one page, every step keeps the page on it, so the page it renders is one the document has. */
  lemma StepKeepsInRange(s: ViewerState, e: ViewerEvent)
    requires InRange(s)
    ensures InRange(Step(s, e).0)
    ensures var (t, a) := Step(s, e);
            a == Proceed(true) && t.totalPage > 0 ==> 0 <= t.page < t.totalPage
  {
  }

  /** Choosing a document with a name shows its first page. */
  lemma OpenShowsFirstPage(s: ViewerState, path: string, pageCount: nat)
    requires path != ""
    ensures Step(s, DocSelected(path, pageCount)) == (ViewerState(0, pageCount, path), Proceed(true))
  {
  }

  /** Until a document is chosen, only choosing one changes the state, and every other event but closing is skipped. */
  lemma NoDocumentIgnored(s: ViewerState, e: ViewerEvent)
    requires s.docName == "" && !e.DocSelected?
    ensures Step(s, e).0 == s
    ensures !e.Closed? ==> Step(s, e).1 == Skip
  {
  }

  /** The viewer's fields, updated in place by the loop. */
  class Viewer {
    var page: int
    var totalPage: int
    var docName: string

    function State(): ViewerState
      reads this
    {
      ViewerState(page, totalPage, docName)
    }

    constructor ()
      ensures State() == Initial
    {
      page, totalPage, docName := 0, 0, "";
    }

    /** The navigation part of one loop iteration. */
    method HandleEvent(e: ViewerEvent) returns (a: ViewerAction)
      modifies this
      ensures (State(), a) == Step(old(State()), e)
    {
      if e.Closed? {
        return Quit;
      }
      var isPageUpdate := false;
      if e.DocSelected? {
        docName := e.path;
        totalPage := e.pageCount;
        page := 0;
        isPageUpdate := true;
      }
      if docName == "" {
        return Skip;
      }
      if e.Next? {
        page := NextPage(page, totalPage);
        isPageUpdate := true;
      }
      if e.Prev? {
        page := PrevPage(page, totalPage);
        isPageUpdate := true;
      }
      return Proceed(isPageUpdate);
    }
  }
}
