/** The "My Saved Jobs" page: the populated records are reduced to their jobs (a record
    whose job was deleted populates to null and is dropped), shown six to a page. */
module SavedJobsPage {
  import opened Base

  const JobsPerPage: nat := 6

  /** `savedJobs.map(item => item.jobId).filter(Boolean)`. */
  function Present<J>(entries: seq<Option<J>>): (r: seq<J>)
    ensures |r| <= |entries|
    ensures (exists i :: 0 <= i < |entries| && entries[i].None?) ==> |r| < |entries|
    ensures forall i :: 0 <= i < |r| ==> Some(r[i]) in entries
    ensures forall i :: 0 <= i < |entries| && entries[i].Some? ==> entries[i].value in r
  {
    if entries == [] then []
    else if entries[0].Some? then [entries[0].value] + Present(entries[1..])
    else Present(entries[1..])
  }

  /** `filter` keeps the list's order: it distributes over concatenation. */
  lemma {:induction false} PresentAppend<J>(a: seq<Option<J>>, b: seq<Option<J>>)
    ensures Present(a + b) == Present(a) + Present(b)
  {
    if a == [] {
      assert a + b == b;
    } else {
      assert (a + b)[1..] == a[1..] + b;
      PresentAppend(a[1..], b);
    }
  }

  /** The jobs shown on page `page`: `slice((page - 1) * 6, page * 6)` of the present jobs. */
  function CurrentJobs<J>(entries: seq<Option<J>>, page: int): (r: seq<J>)
    ensures page >= 1 ==> |r| <= JobsPerPage
    ensures var js := Present(entries);
            page >= 1 && (page - 1) * JobsPerPage <= |js| ==>
              r == js[(page - 1) * JobsPerPage .. if page * JobsPerPage <= |js| then page * JobsPerPage else |js|]
    ensures page >= 1 && (page - 1) * JobsPerPage >= |Present(entries)| ==> r == []
  {
    var last := page * JobsPerPage;
    JsSlice(Present(entries), last - JobsPerPage, last)
  }

  /** `Math.ceil(savedJobs.length / 6)`: the count of pages as written, from the list
      before the null jobs are dropped. */
  function TotalPagesAsWritten<J>(entries: seq<Option<J>>): (t: nat)
    ensures t * JobsPerPage >= |entries| && (t == 0 || (t - 1) * JobsPerPage < |entries|)
    ensures t >= TotalPages(entries)
  {
    CeilDiv(|entries|, JobsPerPage)
  }

  /** The count of pages computed from the jobs that are actually shown. */
  function TotalPages<J>(entries: seq<Option<J>>): (t: nat)
    ensures t * JobsPerPage >= |Present(entries)|
    ensures t == 0 || (t - 1) * JobsPerPage < |Present(entries)|
  {
    CeilDiv(|Present(entries)|, JobsPerPage)
  }

  /** With the count taken from the shown jobs, every numbered page has something on it. */
  lemma EveryPageNonEmpty<J>(entries: seq<Option<J>>, page: int)
    requires 1 <= page <= TotalPages(entries)
    ensures CurrentJobs(entries, page) != []
    ensures |CurrentJobs(entries, page)| == JobsPerPage || page == TotalPages(entries)
  {
    var n := |Present(entries)|;
    var t := TotalPages(entries);
    assert (t - 1) * JobsPerPage < n;
    assert (page - 1) * JobsPerPage <= (t - 1) * JobsPerPage;
    if page < t {
      assert page * JobsPerPage <= (t - 1) * JobsPerPage;
    }
  }

  /** The pages from `first` to `last`, one after another. */
  function PagesFrom<J>(entries: seq<Option<J>>, first: nat, last: nat): seq<J>
    requires 1 <= first
    decreases last + 1 - first
  {
    if first > last then [] else CurrentJobs(entries, first) + PagesFrom(entries, first + 1, last)
  }

  /** Reading the numbered pages in order shows every present job exactly once, in order. */
  lemma PagesCoverAll<J>(entries: seq<Option<J>>)
    ensures PagesFrom(entries, 1, TotalPages(entries)) == Present(entries)
  {
    PagesCoverFrom(entries, 1);
  }

  lemma {:induction false} PagesCoverFrom<J>(entries: seq<Option<J>>, from: nat)
    requires 1 <= from
    requires (from - 1) * JobsPerPage <= |Present(entries)|
    decreases |Present(entries)| - (from - 1) * JobsPerPage
    ensures PagesFrom(entries, from, TotalPages(entries)) == Present(entries)[(from - 1) * JobsPerPage..]
  {
    var js := Present(entries);
    var t := TotalPages(entries);
    var lo := (from - 1) * JobsPerPage;
    if from > t {
      assert t * JobsPerPage >= |js|;
      assert lo >= t * JobsPerPage;
      assert js[lo..] == [];
    } else {
      assert (t - 1) * JobsPerPage < |js|;
      assert lo < |js|;
      if from * JobsPerPage <= |js| {
        PagesCoverFrom(entries, from + 1);
        assert js[lo..] == js[lo..from * JobsPerPage] + js[from * JobsPerPage..];
      } else {
        assert from * JobsPerPage >= t * JobsPerPage;
        assert PagesFrom(entries, from + 1, t) == [];
        assert CurrentJobs(entries, from) == js[lo..];
      }
    }
  }

  /** As written, a deleted job still counts towards the pages. Whenever some record's
      job is gone and the shown jobs fill their pages exactly (seven records, one of them
      for a deleted job, say), the count is one page too many and the last numbered page
      shows nothing; the page then renders its "empty list" message without the page
      buttons. */
  lemma TrailingEmptyPage<J>(entries: seq<Option<J>>, k: nat)
    requires |Present(entries)| == JobsPerPage * k
    requires exists i :: 0 <= i < |entries| && entries[i].None?
    ensures TotalPages(entries) == k
    ensures TotalPagesAsWritten(entries) > k
    ensures CurrentJobs(entries, TotalPagesAsWritten(entries)) == []
  {
    var n := |entries|;
    var w := TotalPagesAsWritten(entries);
    assert n > JobsPerPage * k;
    assert w * JobsPerPage >= n;
    assert (w - 1) * JobsPerPage >= JobsPerPage * k;
  }

  /** The page controls. A numbered button carries its page number. */
  datatype PageNav = PrevPage | NextPage | ClickPage(number: nat)

  function Navigate(page: int, totalPages: nat, nav: PageNav): (r: int)
    ensures nav.PrevPage? ==> r >= 1 && (page > 1 ==> r == page - 1) && (page <= 1 ==> r == 1)
    ensures nav.NextPage? ==> r <= totalPages && (page < totalPages ==> r == page + 1)
                              && (page >= totalPages ==> r == totalPages)
    ensures nav.ClickPage? ==> r == nav.number
  {
    match nav
    case PrevPage => if page - 1 > 1 then page - 1 else 1
    case NextPage => if page + 1 < totalPages then page + 1 else totalPages
    case ClickPage(n) => n
  }

  /** The buttons a page with `totalPages` pages offers: numbers 1 to `totalPages`. */
  predicate Offered(totalPages: nat, nav: PageNav) {
    nav.ClickPage? ==> 1 <= nav.number <= totalPages
  }

  function NavigateAll(page: int, totalPages: nat, navs: seq<PageNav>): int
    decreases |navs|
  {
    if navs == [] then page else NavigateAll(Navigate(page, totalPages, navs[0]), totalPages, navs[1..])
  }

  /** Starting from page 1, any use of the offered controls stays on a numbered page. */
  lemma {:induction false} NavigationStaysInRange(page: int, totalPages: nat, navs: seq<PageNav>)
    requires 1 <= page <= totalPages
    requires forall i :: 0 <= i < |navs| ==> Offered(totalPages, navs[i])
    decreases |navs|
    ensures 1 <= NavigateAll(page, totalPages, navs) <= totalPages
  {
    if navs != [] {
      NavigationStaysInRange(Navigate(page, totalPages, navs[0]), totalPages, navs[1..]);
    }
  }
}
