/** One polling cycle of the website change monitor, without threads or I/O:
    the fetched trees of a cycle are stored page by page in completion order,
    each page is classified against the previous cycle's tree, and the two
    tree buffers are swapped. */
module ChangeMonitor {
  import opened Wrappers
  import opened TreeDiff

  type Url = string

  /** The tree of each page, or `None` when fetching or parsing it raised. */
  type Soups = map<Url, Option<Node>>

  /** One completed fetch task: the page and its parsed tree, or `None` when
      the task raised. */
  datatype Fetched = Fetched(page: Url, soup: Option<Node>)

  /** What a cycle reports for one page. */
  datatype Report =
    | Unavailable                         // the fetch failed this cycle
    | NowAvailable                        // it succeeded, but failed in the previous cycle
    | Differences(changes: set<Change>)   // both cycles have a tree: the differ's result

  /** The two buffers of the monitoring loop: `soups` holds the previous
      cycle's trees, `newSoups` is the container the next cycle fills. */
  datatype Monitor = Monitor(pages: seq<Url>, soups: Soups, newSoups: Soups)

  function PagesOf(completed: seq<Fetched>): set<Url> {
    set i | 0 <= i < |completed| :: completed[i].page
  }

  /** The classification of one page, from its previous and current tree. A
      diff is run only when both are present. */
  function Classify(previous: Option<Node>, current: Option<Node>): (r: Report)
    ensures r == Unavailable <==> current.None?
    ensures r == NowAvailable <==> current.Some? && previous.None?
    ensures r.Differences? <==> previous.Some? && current.Some?
    ensures r.Differences? ==> r.changes == FindDifferences(None, None, previous, current)
  {
    if current.None? then Unavailable
    else if previous.None? then NowAvailable
    else Differences(FindDifferences(None, None, previous, current))
  }

  /** `update_soups`: each completed task's tree is stored under its page,
      in completion order, so a page keeps the tree of its last completed
      task and pages that completed no task keep what the map held. */
  function UpdateSoups(soups: Soups, completed: seq<Fetched>): (r: Soups)
    ensures r.Keys == soups.Keys + PagesOf(completed)
  {
    if completed == [] then soups
    else
      var last := completed[|completed| - 1];
      var init := completed[..|completed| - 1];
      assert PagesOf(completed) == PagesOf(init) + {last.page} by {
        assert forall i :: 0 <= i < |init| ==> init[i] == completed[i];
      }
      UpdateSoups(soups, init)[last.page := last.soup]
  }

  /** A page holds the result of its last completed task. */
  lemma {:induction false} LastResultStored(soups: Soups, completed: seq<Fetched>, i: int)
    requires 0 <= i < |completed|
    requires forall j :: i < j < |completed| ==> completed[j].page != completed[i].page
    ensures UpdateSoups(soups, completed)[completed[i].page] == completed[i].soup
  {
    var init := completed[..|completed| - 1];
    if i < |completed| - 1 {
      LastResultStored(soups, init, i);
    }
  }

  /** A page that completed no task keeps its entry. */
  lemma {:induction false} OtherPagesKept(soups: Soups, completed: seq<Fetched>, p: Url)
    requires p in soups && p !in PagesOf(completed)
    ensures UpdateSoups(soups, completed)[p] == soups[p]
  {
    if completed != [] {
      var init := completed[..|completed| - 1];
      assert PagesOf(init) <= PagesOf(completed) by {
        assert forall i :: 0 <= i < |init| ==> init[i] == completed[i];
      }
      OtherPagesKept(soups, init, p);
    }
  }

  /** The initial fetch before monitoring starts: the results are stored into
      empty buffers and nothing is reported. */
  function Start(pages: seq<Url>, completed: seq<Fetched>): (m: Monitor)
    ensures m.soups.Keys == PagesOf(completed) && m.newSoups == map[]
  {
    Monitor(pages, UpdateSoups(map[], completed), map[])
  }

  /** Every monitored page has a tree (or `None`) from the previous cycle. */
  predicate Valid(m: Monitor) {
    forall i :: 0 <= i < |m.pages| ==> m.pages[i] in m.soups
  }

  /** The completed tasks of a cycle are one per monitored page. */
  predicate CoversPages(m: Monitor, completed: seq<Fetched>) {
    (forall i :: 0 <= i < |completed| ==> completed[i].page in m.pages)
    && (forall i :: 0 <= i < |m.pages| ==> m.pages[i] in PagesOf(completed))
  }

  /** One monitoring cycle: store and classify the completed fetches, then
      swap the buffers, so that this cycle's trees become the previous ones
      and the previous ones become the container for the next cycle. */
  function Cycle(m: Monitor, completed: seq<Fetched>): (r: (Monitor, seq<Report>))
    requires Valid(m) && CoversPages(m, completed)
    ensures Valid(r.0)
    ensures r.0.pages == m.pages && r.0.newSoups == m.soups
    ensures |r.1| == |completed|
  {
    var stored := UpdateSoups(m.newSoups, completed);
    // A page is classified right after its own result is stored, so the
    // current tree it is classified with is that task's result.
    var reports := seq(|completed|, i requires 0 <= i < |completed| =>
                         Classify(m.soups[completed[i].page], completed[i].soup));
    (Monitor(m.pages, stored, m.soups), reports)
  }

  predicate DistinctPages(completed: seq<Fetched>) {
    forall i, j :: 0 <= i < j < |completed| ==> completed[i].page != completed[j].page
  }

  /** Per cycle and per page: a failed fetch stores `None` for that page and
      reports it unavailable without a diff; a page that was unavailable in
      the previous cycle is reported available again without a diff; only
      when both trees are present is the differ run, on the previous and the
      current tree. */
  lemma CyclePerPage(m: Monitor, completed: seq<Fetched>, i: int)
    requires Valid(m) && CoversPages(m, completed) && DistinctPages(completed)
    requires 0 <= i < |completed|
    ensures var (next, reports) := Cycle(m, completed);
            var page := completed[i].page;
            && next.soups[page] == completed[i].soup
            && (reports[i] == Unavailable <==> completed[i].soup.None?)
            && (reports[i] == NowAvailable <==> completed[i].soup.Some? && m.soups[page].None?)
            && (reports[i].Differences? <==> completed[i].soup.Some? && m.soups[page].Some?)
            && (reports[i].Differences? ==>
                  reports[i].changes == FindDifferences(None, None, m.soups[page], completed[i].soup))
  {
    LastResultStored(m.newSoups, completed, i);
  }

  /** With one task per page, the stored trees do not depend on the order in
      which the tasks completed. */
  lemma UpdateOrderIrrelevant(soups: Soups, first: seq<Fetched>, second: seq<Fetched>)
    requires DistinctPages(first) && DistinctPages(second)
    requires forall f :: f in first <==> f in second
    ensures UpdateSoups(soups, first) == UpdateSoups(soups, second)
  {
    var a, b := UpdateSoups(soups, first), UpdateSoups(soups, second);
    assert PagesOf(first) == PagesOf(second) by {
      forall p | p in PagesOf(first)
        ensures p in PagesOf(second)
      {
        var i :| 0 <= i < |first| && first[i].page == p;
        assert first[i] in second;
      }
      forall p | p in PagesOf(second)
        ensures p in PagesOf(first)
      {
        var i :| 0 <= i < |second| && second[i].page == p;
        assert second[i] in first;
      }
    }
    forall p | p in a
      ensures a[p] == b[p]
    {
      if p in PagesOf(first) {
        var i :| 0 <= i < |first| && first[i].page == p;
        assert first[i] in second;
        var j :| 0 <= j < |second| && second[j] == first[i];
        LastResultStored(soups, first, i);
        LastResultStored(soups, second, j);
      } else {
        OtherPagesKept(soups, first, p);
        OtherPagesKept(soups, second, p);
      }
    }
  }

  /** The spare buffer's stale contents are never observed: whatever it
      holds, a cycle reports the same and stores the same tree for every
      monitored page. */
  lemma SpareBufferNotObserved(m: Monitor, spare: Soups, completed: seq<Fetched>)
    requires Valid(m) && CoversPages(m, completed)
    ensures var (next, reports) := Cycle(m, completed);
            var (next', reports') := Cycle(m.(newSoups := spare), completed);
            && reports' == reports
            && forall i :: 0 <= i < |m.pages| ==> next'.soups[m.pages[i]] == next.soups[m.pages[i]]
  {
    forall i | 0 <= i < |m.pages|
      ensures UpdateSoups(spare, completed)[m.pages[i]] == UpdateSoups(m.newSoups, completed)[m.pages[i]]
    {
      var p := m.pages[i];
      assert p in PagesOf(completed);
      var k :| 0 <= k < |completed| && completed[k].page == p;
      var last := LastCompletion(completed, k);
      LastResultStored(spare, completed, last);
      LastResultStored(m.newSoups, completed, last);
    }
  }

  /** The last completed task for the page of task `k`. */
  lemma {:induction false} LastCompletion(completed: seq<Fetched>, k: int) returns (last: int)
    requires 0 <= k < |completed|
    ensures k <= last < |completed| && completed[last].page == completed[k].page
    ensures forall j :: last < j < |completed| ==> completed[j].page != completed[last].page
    decreases |completed| - k
  {
    if j :| k < j < |completed| && completed[j].page == completed[k].page {
      last := LastCompletion(completed, j);
    } else {
      last := k;
    }
  }

  lemma SinglePage(url: Url, soup: Option<Node>)
    ensures PagesOf([Fetched(url, soup)]) == {url}
  {
    assert [Fetched(url, soup)][0].page == url;
  }

  /** A page that fails in the initial fetch, succeeds in the first cycle and
      serves the same tree in the second is reported available again, with no
      diff, and then with an empty set of differences. */
  lemma RecoveryScenario(url: Url, tree: Node)
    ensures (SinglePage(url, None); SinglePage(url, Some(tree));
             var m0 := Start([url], [Fetched(url, None)]);
             var (m1, reports1) := Cycle(m0, [Fetched(url, Some(tree))]);
             var (m2, reports2) := Cycle(m1, [Fetched(url, Some(tree))]);
             reports1 == [NowAvailable] && reports2 == [Differences({})])
  {
    SinglePage(url, None);
    SinglePage(url, Some(tree));
    IdenticalCopyHasNoChanges(None, None, Some(tree));
  }
}
