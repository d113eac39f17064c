/** `iterate_pagerank`: start every page at 1/N and sweep the PageRank
    recurrence over the pages, in the listing's order, until the change
    measured at the end of a sweep is at most 0.001. The sweep overwrites
    `pagerank` in place, so a page's update reads the values of the pages
    updated before it in the same sweep. */
module Iterate {
  import opened PageGraph

  /** `converge`, the stopping threshold. */
  const Converge: real := 0.001

  /** `(1 - d) / N`, the share every page gets from the random jump. */
  function Jump(corpus: Corpus, d: real): (r: real)
    requires |corpus| > 0
    ensures d <= 1.0 ==> r >= 0.0
    ensures d >= 0.0 ==> r <= 1.0 / |corpus| as real
  {
    (1.0 - d) / |corpus| as real
  }

  /** `{k: 1 / N for k in corpus.keys()}`. */
  function Initial(corpus: Corpus): (rank: map<Page, real>)
    ensures rank.Keys == corpus.Keys
  {
    map k | k in corpus :: 1.0 / |corpus| as real
  }

  /** What `sum_i` adds for the source page `i` whose rank reads `ri`. The
      set consulted is `corpus[i]`, except that the whole listing replaces it
      when the NAME of `page` is empty: the test looks at `page`, not at `i`. */
  function Share(corpus: Corpus, pages: seq<Page>, page: Page, i: Page, ri: real): (r: real)
    requires i in corpus
    ensures ri >= 0.0 ==> r >= 0.0
    ensures |page| > 0 && corpus[i] == {} ==> r == 0.0
  {
    if |page| == 0 then (if page in pages then ri / |pages| as real else 0.0)
    else if page in corpus[i] then ri / |corpus[i]| as real
    else 0.0
  }

  /** A source whose only link is `page` passes its whole rank to it. */
  lemma ShareSingleLink(corpus: Corpus, pages: seq<Page>, page: Page, i: Page, ri: real)
    requires i in corpus && |page| > 0 && corpus[i] == {page}
    ensures Share(corpus, pages, page, i, ri) == ri
  {
    assert |corpus[i]| == 1;
  }

  /** `pagerank[page]` once the inner loop has visited the first `k` pages
      of the listing: it starts at `(1 - d) / N` and gains `d * sum_i` per
      page. `rank` holds the values before this update; for `i == page` the
      loop reads the partly accumulated `pagerank[page]` itself. */
  function Inflow(corpus: Corpus, pages: seq<Page>, d: real, rank: map<Page, real>,
                  page: Page, k: nat): (r: real)
    requires Within(pages, corpus) && page in corpus && rank.Keys == corpus.Keys
    requires k <= |pages|
    ensures d == 0.0 ==> r == Jump(corpus, d)
  {
    if k == 0 then Jump(corpus, d)
    else
      var acc := Inflow(corpus, pages, d, rank, page, k - 1);
      var i := pages[k - 1];
      acc + d * Share(corpus, pages, page, i, if i == page then acc else rank[i])
  }

  /** One more page of the inner loop, for the value `ri` that it reads. */
  lemma InflowNext(corpus: Corpus, pages: seq<Page>, d: real, rank: map<Page, real>,
                   page: Page, k: nat, acc: real, ri: real, sumI: real)
    requires Within(pages, corpus) && page in corpus && rank.Keys == corpus.Keys
    requires k < |pages| && pages[k] in corpus
    requires acc == Inflow(corpus, pages, d, rank, page, k)
    requires ri == if pages[k] == page then acc else rank[pages[k]]
    requires sumI == Share(corpus, pages, page, pages[k], ri)
    ensures Inflow(corpus, pages, d, rank, page, k + 1) == acc + d * sumI
  {
  }

  /** One iteration of `for page in total_page`: only `pagerank[page]` changes. */
  function Step(corpus: Corpus, pages: seq<Page>, d: real, rank: map<Page, real>, page: Page)
    : (r: map<Page, real>)
    requires Within(pages, corpus) && page in corpus && rank.Keys == corpus.Keys
    ensures r.Keys == rank.Keys
  {
    rank[page := Inflow(corpus, pages, d, rank, page, |pages|)]
  }

  /** The ranks once the sweep has stepped through the first `j` pages. */
  function Swept(corpus: Corpus, pages: seq<Page>, d: real, rank: map<Page, real>, j: nat)
    : (r: map<Page, real>)
    requires Within(pages, corpus) && rank.Keys == corpus.Keys && j <= |pages|
    ensures r.Keys == rank.Keys
  {
    if j == 0 then rank
    else Step(corpus, pages, d, Swept(corpus, pages, d, rank, j - 1), pages[j - 1])
  }

  /** A page the sweep has not reached yet still holds its old rank. */
  lemma {:induction false} SweptAhead(corpus: Corpus, pages: seq<Page>, d: real, rank: map<Page, real>,
                                      j: nat, m: nat)
    requires Within(pages, corpus) && Distinct(pages) && rank.Keys == corpus.Keys && j <= m < |pages|
    ensures Swept(corpus, pages, d, rank, j)[pages[m]] == rank[pages[m]]
  {
    if j > 0 {
      SweptAhead(corpus, pages, d, rank, j - 1, m);
      assert pages[j - 1] != pages[m];
    }
  }

  /** `diff` after a sweep from `before` to `after`: the change of the last
      page of the listing alone; a sweep over no pages leaves it as it was. */
  function LastChange(pages: seq<Page>, before: map<Page, real>, after: map<Page, real>, diff: real): (r: real)
    requires Elems(pages) <= before.Keys && Elems(pages) <= after.Keys
    ensures pages == [] ==> r == diff
    ensures pages != [] ==> r >= 0.0
    ensures pages != [] ==> (r == 0.0 <==> after[pages[|pages| - 1]] == before[pages[|pages| - 1]])
  {
    if pages == [] then diff
    else Abs(after[pages[|pages| - 1]] - before[pages[|pages| - 1]])
  }

  /** The body of `for page in total_page`: reset `pagerank[page]` to the
      random-jump share, then add `d * sum_i` for every page `i`. */
  method UpdatePage(corpus: Corpus, pages: seq<Page>, d: real, rank: map<Page, real>, page: Page)
    returns (next: map<Page, real>)
    requires Within(pages, corpus) && page in corpus && rank.Keys == corpus.Keys
    ensures next == Step(corpus, pages, d, rank, page)
  {
    var n := |corpus|;
    next := rank[page := (1.0 - d) / n as real];
    var k := 0;
    while k < |pages|
      invariant k <= |pages|
      invariant Accumulated(corpus, pages, d, rank, page, k, next)
    {
      var i := pages[k];
      // `p` is `corpus[i]`, or the whole listing when the name `page` is empty
      var inP := if |page| == 0 then page in pages else page in corpus[i];
      var size := if |page| == 0 then |pages| else |corpus[i]|;
      var sumI := if inP then next[i] / size as real else 0.0;
      AccumulateNext(corpus, pages, d, rank, page, k, next, sumI);
      next := next[page := next[page] + d * sumI];
      k := k + 1;
    }
    assert next == Step(corpus, pages, d, rank, page);
  }

  /** The state of `pagerank` after the inner loop has visited `k` pages. */
  ghost predicate Accumulated(corpus: Corpus, pages: seq<Page>, d: real, rank: map<Page, real>,
                              page: Page, k: nat, next: map<Page, real>)
    requires Within(pages, corpus) && page in corpus && rank.Keys == corpus.Keys && k <= |pages|
  {
    && next.Keys == rank.Keys
    && next[page] == Inflow(corpus, pages, d, rank, page, k)
    && forall q | q in rank && q != page :: next[q] == rank[q]
  }

  /** Adding `d * sum_i` for the next page keeps `pagerank` accumulated. */
  lemma AccumulateNext(corpus: Corpus, pages: seq<Page>, d: real, rank: map<Page, real>,
                       page: Page, k: nat, next: map<Page, real>, sumI: real)
    requires Within(pages, corpus) && page in corpus && rank.Keys == corpus.Keys && k < |pages|
    requires Accumulated(corpus, pages, d, rank, page, k, next)
    requires pages[k] in corpus && sumI == Share(corpus, pages, page, pages[k], next[pages[k]])
    ensures Accumulated(corpus, pages, d, rank, page, k + 1, next[page := next[page] + d * sumI])
  {
    var i := pages[k];
    var acc := Inflow(corpus, pages, d, rank, page, k);
    InflowNext(corpus, pages, d, rank, page, k, acc, next[i], sumI);
  }

  /** One pass of the `while` loop's body: every page in turn, then `diff`. */
  method Sweep(corpus: Corpus, pages: seq<Page>, d: real, rank: map<Page, real>, diff: real)
    returns (next: map<Page, real>, nextDiff: real)
    requires Within(pages, corpus) && Distinct(pages) && rank.Keys == corpus.Keys
    ensures next == Swept(corpus, pages, d, rank, |pages|)
    ensures nextDiff == LastChange(pages, rank, next, diff)
  {
    next, nextDiff := rank, diff;
    var j := 0;
    while j < |pages|
      invariant j <= |pages|
      invariant next == Swept(corpus, pages, d, rank, j)
      invariant nextDiff == if j == 0 then diff else Abs(next[pages[j - 1]] - rank[pages[j - 1]])
    {
      var page := pages[j];
      SweptAhead(corpus, pages, d, rank, j, j);
      var pastStep := next[page];
      next := UpdatePage(corpus, pages, d, next, page);
      nextDiff := Abs(next[page] - pastStep);
      j := j + 1;
    }
  }

  /** The `while diff > converge` loop, allowed at most `fuel` sweeps;
      gives the final ranks and `diff`. */
  function Run(corpus: Corpus, pages: seq<Page>, d: real, rank: map<Page, real>, diff: real, fuel: nat)
    : (r: (map<Page, real>, real))
    requires Within(pages, corpus) && rank.Keys == corpus.Keys
    ensures r.0.Keys == corpus.Keys
    decreases fuel
  {
    if diff <= Converge || fuel == 0 then (rank, diff)
    else
      var next := Swept(corpus, pages, d, rank, |pages|);
      Run(corpus, pages, d, next, LastChange(pages, rank, next, diff), fuel - 1)
  }

  /** `iterate_pagerank(corpus, damping_factor)`, stopped after `fuel`
      sweeps if it has not converged by then; `converged` tells which. */
  method IteratePagerank(corpus: Corpus, pages: seq<Page>, d: real, fuel: nat)
    returns (rank: map<Page, real>, converged: bool)
    requires IsListing(pages, corpus)
    ensures rank == Run(corpus, pages, d, Initial(corpus), 1.0, fuel).0
    ensures converged <==> Run(corpus, pages, d, Initial(corpus), 1.0, fuel).1 <= Converge
    ensures 0.0 <= d <= 1.0 ==> forall p | p in rank :: rank[p] >= Jump(corpus, d)
    ensures |corpus| == 0 ==> !converged
  {
    var converge := Converge;
    var diff := 1.0;
    rank := Initial(corpus);
    var sweeps := 0;
    while diff > converge && sweeps < fuel
      invariant sweeps <= fuel
      invariant rank.Keys == corpus.Keys
      invariant Run(corpus, pages, d, rank, diff, fuel - sweeps)
             == Run(corpus, pages, d, Initial(corpus), 1.0, fuel)
      decreases fuel - sweeps
    {
      ghost var before, diffBefore := rank, diff;
      rank, diff := Sweep(corpus, pages, d, rank, diff);
      RunStep(corpus, pages, d, before, diffBefore, fuel - sweeps, rank, diff);
      sweeps := sweeps + 1;
    }
    converged := diff <= converge;
    if 0.0 <= d <= 1.0 {
      InitialAtLeastBase(corpus, d);
      forall p | p in rank ensures rank[p] >= Jump(corpus, d) {
        RunAtLeastBase(corpus, pages, d, Initial(corpus), 1.0, fuel, p);
      }
    }
    if |corpus| == 0 {
      ListingSize(pages, corpus);
      assert corpus == map[] && pages == [] && Initial(corpus) == map[];
      EmptyCorpusNeverConverges(d, fuel);
    }
  }

  /** One sweep of a run that has not stopped leaves the rest of the run to do. */
  lemma RunStep(corpus: Corpus, pages: seq<Page>, d: real, rank: map<Page, real>, diff: real,
                fuel: nat, next: map<Page, real>, nextDiff: real)
    requires Within(pages, corpus) && rank.Keys == corpus.Keys
    requires diff > Converge && fuel > 0
    requires next == Swept(corpus, pages, d, rank, |pages|)
    requires nextDiff == LastChange(pages, rank, next, diff)
    ensures next.Keys == corpus.Keys
    ensures Run(corpus, pages, d, rank, diff, fuel) == Run(corpus, pages, d, next, nextDiff, fuel - 1)
  {
  }

  /** Every page starts at 1/N, which is never below the random-jump share. */
  lemma InitialAtLeastBase(corpus: Corpus, d: real)
    requires 0.0 <= d
    ensures forall p | p in corpus :: Initial(corpus)[p] >= Jump(corpus, d)
  {
    forall p | p in corpus ensures Initial(corpus)[p] >= Jump(corpus, d) {
      assert Initial(corpus)[p] == 1.0 / |corpus| as real;
    }
  }

  /** The initial ranks add up to 1. */
  lemma InitialSumsToOne(corpus: Corpus, pages: seq<Page>)
    requires IsListing(pages, corpus) && corpus.Keys != {}
    ensures Mass(pages, Initial(corpus)) == 1.0
  {
    ListingSize(pages, corpus);
    assert |pages| > 0 by {
      var p :| p in corpus;
      assert p in pages;
    }
    UniformMass(pages, Initial(corpus), |pages|);
  }

  /** `n` listed pages worth 1/n each add up to 1. */
  lemma UniformMass(pages: seq<Page>, m: map<Page, real>, n: nat)
    requires |pages| == n > 0
    requires forall q | q in pages :: q in m && m[q] == 1.0 / n as real
    ensures Mass(pages, m) == 1.0
  {
    MassOfBasePlusShare(pages, m, 1.0 / n as real, 0.0, {});
    TimesIsProduct(n, 1.0 / n as real);
    assert n as real * (1.0 / n as real) == 1.0;
    TimesIsProduct(CountIn(pages, {}), 0.0);
  }

  /** Given non-negative ranks and 0 <= d <= 1, the updated value never
      falls below the random-jump share `(1 - d) / N`. */
  lemma {:induction false} InflowAtLeastBase(corpus: Corpus, pages: seq<Page>, d: real,
                                             rank: map<Page, real>, page: Page, k: nat)
    requires Within(pages, corpus) && page in corpus && rank.Keys == corpus.Keys && k <= |pages|
    requires 0.0 <= d <= 1.0
    requires forall q | q in rank :: rank[q] >= 0.0
    ensures Inflow(corpus, pages, d, rank, page, k) >= Jump(corpus, d)
  {
    if k > 0 {
      InflowAtLeastBase(corpus, pages, d, rank, page, k - 1);
      var acc := Inflow(corpus, pages, d, rank, page, k - 1);
      var i := pages[k - 1];
      var ri := if i == page then acc else rank[i];
      assert Jump(corpus, d) >= 0.0 && ri >= 0.0;
      assert d * Share(corpus, pages, page, i, ri) >= 0.0;
    }
  }

  /** A sweep from non-negative ranks leaves each page it has stepped
      through at or above `(1 - d) / N`, and every page at or above 0. */
  lemma {:induction false} SweptAtLeastBase(corpus: Corpus, pages: seq<Page>, d: real,
                                            rank: map<Page, real>, j: nat)
    requires Within(pages, corpus) && Distinct(pages) && rank.Keys == corpus.Keys && j <= |pages|
    requires 0.0 <= d <= 1.0
    requires forall q | q in rank :: rank[q] >= 0.0
    ensures forall m | 0 <= m < j :: Swept(corpus, pages, d, rank, j)[pages[m]] >= Jump(corpus, d)
    ensures forall q | q in rank :: Swept(corpus, pages, d, rank, j)[q] >= 0.0
  {
    if j > 0 {
      SweptAtLeastBase(corpus, pages, d, rank, j - 1);
      var mid := Swept(corpus, pages, d, rank, j - 1);
      var page := pages[j - 1];
      var r := Swept(corpus, pages, d, rank, j);
      var base := Jump(corpus, d);
      assert page in corpus;
      InflowAtLeastBase(corpus, pages, d, mid, page, |pages|);
      assert r[page] >= base;
      forall m | 0 <= m < j ensures r[pages[m]] >= base {
        if m < j - 1 {
          assert pages[m] != page;
        }
      }
    }
  }

  /** Whatever the fuel, ranks that start at or above `(1 - d) / N` stay
      there: here for the page `q`. */
  lemma {:induction false} RunAtLeastBase(corpus: Corpus, pages: seq<Page>, d: real,
                                          rank: map<Page, real>, diff: real, fuel: nat, q: Page)
    requires IsListing(pages, corpus) && rank.Keys == corpus.Keys && q in corpus
    requires 0.0 <= d <= 1.0
    requires forall p | p in rank :: rank[p] >= Jump(corpus, d)
    ensures Run(corpus, pages, d, rank, diff, fuel).0[q] >= Jump(corpus, d)
    decreases fuel
  {
    if diff > Converge && fuel > 0 {
      var next, nextDiff := SweepAboveJump(corpus, pages, d, rank, diff, fuel);
      RunAtLeastBase(corpus, pages, d, next, nextDiff, fuel - 1, q);
    } else {
      assert Run(corpus, pages, d, rank, diff, fuel).0 == rank;
    }
  }

  /** A sweep of a run that has not stopped, from ranks at or above
      `(1 - d) / N`, keeps every page there. */
  lemma SweepAboveJump(corpus: Corpus, pages: seq<Page>, d: real, rank: map<Page, real>,
                       diff: real, fuel: nat)
    returns (next: map<Page, real>, nextDiff: real)
    requires IsListing(pages, corpus) && rank.Keys == corpus.Keys && |corpus| > 0
    requires 0.0 <= d <= 1.0 && diff > Converge && fuel > 0
    requires forall p | p in rank :: rank[p] >= Jump(corpus, d)
    ensures next.Keys == corpus.Keys
    ensures forall p | p in next :: next[p] >= Jump(corpus, d)
    ensures Run(corpus, pages, d, rank, diff, fuel) == Run(corpus, pages, d, next, nextDiff, fuel - 1)
  {
    next := Swept(corpus, pages, d, rank, |pages|);
    nextDiff := LastChange(pages, rank, next, diff);
    RunStep(corpus, pages, d, rank, diff, fuel, next, nextDiff);
    SweptAtLeastBase(corpus, pages, d, rank, |pages|);
    forall p | p in next ensures next[p] >= Jump(corpus, d) {
      var m :| 0 <= m < |pages| && pages[m] == p;
    }
  }

  /** What the source `i` passes on to `page`: its rank divided by its
      number of links when it links to `page`, nothing otherwise. */
  function BackTerm(corpus: Corpus, rank: map<Page, real>, page: Page, i: Page): (r: real)
    requires i in corpus && rank.Keys == corpus.Keys
  {
    if page in corpus[i] then rank[i] / |corpus[i]| as real else 0.0
  }

  /** What the pages linking to `page` pass on to it, summed over the first
      `k` listed pages. */
  function Backlinks(corpus: Corpus, pages: seq<Page>, rank: map<Page, real>, page: Page, k: nat): (r: real)
    requires Within(pages, corpus) && rank.Keys == corpus.Keys && k <= |pages|
  {
    if k == 0 then 0.0
    else Backlinks(corpus, pages, rank, page, k - 1) + BackTerm(corpus, rank, page, pages[k - 1])
  }

  /** `d` times what the first `k` listed pages pass on to `page`, summed
      term by term as the inner loop adds it. */
  function DampedBacklinks(corpus: Corpus, pages: seq<Page>, d: real, rank: map<Page, real>, page: Page, k: nat): (r: real)
    requires Within(pages, corpus) && rank.Keys == corpus.Keys && k <= |pages|
  {
    if k == 0 then 0.0
    else DampedBacklinks(corpus, pages, d, rank, page, k - 1) + d * BackTerm(corpus, rank, page, pages[k - 1])
  }

  /** The term-by-term sum is `d` times the plain sum. */
  lemma {:induction false} DampedIsScaled(corpus: Corpus, pages: seq<Page>, d: real, rank: map<Page, real>, page: Page, k: nat)
    requires Within(pages, corpus) && rank.Keys == corpus.Keys && k <= |pages|
    ensures DampedBacklinks(corpus, pages, d, rank, page, k) == d * Backlinks(corpus, pages, rank, page, k)
  {
    if k > 0 {
      DampedIsScaled(corpus, pages, d, rank, page, k - 1);
      Distribute(d, Backlinks(corpus, pages, rank, page, k - 1), BackTerm(corpus, rank, page, pages[k - 1]));
    }
  }

  lemma Distribute(d: real, b: real, t: real)
    ensures d * b + d * t == d * (b + t)
  {
  }

  /** For a page with a non-empty name and no link to itself, the inner loop
      over the first `k` pages computes `(1 - d) / N + sum(d * PR(i) / NumLinks(i))`
      over the pages `i` among them linking to it, from the ranks it reads. */
  lemma {:induction false} InflowClosedForm(corpus: Corpus, pages: seq<Page>, d: real,
                                            rank: map<Page, real>, page: Page, k: nat)
    requires Within(pages, corpus) && page in corpus && rank.Keys == corpus.Keys && k <= |pages|
    requires |page| > 0 && page !in corpus[page]
    ensures Inflow(corpus, pages, d, rank, page, k)
         == Jump(corpus, d) + DampedBacklinks(corpus, pages, d, rank, page, k)
  {
    if k > 0 {
      InflowClosedForm(corpus, pages, d, rank, page, k - 1);
      var i := pages[k - 1];
      var acc := Inflow(corpus, pages, d, rank, page, k - 1);
      var ri := if i == page then acc else rank[i];
      ShareIsBackTerm(corpus, pages, rank, page, i, ri);
      InflowNext(corpus, pages, d, rank, page, k - 1, acc, ri, BackTerm(corpus, rank, page, i));
    }
  }

  /** With a non-empty name, a page gets from `i` what `i` passes on to it;
      the value read for `i` only matters when `i` links to the page, which
      is never `i` itself. */
  lemma ShareIsBackTerm(corpus: Corpus, pages: seq<Page>, rank: map<Page, real>, page: Page, i: Page, ri: real)
    requires i in corpus && page in corpus && rank.Keys == corpus.Keys
    requires |page| > 0 && page !in corpus[page]
    requires i != page ==> ri == rank[i]
    ensures Share(corpus, pages, page, i, ri) == BackTerm(corpus, rank, page, i)
  {
  }

  /** A step of the sweep rewrites `pagerank[page]` by the PageRank formula
      `(1 - d) / N + sum(d * PR(i) / NumLinks(i))` over the ranks as they
      stand (earlier pages of the sweep already updated). */
  lemma StepRewritesPage(corpus: Corpus, pages: seq<Page>, d: real, rank: map<Page, real>, page: Page)
    requires Within(pages, corpus) && page in corpus && rank.Keys == corpus.Keys
    requires |page| > 0 && page !in corpus[page]
    ensures Step(corpus, pages, d, rank, page)[page]
         == Jump(corpus, d) + DampedBacklinks(corpus, pages, d, rank, page, |pages|)
  {
    InflowClosedForm(corpus, pages, d, rank, page, |pages|);
  }

  /** A step of the sweep leaves every page other than `page` alone. */
  lemma StepKeepsOthers(corpus: Corpus, pages: seq<Page>, d: real, rank: map<Page, real>, page: Page)
    requires Within(pages, corpus) && page in corpus && rank.Keys == corpus.Keys
    ensures forall q | q in rank && q != page :: Step(corpus, pages, d, rank, page)[q] == rank[q]
  {
  }

  /** When page names are non-empty, a page without links passes nothing on:
      whatever rank it holds, the update of any page comes out the same. */
  lemma {:induction false} DanglingIgnored(corpus: Corpus, pages: seq<Page>, d: real,
                                           rank: map<Page, real>, page: Page, i: Page, x: real, k: nat)
    requires Within(pages, corpus) && page in corpus && rank.Keys == corpus.Keys && k <= |pages|
    requires |page| > 0 && i in corpus && corpus[i] == {}
    ensures Inflow(corpus, pages, d, rank[i := x], page, k) == Inflow(corpus, pages, d, rank, page, k)
  {
    if k > 0 {
      DanglingIgnored(corpus, pages, d, rank, page, i, x, k - 1);
      var j := pages[k - 1];
      var acc := Inflow(corpus, pages, d, rank, page, k - 1);
      var rj := if j == page then acc else rank[j];
      var sumJ := Share(corpus, pages, page, j, rj);
      assert Share(corpus, pages, page, j, if j == page then acc else rank[i := x][j]) == sumJ;
      InflowNext(corpus, pages, d, rank, page, k - 1, acc, rj, sumJ);
      InflowNext(corpus, pages, d, rank[i := x], page, k - 1, acc,
                 if j == page then acc else rank[i := x][j], sumJ);
    }
  }

  /** With no pages a sweep changes nothing and `diff` stays 1, so the
      `while` loop never stops, whatever the fuel. */
  lemma {:induction false} EmptyCorpusNeverConverges(d: real, fuel: nat)
    ensures Run(map[], [], d, map[], 1.0, fuel) == (map[], 1.0)
  {
    if fuel > 0 {
      EmptyCorpusNeverConverges(d, fuel - 1);
    }
  }
}
