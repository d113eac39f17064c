/** `sample_pagerank`: estimate each page's rank by the share of `n` random
    surfer steps that land on it. The random choices are given: `pick` is
    the index `random.choice` draws from the listing, and `draws` holds the
    page each call of `random.choices` returns. */
module Sampler {
  import opened PageGraph
  import opened Transition

  /** One more visit to `p`: `pagerank.get(state, 0) + 1`. */
  function Bump(counts: map<Page, nat>, p: Page): (r: map<Page, nat>)
    ensures r.Keys == counts.Keys + {p}
    ensures r[p] >= 1
    ensures forall q | q in counts && q != p :: r[q] == counts[q]
  {
    counts[p := (if p in counts then counts[p] else 0) + 1]
  }

  /** The visit counters after the draws, counted in order. */
  function Tally(draws: seq<Page>): (r: map<Page, nat>)
    ensures forall p | p in r :: r[p] >= 1
  {
    if draws == [] then map[] else Bump(Tally(draws[..|draws| - 1]), draws[|draws| - 1])
  }

  /** Sum of the counters of the listed pages; a page never visited has none.
      Kept apart from `Mass` because `sum(pagerank.values())` adds integer
      counts: the total is a whole number, and only the division turns the
      counters into reals. */
  function TotalCount(pages: seq<Page>, counts: map<Page, nat>): (r: nat)
    ensures forall i | 0 <= i < |pages| && pages[i] in counts :: counts[pages[i]] <= r
  {
    if pages == [] then 0
    else (if pages[0] in counts then counts[pages[0]] else 0) + TotalCount(pages[1..], counts)
  }

  /** Every counter divided by the total. */
  function Normalise(counts: map<Page, nat>, total: nat): (r: map<Page, real>)
    requires total > 0 || counts == map[]
    ensures r.Keys == counts.Keys
    ensures forall k | k in r :: r[k] * total as real == counts[k] as real
  {
    map k | k in counts :: counts[k] as real / total as real
  }

  /** What `sample_pagerank` returns after the given draws. */
  function Estimate(pages: seq<Page>, draws: seq<Page>): (r: map<Page, real>)
    requires Distinct(pages) && Elems(draws) <= Elems(pages)
    ensures r.Keys == Elems(draws)
  {
    TallyTotal(pages, draws);
    TallyCounts(draws);
    Normalise(Tally(draws), TotalCount(pages, Tally(draws)))
  }

  /** `sample_pagerank(corpus, damping_factor, n)`. Choosing the first page
      from an empty corpus fails; otherwise the result is the estimate of
      the draws. Each step's draw is the given page; there are `n` of them,
      none when `n` is not positive (`range(n)` is then empty). */
  method SamplePagerank(corpus: Corpus, pages: seq<Page>, damping: real, n: int,
                        pick: nat, draws: seq<Page>) returns (r: Result<map<Page, real>>)
    requires IsListing(pages, corpus)
    requires pick < |pages| || pages == []
    requires |draws| == (if n > 0 then n else 0)
    requires pages != [] ==> forall i | 0 <= i < |draws| :: draws[i] in corpus
    ensures r.Err? <==> corpus.Keys == {}
    ensures r.Err? ==> r.error == EmptyCorpus
    ensures r.Ok? ==> Elems(draws) <= Elems(pages) && r.value == Estimate(pages, draws)
    ensures r.Ok? && n <= 0 ==> r.value == map[]
  {
    if |pages| == 0 {
      return Err(EmptyCorpus);
    }
    var state := pages[pick];
    var counts := Walk(corpus, state, damping, draws);
    DrawsListed(corpus, pages, draws);
    TallyTotal(pages, draws);
    var total := TotalCount(pages, counts);
    r := Ok(Normalise(counts, total));
  }

  /** The `for i in range(n)` loop: from `state`, take one surfer step per
      draw and count a visit to each page it lands on. */
  method Walk(corpus: Corpus, state: Page, damping: real, draws: seq<Page>)
    returns (counts: map<Page, nat>)
    requires state in corpus
    requires forall i | 0 <= i < |draws| :: draws[i] in corpus
    ensures counts == Tally(draws)
  {
    var current := state;
    counts := map[];
    var i := 0;
    while i < |draws|
      invariant i <= |draws|
      invariant current in corpus
      invariant counts == Tally(draws[..i])
    {
      current := NextState(corpus, current, damping, draws[i]);
      counts := Bump(counts, current);
      TallyNext(draws, i);
      i := i + 1;
    }
    assert draws[..i] == draws;
  }

  /** Counting the draws up to `i` and then draw `i`. */
  lemma TallyNext(draws: seq<Page>, i: nat)
    requires i < |draws|
    ensures Tally(draws[..i + 1]) == Bump(Tally(draws[..i]), draws[i])
  {
    assert draws[..i + 1][..i] == draws[..i];
  }

  /** Draws from the corpus are listed pages. */
  lemma DrawsListed(corpus: Corpus, pages: seq<Page>, draws: seq<Page>)
    requires IsListing(pages, corpus)
    requires forall i | 0 <= i < |draws| :: draws[i] in corpus
    ensures Elems(draws) <= Elems(pages)
  {
  }

  /** One step of the surfer: the model of `state` is computed, and
      `random.choices` over its keys returns the given draw, one of them. */
  method NextState(corpus: Corpus, state: Page, damping: real, draw: Page) returns (next: Page)
    requires state in corpus && draw in corpus
    ensures next == draw
  {
    var model := TransitionModel(corpus, state, damping);
    assert model.Ok? && draw in model.value;
    next := draw;
  }

  /** The counter of a page is the number of times it was drawn, and only
      drawn pages have one. */
  lemma {:induction false} TallyCounts(draws: seq<Page>)
    ensures Tally(draws).Keys == Elems(draws)
    ensures forall p | p in Tally(draws) :: Tally(draws)[p] == multiset(draws)[p]
  {
    if draws != [] {
      var init := draws[..|draws| - 1];
      var x := draws[|draws| - 1];
      TallyCounts(init);
      assert draws == init + [x];
      assert multiset(draws) == multiset(init) + multiset{x};
      assert Elems(draws) == Elems(init) + {x};
    }
  }

  /** No counter exceeds the number of draws. */
  lemma {:induction false} TallyAtMost(draws: seq<Page>, p: Page)
    requires p in Tally(draws)
    ensures Tally(draws)[p] <= |draws|
  {
    var init := draws[..|draws| - 1];
    if p in Tally(init) {
      TallyAtMost(init, p);
    }
  }

  /** Counting a visit to a page outside the listing leaves its total alone. */
  lemma {:induction false} TotalCountElsewhere(pages: seq<Page>, counts: map<Page, nat>, x: Page)
    requires x !in pages
    ensures TotalCount(pages, Bump(counts, x)) == TotalCount(pages, counts)
  {
    if pages != [] {
      TotalCountElsewhere(pages[1..], counts, x);
    }
  }

  /** Counting a visit to a listed page raises the total by one. */
  lemma {:induction false} TotalCountBump(pages: seq<Page>, counts: map<Page, nat>, x: Page)
    requires Distinct(pages) && x in pages
    ensures TotalCount(pages, Bump(counts, x)) == TotalCount(pages, counts) + 1
  {
    var rest := pages[1..];
    if pages[0] == x {
      assert x !in rest by {
        forall k | 0 <= k < |rest| ensures rest[k] != x {
          assert rest[k] == pages[k + 1];
        }
      }
      TotalCountElsewhere(rest, counts, x);
    } else {
      assert x in rest;
      assert Distinct(rest) by {
        forall i, j | 0 <= i < j < |rest| ensures rest[i] != rest[j] {
          assert rest[i] == pages[i + 1] && rest[j] == pages[j + 1];
        }
      }
      TotalCountBump(rest, counts, x);
    }
  }

  /** The counters add up to the number of draws (`sum(pagerank.values()) == n`). */
  lemma {:induction false} TallyTotal(pages: seq<Page>, draws: seq<Page>)
    requires Distinct(pages) && Elems(draws) <= Elems(pages)
    ensures TotalCount(pages, Tally(draws)) == |draws|
  {
    if draws != [] {
      var init := draws[..|draws| - 1];
      assert Elems(init) <= Elems(draws);
      TallyTotal(pages, init);
      var x := draws[|draws| - 1];
      assert x in Elems(draws) && x in pages;
      assert Tally(draws) == Bump(Tally(init), x);
      TotalCountBump(pages, Tally(init), x);
    } else {
      TotalCountNone(pages);
    }
  }

  lemma {:induction false} TotalCountNone(pages: seq<Page>)
    ensures TotalCount(pages, map[]) == 0
  {
    if pages != [] {
      TotalCountNone(pages[1..]);
    }
  }

  /** Dividing every counter by `total` divides their sum by `total`. */
  lemma {:induction false} MassNormalised(pages: seq<Page>, counts: map<Page, nat>, total: nat)
    requires total > 0
    ensures Mass(pages, Normalise(counts, total)) == TotalCount(pages, counts) as real / total as real
  {
    if pages != [] {
      MassNormalised(pages[1..], counts, total);
      var c := if pages[0] in counts then counts[pages[0]] else 0;
      AddQuotients(c, TotalCount(pages[1..], counts), total);
    }
  }

  /** Sharing the same denominator; kept apart from the recursion above,
      whose context the solver does not reduce on its own. */
  lemma AddQuotients(a: nat, b: nat, t: nat)
    requires t > 0
    ensures a as real / t as real + b as real / t as real == (a + b) as real / t as real
  {
  }

  lemma RatioBounds(c: nat, t: nat)
    requires 1 <= c <= t
    ensures 0.0 < c as real / t as real <= 1.0
    ensures c == t ==> c as real / t as real == 1.0
  {
  }

  /** For at least one draw, the estimate is a probability distribution over
      the pages drawn: each value is that page's share of the draws, lies in
      (0, 1], and the values sum to 1. */
  lemma EstimateIsDistribution(pages: seq<Page>, draws: seq<Page>)
    requires Distinct(pages) && Elems(draws) <= Elems(pages) && |draws| > 0
    ensures Estimate(pages, draws).Keys == Elems(draws)
    ensures forall p | p in Estimate(pages, draws) ::
              Estimate(pages, draws)[p] == multiset(draws)[p] as real / |draws| as real
              && 0.0 < Estimate(pages, draws)[p] <= 1.0
    ensures Mass(pages, Estimate(pages, draws)) == 1.0
  {
    var counts := Tally(draws);
    var e := Estimate(pages, draws);
    TallyCounts(draws);
    TallyTotal(pages, draws);
    forall p | p in e
      ensures e[p] == multiset(draws)[p] as real / |draws| as real && 0.0 < e[p] <= 1.0
    {
      TallyAtMost(draws, p);
      assert e[p] == counts[p] as real / |draws| as real;
      RatioBounds(counts[p], |draws|);
    }
    MassNormalised(pages, counts, |draws|);
    RatioBounds(|draws|, |draws|);
  }

  /** In a corpus of one page every draw lands on it: its estimate is 1. */
  lemma SinglePageEstimate(page: Page, draws: seq<Page>)
    requires |draws| > 0 && Elems(draws) <= {page}
    ensures Estimate([page], draws) == map[page := 1.0]
  {
    EstimateIsDistribution([page], draws);
    assert Elems(draws) == {page} by {
      assert draws[0] in Elems(draws);
    }
    var e := Estimate([page], draws);
    assert Mass([page], e) == e[page];
  }
}
