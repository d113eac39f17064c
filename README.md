# PageRank, modelled in Dafny

`pagerank.py` ranks the pages of a small corpus of HTML files in two ways:

- by simulating a random surfer, who follows a link of the current page
  with probability `d` and jumps to a uniformly chosen page otherwise;
- by iterating the PageRank recurrence until it settles.

This project models the core of that program:

- **`crawl`** keeps only the links that point to other pages of the corpus
  (`crawl.dfy`, module `Crawl`).
- **`transition_model`** gives the surfer's next-page distribution from one
  page. A page without links counts as linking to every page
  (`transition.dfy`, module `Transition`).
- **`sample_pagerank`** counts the pages visited in `n` surfer steps and
  divides each count by the total. The random choices are parameters
  (`sampler.dfy`, module `Sampler`).
- **`iterate_pagerank`** starts every page at `1/N` and sweeps the
  recurrence over the pages in the dictionary's order, overwriting
  `pagerank` in place. It stops when `diff <= 0.001`. The sweep is modelled
  exactly as written (`iterate.dfy`, module `Iterate`):
  - the dangling-page test looks at the page's *name*;
  - an update reads values already updated in the same sweep, including
    the partial sum of the page being updated;
  - `diff` is the change of the last page only.
- Two of these behaviours contradict the function's own docstring, which
  says the ranks sum to 1. `findings.dfy` (module `Findings`) gives, for
  each, a concrete corpus on which the returned ranks do not sum to 1,
  next to the evidently intended definition and its proved property:
  - the name-based dangling test, on `{a: {}, b: {a}}`;
  - the last-page `diff`, on `{a: {b}, b: {a}, c: {a}}`.

Shared definitions live in `graph.dfy` (module `PageGraph`):

- a corpus is a `map<string, set<string>>`;
- the order of `list(corpus.keys())` is an explicit listing `pages`
  (`IsListing`: distinct, and exactly the keys);
- sums over a dictionary are `Mass(pages, m)`;
- probabilities are exact `real`s.

## Model

| member | source | states |
|---|---|---|
| Crawl.RestrictLinks | pagerank.py:39-46 | the corpus has the same pages; a page keeps a target iff it was among its links, is not the page itself and is a page of the corpus |
| Crawl.CrawlLinks | pagerank.py:39-46 | the two loops (drop self-links, then drop targets that are not pages) produce exactly `RestrictLinks` of the raw links |
| Crawl.RestrictedIsWellFormed | pagerank.py:39-46 | after filtering: same keys, no page links to itself, every target is a key |
| Crawl.RestrictIdempotent | pagerank.py:42-46 | filtering an already filtered corpus changes nothing |
| Transition.Linked | pagerank.py:60-63 | the pages followed from `page`: its links when it has some, the whole corpus otherwise; never empty |
| Transition.Probability | pagerank.py:69-77 | the entry for `q`: `(1-d)/N`, plus `d/len(linked)` when `q` is linked; for `0 <= d <= 1` it lies in [0, 1] |
| Transition.Distribution | pagerank.py:73-77 | the distribution has exactly the corpus's pages as keys |
| Transition.TransitionModel | pagerank.py:51-79 | fails with `InvalidPage` exactly when `page` is not in the corpus (the `KeyError`); otherwise every page gets `(1-d)/N`, plus `d/len(linked)` if linked |
| Transition.DistributionNonNegative | pagerank.py:69-77 | for `0 <= d <= 1` no entry is negative |
| Transition.DistributionPositive | pagerank.py:69-77 | for `0 <= d < 1` every page has positive probability |
| Transition.DanglingIsUniform | pagerank.py:60-63 | from a page without links every page has probability exactly `1/N`, whatever `d` |
| Transition.DistributionSumsToOne | pagerank.py:51-79 | when the page's links stay inside the corpus, the entries sum to exactly 1 for every `d` |
| Transition.SharesAddUp | pagerank.py:69-77 | `N` random-jump shares plus `len(linked)` link shares add up to 1 |
| Transition.DanglingTwoPageExample | pagerank.py:60-79 | on `{a: {}, b: {a}}` with `d = 0.85`, the model from `a` is `{a: 0.5, b: 0.5}` |
| Sampler.Bump | pagerank.py:98 | `pagerank.get(state, 0) + 1`: the drawn page gets a counter of at least 1, and every other counter is unchanged |
| Sampler.Tally | pagerank.py:95-98 | the counters after the draws, counted in order; every counter is at least 1 |
| Sampler.TotalCount | pagerank.py:100 | the sum of the counters of the listed pages, so at least each listed counter; it equals `sum(pagerank.values())` when every counted page is listed once (`Sampler.TallyTotal`) |
| Sampler.Normalise | pagerank.py:101 | every counter divided by the total: the same keys, and each value times the total is the counter |
| Sampler.Estimate | pagerank.py:100-101 | what `sample_pagerank` returns after the draws; its keys are exactly the drawn pages |
| Sampler.SamplePagerank | pagerank.py:81-103 | fails exactly on an empty corpus (`random.choice` of nothing), for every `n`; otherwise returns the normalised visit counts of the draws, and `{}` for `n <= 0` (an empty `range(n)`) |
| Sampler.Walk | pagerank.py:94-98 | the loop's counters equal the tally of the pages drawn, in order |
| Sampler.NextState | pagerank.py:96-97 | a surfer step computes the page's model and lands on the drawn page, which is one of the model's keys |
| Sampler.TallyNext | pagerank.py:98 | one more draw adds one visit to the drawn page |
| Sampler.TallyCounts | pagerank.py:98 | the counters are defined exactly on the drawn pages, and each equals the number of times its page was drawn |
| Sampler.TallyAtMost | pagerank.py:98 | no counter exceeds `n` |
| Sampler.TallyTotal | pagerank.py:100 | the counters sum to `n` |
| Sampler.MassNormalised | pagerank.py:100-101 | dividing every counter by `total` divides their sum by `total` |
| Sampler.EstimateIsDistribution | pagerank.py:86-103 | for `n >= 1`: the keys are the visited pages, each value is that page's share of the draws and lies in (0, 1], and the values sum to 1 |
| Sampler.SinglePageEstimate | pagerank.py:91-103 | with one page, its estimate is exactly 1 |
| Sampler.DrawsListed | pagerank.py:97 | every drawn page is a page of the listing |
| Iterate.Jump | pagerank.py:132 | `(1-d)/N`, the random-jump share: non-negative for `d <= 1`, at most the initial `1/N` for `d >= 0` |
| Iterate.Share | pagerank.py:137-143 | what `sum_i` adds for source `i`: `corpus[i]` is consulted, replaced by the whole listing when the NAME of `page` is empty; non-negative for a non-negative rank; a source without links adds 0 whenever the name is non-empty |
| Iterate.Inflow | pagerank.py:132-144 | `pagerank[page]` after the inner loop has visited `k` sources, reading the partly accumulated value when `i == page`; with `d = 0` it stays at `(1-d)/N` |
| Iterate.LastChange | pagerank.py:147 | `diff` after a sweep: unchanged for no pages, otherwise the absolute change of the last listed page, 0 exactly when that page did not move |
| Iterate.Initial | pagerank.py:125 | the initial ranks have exactly the corpus's pages as keys |
| Iterate.InitialSumsToOne | pagerank.py:120-125 | the initial ranks of a non-empty corpus sum to 1 |
| Iterate.InitialAtLeastBase | pagerank.py:125 | for `d >= 0` every initial `1/N` is at least the random-jump share `(1-d)/N` |
| Iterate.InflowNext | pagerank.py:135-144 | one more `i` of the inner loop adds `d * sum_i`, with `sum_i` read from the in-place value |
| Iterate.UpdatePage | pagerank.py:131-144 | the inner loop leaves `pagerank` equal to `Step`: only `pagerank[page]` changes, and it ends at the accumulated sum |
| Iterate.AccumulateNext | pagerank.py:135-144 | each pass of the inner loop keeps `pagerank[page]` equal to the partial sum and every other page unchanged |
| Iterate.Step | pagerank.py:130-144 | a step keeps the set of pages |
| Iterate.Swept | pagerank.py:130-144 | a partial sweep keeps the set of pages |
| Iterate.SweptAhead | pagerank.py:130-131 | a page the sweep has not reached still holds its rank from before the sweep |
| Iterate.Sweep | pagerank.py:130-147 | one pass of the `while` body gives the in-place sweep over all pages, and `diff` is the last page's change (unchanged for no pages) |
| Iterate.Run | pagerank.py:128-147 | the `while` loop under a sweep budget keeps the set of pages |
| Iterate.RunStep | pagerank.py:128-147 | while `diff > 0.001`, one sweep leaves the rest of the run to do |
| Iterate.IteratePagerank | pagerank.py:106-149 | the result is the run from `1/N` and `diff = 1`; `converged` iff the final `diff <= 0.001`; for `0 <= d <= 1` every rank is at least `(1-d)/N`; an empty corpus never converges |
| Iterate.InflowAtLeastBase | pagerank.py:132-144 | from non-negative ranks with `0 <= d <= 1`, the updated value is at least `(1-d)/N` |
| Iterate.SweptAtLeastBase | pagerank.py:130-144 | a sweep from non-negative ranks leaves every swept page at or above `(1-d)/N` and every page non-negative |
| Iterate.SweepAboveJump | pagerank.py:128-147 | a sweep from ranks at or above `(1-d)/N` keeps all of them there |
| Iterate.RunAtLeastBase | pagerank.py:128-147 | ranks that start at or above `(1-d)/N` stay there for any number of sweeps |
| Iterate.InflowClosedForm | pagerank.py:132-144 | for a page with a non-empty name and no self-link, the update is `(1-d)/N + sum(d * PR(i)/NumLinks(i))` over the pages `i` linking to it |
| Iterate.DampedIsScaled | pagerank.py:144 | adding `d * sum_i` term by term is `d` times the sum of the terms |
| Iterate.ShareIsBackTerm | pagerank.py:137-143 | with a non-empty page name, `sum_i` is `PR(i)/NumLinks(i)` if `i` links to the page and 0 otherwise |
| Iterate.StepRewritesPage | pagerank.py:130-144 | a step sets `pagerank[page]` by the PageRank formula over the ranks as they stand mid-sweep |
| Iterate.StepKeepsOthers | pagerank.py:130-144 | a step changes no page other than `page` |
| Iterate.DanglingIgnored | pagerank.py:137-143 | when page names are non-empty, the rank of a page without links has no effect on any update |
| Iterate.EmptyCorpusNeverConverges | pagerank.py:118-130 | with no pages, `diff` stays 1 after any number of sweeps |
| Findings.DanglingRankLost | pagerank.py:139-143 | on `{a: {}, b: {a}}` with `d = 0.85`, the first sweep gives `{a: 0.5, b: 0.075}`, which sums to 0.575 |
| Findings.DanglingShareExample | pagerank.py:137-143 | on that corpus, the code passes none of `a`'s rank to either page, while the intended rule passes half to each |
| Findings.OutflowConserved | pagerank.py:137-143 | with the intended rule, the shares a page passes on sum to exactly its rank |
| Findings.StopsOnLastPage | pagerank.py:128-147 | on that corpus, given at least 2 sweeps, the run stops after the second with `diff = 0`, although `a` moved by 0.36125 in that sweep (the stopping test only: these ranks are settled, and their total of 0.21375 is the dangling test's doing) |
| Findings.SecondSweep | pagerank.py:130-144 | the second sweep on that corpus moves `a` from 0.5 to 0.13875 and leaves `b` at 0.075 |
| Findings.ExampleSettled | pagerank.py:130-144 | one more sweep from `{a: 0.13875, b: 0.075}` gives the same ranks back |
| Findings.CycleStepA | pagerank.py:130-144 | on `{a: {b}, b: {a}, c: {a}}`, listed `a, b, c`, with `d = 0.85`, updating `a` sets it to `0.05 + 0.85·PR(b) + 0.85·PR(c)` and changes nothing else |
| Findings.CycleStepB | pagerank.py:130-144 | on that corpus, updating `b` sets it to `0.05 + 0.85·PR(a)` and changes nothing else |
| Findings.CycleStepC | pagerank.py:130-144 | on that corpus, updating `c`, which nothing links to, sets it to `0.05` and changes nothing else |
| Findings.CycleSweep | pagerank.py:130-144 | a sweep over that corpus: `b` reads the value `a` got earlier in the same sweep, and `c` falls to 0.05 |
| Findings.CycleFirstSweep | pagerank.py:125-147 | the first sweep from 1/3 each gives `{a: 37/60, b: 689/1200, c: 0.05}`, and `diff` (the change of `c`) is 17/60 |
| Findings.CycleSecondSweep | pagerank.py:130-144 | the second sweep gives `{a: 13933/24000, b: 260861/480000, c: 0.05}` |
| Findings.CycleRunFirst | pagerank.py:128-147 | after the first sweep `diff = 17/60 > 0.001`, so the loop goes on |
| Findings.CycleRunSecond | pagerank.py:128-147 | after the second sweep `c` has not moved, `diff = 0`, and the loop returns the swept ranks |
| Findings.CycleRun | pagerank.py:128-149 | with at least 2 sweeps of fuel, the loop on that corpus returns the ranks after exactly two sweeps, with `diff = 0` |
| Findings.StopsOnLastPageCycle | pagerank.py:128-149 | as written, `iterate_pagerank` on that corpus returns `{a: 13933/24000, b: 260861/480000, c: 0.05}`, whose sum 563521/480000 is more than 1 |
| Findings.CycleMeantTestGoesOn | pagerank.py:147 | in that second sweep the largest change (that of `a`, 867/24000) is above 0.001, so the intended test would go on |
| Findings.MaxChangeBound | pagerank.py:147 | the intended largest change is at most `eps` iff every page moved by at most `eps` |
| Findings.MaxChangeSeesExample | pagerank.py:147 | the intended test sees the 0.36125 move of the second sweep, above 0.001 |

## Left out

- `main` and the command line (pagerank.py:10-21) are not modelled; they only print.
- Listing the directory, reading the files and extracting `href` targets with a regular expression (pagerank.py:33-38) are not modelled. `crawl` starts from a given map from each `.html` file to its raw link targets.
- The random number generator (pagerank.py:91, 97) is not modelled. `sample_pagerank` takes the index `random.choice` picks and the sequence of pages `random.choices` returns.
- Sampler.NextState: requires the drawn page to be a page of the corpus. It does not model that `random.choices` follows the weights, nor the `ValueError` it raises for weights that sum to zero.
- Floating point is not modelled. Probabilities and ranks are exact reals, so the model has no rounding and cannot show a case where the program's rounded `diff` lands on the other side of 0.001 than the exact one.
- The order of `list(corpus.keys())` is the `pages` parameter. The model holds for every order.
- The `while diff > converge` loop runs under a sweep budget (`fuel`), and `IteratePagerank` reports whether it converged. Termination and convergence of the real loop are not claimed. It does not terminate for an empty corpus.
- `damping_factor` is not validated by the program and is not restricted here. Properties that need `0 <= d <= 1` take it as a hypothesis.
- Iterate.IteratePagerank: does not claim the docstring's upper bound of 1 on each value (pagerank.py:111-113). The in-place sweep does not keep the total at 1: `Findings.StopsOnLastPageCycle` returns ranks that sum to 563521/480000, although each value there is below 1. No per-value bound was proved for every corpus and every `d`; only the lower bound `(1-d)/N` is stated.
- Iterate.InflowClosedForm, Iterate.StepRewritesPage: require a page name that is not empty and no self-link. Both always hold for a corpus `crawl` builds from file names ending in `.html`.

## Findings

| source | as written | input that shows it | evidently intended | confidence | as-written member | corrected member |
|---|---|---|---|---|---|---|
| pagerank.py:139-140 | the dangling test is `len(page) == 0`, on the name of the page being updated, so a page without links passes its rank to no page | corpus `{a.html: {}, b.html: {a.html}}`, `d = 0.85`: one sweep from 1/2 each gives `{a: 0.5, b: 0.075}`, sum 0.575 | test `len(corpus[i]) == 0`, so that a page without links shares its rank with every page (as `transition_model` does) | high, not executed | Findings.DanglingRankLost | Findings.OutflowConserved |
| pagerank.py:147 | `diff` is overwritten for every page, so the loop stops on the change of the last page only | corpus `{a.html: {b.html}, b.html: {a.html}, c.html: {a.html}}`, listed `a, b, c`, `d = 0.85`: the second sweep moves `a` from 37/60 to 13933/24000 (by 867/24000) but leaves `c` at 0.05, so `diff = 0` and the loop returns `{a: 13933/24000, b: 260861/480000, c: 0.05}`, which sums to 563521/480000 | stop when the largest change of the sweep is at most 0.001 | high, not executed | Findings.StopsOnLastPageCycle | Findings.MaxChangeBound |

The corrected definitions are `Findings.LinkShare` (a page without links
shares its rank with the whole corpus, through `Transition.Linked`) and
`Findings.MaxChange` (the largest change of a sweep). The `Iterate` module
keeps the behaviour as written.
