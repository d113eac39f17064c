/** Two places where `iterate_pagerank` does not do what its own comments and
    docstring promise, each next to the definition that was evidently meant.

    1. The dangling test looks at the length of the page NAME. A page with
       no links then passes its rank to nobody, and the ranks stop summing
       to 1. Shown on a two-page corpus whose first page has no links.
       Meant: a page with no links counts as linking to every page.
    2. `diff` keeps the change of the last page of the sweep only, so the
       loop stops as soon as the last page is still, however much the
       others moved. On the two-page corpus this only shows the test
       itself, since the ranks there are already settled; on a three-page
       corpus without dangling pages the loop stops while a page still
       moves by more than the tolerance, and returns ranks that add up to
       more than 1. Meant: the largest change of the sweep. */
module Findings {
  import opened PageGraph
  import opened Transition
  import opened Iterate

  const A: Page := "a.html"
  const B: Page := "b.html"

  /** `a.html` has no links; `b.html` links to `a.html`. */
  function Example(): Corpus
  {
    map[A := {}, B := {A}]
  }

  function ExamplePages(): seq<Page>
  {
    [A, B]
  }

  lemma ExampleShape()
    ensures A != B
    ensures Example().Keys == {A, B} && |Example()| == 2
    ensures IsListing(ExamplePages(), Example())
  {
    assert A[0] != B[0];
  }

  /** The ranks of the example add up over its two pages. */
  lemma MassOfPair(m: map<Page, real>)
    requires A in m && B in m
    ensures Mass(ExamplePages(), m) == m[A] + m[B]
  {
    ExampleShape();
    assert ExamplePages()[1..] == [B];
    assert [B][1..] == [];
    assert Mass([B], m) == m[B] + Mass([], m);
  }

  // ---------------------------------------------------------------------
  // 1. The dangling test, as written and as meant

  /** As written: in the first sweep from 1/2 each, `a.html` collects all of
      `b.html`'s rank, but its own rank reaches no page, so `b.html` keeps
      only the random-jump share and the ranks add up to 23/40. */
  lemma DanglingRankLost()
    ensures Swept(Example(), ExamplePages(), 0.85, Initial(Example()), 2) == map[A := 0.5, B := 0.075]
    ensures Mass(ExamplePages(), map[A := 0.5, B := 0.075]) == 0.575
  {
    ExampleShape();
    var c, ps := Example(), ExamplePages();
    var r0 := Initial(c);
    assert r0 == map[A := 0.5, B := 0.5];
    assert Jump(c, 0.85) == 0.075;
    assert Inflow(c, ps, 0.85, r0, A, 1) == 0.075;
    assert Inflow(c, ps, 0.85, r0, A, 2) == 0.5;
    var r1 := r0[A := 0.5];
    assert Swept(c, ps, 0.85, r0, 1) == r1;
    assert Inflow(c, ps, 0.85, r1, B, 1) == 0.075;
    assert Inflow(c, ps, 0.85, r1, B, 2) == 0.075;
    assert Swept(c, ps, 0.85, r0, 2) == r1[B := 0.075];
    MassOfPair(map[A := 0.5, B := 0.075]);
  }

  /** As meant: what page `i` passes on to `page`, where a page without links
      counts as linking to every page of the corpus, itself included. */
  function LinkShare(corpus: Corpus, page: Page, i: Page, ri: real): (r: real)
    requires i in corpus
  {
    if page in Linked(corpus, i) then ri / |Linked(corpus, i)| as real else 0.0
  }

  /** What `i` passes on to each page of the corpus. */
  function Outflow(corpus: Corpus, i: Page, ri: real): (m: map<Page, real>)
    requires i in corpus
    ensures m.Keys == corpus.Keys
  {
    map q | q in corpus :: LinkShare(corpus, q, i, ri)
  }

  /** With the meant test no rank is lost: when the links of `i` stay inside
      the corpus, the shares `i` passes on add up to exactly its rank. */
  lemma OutflowConserved(corpus: Corpus, pages: seq<Page>, i: Page, ri: real)
    requires IsListing(pages, corpus)
    requires i in corpus && corpus[i] <= corpus.Keys
    ensures Mass(pages, Outflow(corpus, i, ri)) == ri
  {
    var linked := Linked(corpus, i);
    assert CountIn(pages, linked) == |linked| by {
      CountInDistinct(pages, linked);
      assert linked * Elems(pages) == linked;
    }
    SplitAddsUp(pages, Outflow(corpus, i, ri), |linked|, ri, linked);
  }

  /** Entries worth an even part of `ri` on the `l` listed pages in `s`, and
      nothing elsewhere, add up to `ri`. */
  lemma SplitAddsUp(pages: seq<Page>, m: map<Page, real>, l: nat, ri: real, s: set<Page>)
    requires CountIn(pages, s) == l > 0
    requires forall q | q in pages :: q in m && m[q] == 0.0 + (if q in s then ri / l as real else 0.0)
    ensures Mass(pages, m) == ri
  {
    var extra := ri / l as real;
    MassOfBasePlusShare(pages, m, 0.0, extra, s);
    TimesIsProduct(|pages|, 0.0);
    TimesIsProduct(l, extra);
    assert l as real * extra == ri;
  }

  /** On the example, the meant test hands half of the rank of `a.html` to
      each page, where the code as written hands none to either. */
  lemma DanglingShareExample()
    ensures LinkShare(Example(), A, A, 0.5) == 0.25 && LinkShare(Example(), B, A, 0.5) == 0.25
    ensures Share(Example(), ExamplePages(), A, A, 0.5) == 0.0
    ensures Share(Example(), ExamplePages(), B, A, 0.5) == 0.0
  {
    ExampleShape();
  }

  // ---------------------------------------------------------------------
  // 2. The stopping test, as written and as meant

  /** As written: the second sweep moves `a.html` from 0.5 to 0.13875, yet
      `diff` is 0 because `b.html`, the last page, did not move, and the
      loop stops there. These ranks are already settled
      (`ExampleSettled`), so this example shows only the test; their
      total of 0.21375 comes from the dangling test above, not from the
      stop. `StopsOnLastPageCycle` shows a stop that does harm. */
  lemma StopsOnLastPage(fuel: nat)
    requires fuel >= 2
    ensures Run(Example(), ExamplePages(), 0.85, Initial(Example()), 1.0, fuel)
         == (map[A := 0.13875, B := 0.075], 0.0)
    ensures Abs(0.13875 - 0.5) > Converge
    ensures Mass(ExamplePages(), map[A := 0.13875, B := 0.075]) == 0.21375
  {
    ExampleShape();
    var c, ps := Example(), ExamplePages();
    var r1 := map[A := 0.5, B := 0.075];
    var r2 := map[A := 0.13875, B := 0.075];
    DanglingRankLost();
    assert LastChange(ps, Initial(c), r1, 1.0) == 0.425;
    SecondSweep();
    assert LastChange(ps, r1, r2, 0.425) == 0.0;
    assert Run(c, ps, 0.85, r2, 0.0, fuel - 2) == (r2, 0.0);
    assert Run(c, ps, 0.85, r1, 0.425, fuel - 1) == (r2, 0.0);
    MassOfPair(r2);
  }

  lemma SecondSweep()
    ensures Swept(Example(), ExamplePages(), 0.85, map[A := 0.5, B := 0.075], 2)
         == map[A := 0.13875, B := 0.075]
  {
    ExampleShape();
    var c, ps := Example(), ExamplePages();
    var r1 := map[A := 0.5, B := 0.075];
    assert Jump(c, 0.85) == 0.075;
    assert Inflow(c, ps, 0.85, r1, A, 1) == 0.075;
    assert Inflow(c, ps, 0.85, r1, A, 2) == 0.13875;
    var r2 := r1[A := 0.13875];
    assert Swept(c, ps, 0.85, r1, 1) == r2;
    assert Inflow(c, ps, 0.85, r2, B, 1) == 0.075;
    assert Inflow(c, ps, 0.85, r2, B, 2) == 0.075;
    assert Swept(c, ps, 0.85, r1, 2) == r2[B := 0.075];
  }

  /** The ranks the loop returns on the two-page corpus are settled: one
      more sweep gives them back unchanged. */
  lemma ExampleSettled()
    ensures Swept(Example(), ExamplePages(), 0.85, map[A := 0.13875, B := 0.075], 2)
         == map[A := 0.13875, B := 0.075]
  {
    ExampleShape();
    var c, ps := Example(), ExamplePages();
    var r := map[A := 0.13875, B := 0.075];
    assert Jump(c, 0.85) == 0.075;
    assert Inflow(c, ps, 0.85, r, A, 1) == 0.075;
    assert Inflow(c, ps, 0.85, r, A, 2) == 0.13875;
    assert Swept(c, ps, 0.85, r, 1) == r;
    assert Inflow(c, ps, 0.85, r, B, 1) == 0.075;
    assert Inflow(c, ps, 0.85, r, B, 2) == 0.075;
  }

  /** A corpus without dangling pages, listed in the order `a`, `b`, `c`:
      `a.html` and `b.html` link to each other, and `c.html` links to
      `a.html`. Nothing links to `c.html`, so it is still after the first
      sweep, and the loop stops on it after the second. */
  const C: Page := "c.html"

  function Cycle(): Corpus
  {
    map[A := {B}, B := {A}, C := {A}]
  }

  function CyclePages(): seq<Page>
  {
    [A, B, C]
  }

  lemma CycleShape()
    ensures A != B && A != C && B != C
    ensures Cycle().Keys == {A, B, C} && |Cycle()| == 3
    ensures IsListing(CyclePages(), Cycle())
  {
    assert A[0] != B[0] && A[0] != C[0] && B[0] != C[0];
  }

  /** The ranks of the cycle add up over its three pages. */
  lemma MassOfTriple(m: map<Page, real>)
    requires A in m && B in m && C in m
    ensures Mass(CyclePages(), m) == m[A] + m[B] + m[C]
  {
    CycleShape();
    assert CyclePages()[1..] == [B, C];
    assert [B, C][1..] == [C];
    assert [C][1..] == [];
    assert Mass([C], m) == m[C] + Mass([], m);
  }

  /** The update of `a.html`, which `b.html` and `c.html` link to. */
  lemma CycleStepA(r: map<Page, real>)
    requires r.Keys == Cycle().Keys
    ensures Step(Cycle(), CyclePages(), 0.85, r, A) == r[A := 0.05 + 0.85 * r[B] + 0.85 * r[C]]
  {
    CycleShape();
    var c, ps := Cycle(), CyclePages();
    ShareSingleLink(c, ps, A, B, r[B]);
    ShareSingleLink(c, ps, A, C, r[C]);
    assert Inflow(c, ps, 0.85, r, A, 1) == 0.05;
    assert Inflow(c, ps, 0.85, r, A, 2) == 0.05 + 0.85 * r[B];
  }

  /** The update of `b.html`, which only `a.html` links to. */
  lemma CycleStepB(r: map<Page, real>)
    requires r.Keys == Cycle().Keys
    ensures Step(Cycle(), CyclePages(), 0.85, r, B) == r[B := 0.05 + 0.85 * r[A]]
  {
    CycleShape();
    var c, ps := Cycle(), CyclePages();
    ShareSingleLink(c, ps, B, A, r[A]);
    assert Inflow(c, ps, 0.85, r, B, 1) == 0.05 + 0.85 * r[A];
    assert Inflow(c, ps, 0.85, r, B, 2) == 0.05 + 0.85 * r[A];
  }

  /** The update of `c.html`, which nothing links to. */
  lemma CycleStepC(r: map<Page, real>)
    requires r.Keys == Cycle().Keys
    ensures Step(Cycle(), CyclePages(), 0.85, r, C) == r[C := 0.05]
  {
    CycleShape();
    var c, ps := Cycle(), CyclePages();
    assert Inflow(c, ps, 0.85, r, C, 1) == 0.05;
    assert Inflow(c, ps, 0.85, r, C, 2) == 0.05;
  }

  /** One sweep over the cycle: `a.html` is updated first, and `b.html`
      then reads its new value; `c.html`, which nothing links to, falls to
      the random-jump share. */
  lemma CycleSweep(r: map<Page, real>)
    requires r.Keys == Cycle().Keys
    ensures var s, a := Swept(Cycle(), CyclePages(), 0.85, r, 3), 0.05 + 0.85 * r[B] + 0.85 * r[C];
            s[A] == a && s[B] == 0.05 + 0.85 * a && s[C] == 0.05
  {
    CycleShape();
    var c, ps := Cycle(), CyclePages();
    var a := 0.05 + 0.85 * r[B] + 0.85 * r[C];
    CycleStepA(r);
    assert Swept(c, ps, 0.85, r, 0) == r && ps[0] == A && ps[1] == B && ps[2] == C;
    var r1 := Swept(c, ps, 0.85, r, 1);
    assert r1 == Step(c, ps, 0.85, r, A);
    CycleStepB(r1);
    var r2 := Swept(c, ps, 0.85, r, 2);
    assert r2 == Step(c, ps, 0.85, r1, B);
    CycleStepC(r2);
    assert Swept(c, ps, 0.85, r, 3) == Step(c, ps, 0.85, r2, C);
  }

  /** The first sweep over the cycle, from 1/3 each. */
  lemma CycleFirstSweep()
    ensures var r := Swept(Cycle(), CyclePages(), 0.85, Initial(Cycle()), 3);
            r[A] == 37.0 / 60.0 && r[B] == 689.0 / 1200.0 && r[C] == 0.05
            && LastChange(CyclePages(), Initial(Cycle()), r, 1.0) == 17.0 / 60.0
  {
    CycleShape();
    var r0 := Initial(Cycle());
    assert r0[A] == 1.0 / 3.0 && r0[B] == 1.0 / 3.0 && r0[C] == 1.0 / 3.0;
    CycleSweep(r0);
  }

  /** The second sweep over the cycle: `a.html` and `b.html` still move,
      `c.html` stays at the random-jump share. */
  lemma CycleSecondSweep(r: map<Page, real>)
    requires r.Keys == Cycle().Keys
    requires r[A] == 37.0 / 60.0 && r[B] == 689.0 / 1200.0 && r[C] == 0.05
    ensures var s := Swept(Cycle(), CyclePages(), 0.85, r, 3);
            s[A] == 13933.0 / 24000.0 && s[B] == 260861.0 / 480000.0 && s[C] == 0.05
  {
    CycleSweep(r);
  }

  /** The loop on the cycle goes on after the first sweep, which moves
      `c.html` from 1/3 to 0.05. */
  lemma CycleRunFirst(fuel: nat)
    requires fuel >= 1
    ensures Run(Cycle(), CyclePages(), 0.85, Initial(Cycle()), 1.0, fuel)
         == Run(Cycle(), CyclePages(), 0.85, Swept(Cycle(), CyclePages(), 0.85, Initial(Cycle()), 3),
                17.0 / 60.0, fuel - 1)
  {
    CycleShape();
    CycleFirstSweep();
    RunStep(Cycle(), CyclePages(), 0.85, Initial(Cycle()), 1.0, fuel,
            Swept(Cycle(), CyclePages(), 0.85, Initial(Cycle()), 3), 17.0 / 60.0);
  }

  /** ... and stops after the second, which leaves `c.html` where it was. */
  lemma CycleRunSecond(r: map<Page, real>, fuel: nat)
    requires r.Keys == Cycle().Keys && fuel >= 1
    requires r[A] == 37.0 / 60.0 && r[B] == 689.0 / 1200.0 && r[C] == 0.05
    ensures Run(Cycle(), CyclePages(), 0.85, r, 17.0 / 60.0, fuel)
         == (Swept(Cycle(), CyclePages(), 0.85, r, 3), 0.0)
  {
    CycleShape();
    var s := Swept(Cycle(), CyclePages(), 0.85, r, 3);
    CycleSecondSweep(r);
    assert LastChange(CyclePages(), r, s, 17.0 / 60.0) == 0.0;
    RunStep(Cycle(), CyclePages(), 0.85, r, 17.0 / 60.0, fuel, s, 0.0);
  }

  /** So the loop on the cycle runs exactly two sweeps. */
  lemma CycleRun(fuel: nat)
    requires fuel >= 2
    ensures var r1 := Swept(Cycle(), CyclePages(), 0.85, Initial(Cycle()), 3);
            Run(Cycle(), CyclePages(), 0.85, Initial(Cycle()), 1.0, fuel)
            == (Swept(Cycle(), CyclePages(), 0.85, r1, 3), 0.0)
  {
    CycleShape();
    CycleRunFirst(fuel);
    CycleFirstSweep();
    CycleRunSecond(Swept(Cycle(), CyclePages(), 0.85, Initial(Cycle()), 3), fuel - 1);
  }

  /** As written, on a corpus without dangling pages: the loop stops after
      the second sweep because `c.html`, the last page, did not move, while
      `a.html` moved from 37/60 to 13933/24000 (see `CycleMeantTestGoesOn`).
      The ranks it returns add up to 563521/480000, more than 1. */
  lemma StopsOnLastPageCycle(fuel: nat)
    requires fuel >= 2
    ensures var (rank, diff) := Run(Cycle(), CyclePages(), 0.85, Initial(Cycle()), 1.0, fuel);
            diff == 0.0 && rank.Keys == {A, B, C}
            && rank[A] == 13933.0 / 24000.0 && rank[B] == 260861.0 / 480000.0 && rank[C] == 0.05
            && Mass(CyclePages(), rank) == 563521.0 / 480000.0
  {
    CycleShape();
    var c, ps := Cycle(), CyclePages();
    var r1 := Swept(c, ps, 0.85, Initial(c), 3);
    CycleRun(fuel);
    CycleFirstSweep();
    CycleSecondSweep(r1);
    MassOfTriple(Swept(c, ps, 0.85, r1, 3));
  }

  /** On the same two sweeps the meant test would go on: `a.html` moved by
      867/24000, above the tolerance. */
  lemma CycleMeantTestGoesOn()
    ensures var r1 := Swept(Cycle(), CyclePages(), 0.85, Initial(Cycle()), 3);
            MaxChange(CyclePages(), r1, Swept(Cycle(), CyclePages(), 0.85, r1, 3)) > Converge
  {
    CycleShape();
    var c, ps := Cycle(), CyclePages();
    var r1 := Swept(c, ps, 0.85, Initial(c), 3);
    var r2 := Swept(c, ps, 0.85, r1, 3);
    CycleFirstSweep();
    CycleSecondSweep(r1);
    assert Abs(r2[ps[0]] - r1[ps[0]]) == 867.0 / 24000.0;
    MaxChangeBound(ps, r1, r2, Converge);
  }

  /** As meant: the largest change of any page in the sweep (0 for none). */
  function MaxChange(pages: seq<Page>, before: map<Page, real>, after: map<Page, real>): (r: real)
    requires Elems(pages) <= before.Keys && Elems(pages) <= after.Keys
  {
    if pages == [] then 0.0
    else
      var last := pages[|pages| - 1];
      var rest := MaxChange(pages[..|pages| - 1], before, after);
      var change := Abs(after[last] - before[last]);
      if change > rest then change else rest
  }

  /** The meant test stops exactly when every page moved by at most `eps`. */
  lemma {:induction false} MaxChangeBound(pages: seq<Page>, before: map<Page, real>, after: map<Page, real>,
                                          eps: real)
    requires Elems(pages) <= before.Keys && Elems(pages) <= after.Keys
    requires eps >= 0.0
    ensures MaxChange(pages, before, after) <= eps
        <==> forall m | 0 <= m < |pages| :: Abs(after[pages[m]] - before[pages[m]]) <= eps
  {
    if pages != [] {
      var init := pages[..|pages| - 1];
      assert Elems(init) <= Elems(pages);
      MaxChangeBound(init, before, after, eps);
      forall m | 0 <= m < |init| ensures init[m] == pages[m] {
      }
    }
  }

  /** On the example, the meant test sees the move of `a.html` in the second
      sweep and goes on. */
  lemma MaxChangeSeesExample()
    ensures MaxChange(ExamplePages(), map[A := 0.5, B := 0.075], map[A := 0.13875, B := 0.075]) == 0.36125
    ensures MaxChange(ExamplePages(), map[A := 0.5, B := 0.075], map[A := 0.13875, B := 0.075]) > Converge
  {
    ExampleShape();
    assert ExamplePages()[..1] == [A];
    assert [A][..0] == [];
    var before, after := map[A := 0.5, B := 0.075], map[A := 0.13875, B := 0.075];
    assert MaxChange([A], before, after) == 0.36125;
  }
}
