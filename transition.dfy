/** `transition_model`: the random surfer's next-page distribution from one page. */
module Transition {
  import opened PageGraph

  /** The pages the surfer may follow a link to from `page`; a page without
      outgoing links is treated as linking to every page, itself included. */
  function Linked(corpus: Corpus, page: Page): (s: set<Page>)
    requires page in corpus
    ensures s != {}
    ensures corpus[page] != {} ==> s == corpus[page]
    ensures corpus[page] == {} ==> s == corpus.Keys
  {
    if corpus[page] == {} then corpus.Keys else corpus[page]
  }

  /** Probability that the surfer moves from `page` to `q`: the random-jump
      share plus, when `q` is linked, an even part of the link-following share. */
  function Probability(corpus: Corpus, page: Page, damping: real, q: Page): (r: real)
    requires page in corpus
    ensures 0.0 <= damping <= 1.0 ==> 0.0 <= r <= 1.0
  {
    var n, l := |corpus|, |Linked(corpus, page)|;
    assert n >= 1 && l >= 1 by {
      assert page in corpus.Keys;
    }
    PartAtMost(1.0 - damping, n);
    PartAtMost(damping, l);
    (1.0 - damping) / n as real + (if q in Linked(corpus, page) then damping / l as real else 0.0)
  }

  /** A non-negative amount shared among `n >= 1` parts: each part is at most the whole. */
  lemma PartAtMost(x: real, n: nat)
    requires n >= 1
    ensures x >= 0.0 ==> 0.0 <= x / n as real <= x
  {
  }

  /** The distribution `transition_model` returns for a page of the corpus. */
  function Distribution(corpus: Corpus, page: Page, damping: real): (m: map<Page, real>)
    requires page in corpus
    ensures m.Keys == corpus.Keys
  {
    map q | q in corpus :: Probability(corpus, page, damping, q)
  }

  /** `transition_model(corpus, page, damping_factor)`. Looking up a page the
      corpus lacks fails; otherwise every page of the corpus gets its entry. */
  method TransitionModel(corpus: Corpus, page: Page, damping: real) returns (r: Result<map<Page, real>>)
    ensures r.Err? <==> page !in corpus
    ensures r.Err? ==> r.error == InvalidPage
    ensures r.Ok? ==> r.value == Distribution(corpus, page, damping)
  {
    if page !in corpus {
      return Err(InvalidPage);
    }
    var linked := corpus[page];
    if |linked| == 0 {
      linked := corpus.Keys;
    }
    var d := damping / |linked| as real;
    var oneMinusD := (1.0 - damping) / |corpus| as real;
    var model: map<Page, real> := map[];
    var todo := corpus.Keys;
    while todo != {}
      invariant todo <= corpus.Keys
      invariant model.Keys == corpus.Keys - todo
      invariant forall q | q in model :: model[q] == Probability(corpus, page, damping, q)
      decreases todo
    {
      var q :| q in todo;
      model := model[q := oneMinusD];
      if q in linked {
        model := model[q := model[q] + d];
      }
      todo := todo - {q};
    }
    return Ok(model);
  }

  /** Given 0 <= damping <= 1, no entry is negative. */
  lemma DistributionNonNegative(corpus: Corpus, page: Page, damping: real)
    requires page in corpus
    requires 0.0 <= damping <= 1.0
    ensures forall q | q in corpus :: Distribution(corpus, page, damping)[q] >= 0.0
  {
  }

  /** Given damping < 1, every page of the corpus can be the next one. */
  lemma DistributionPositive(corpus: Corpus, page: Page, damping: real)
    requires page in corpus
    requires 0.0 <= damping < 1.0
    ensures forall q | q in corpus :: Distribution(corpus, page, damping)[q] > 0.0
  {
  }

  /** From a dangling page the next page is uniform over the whole corpus. */
  lemma DanglingIsUniform(corpus: Corpus, page: Page, damping: real)
    requires page in corpus && corpus[page] == {}
    ensures forall q | q in corpus :: Distribution(corpus, page, damping)[q] == 1.0 / |corpus| as real
  {
    var n := |corpus| as real;
    assert n > 0.0;
    forall q | q in corpus
      ensures Distribution(corpus, page, damping)[q] == 1.0 / n
    {
      assert Distribution(corpus, page, damping)[q] == (1.0 - damping) / n + damping / n;
    }
  }

  /** When the links of `page` stay inside the corpus, the entries add up to
      exactly 1 whatever the damping factor. */
  lemma DistributionSumsToOne(corpus: Corpus, pages: seq<Page>, page: Page, damping: real)
    requires IsListing(pages, corpus)
    requires page in corpus && corpus[page] <= corpus.Keys
    ensures Mass(pages, Distribution(corpus, page, damping)) == 1.0
  {
    var m := Distribution(corpus, page, damping);
    var linked := Linked(corpus, page);
    var n := |pages|;
    var l := |linked|;
    var base := (1.0 - damping) / n as real;
    var extra := damping / l as real;
    assert n > 0 && CountIn(pages, linked) == l by {
      ListingSize(pages, corpus);
      CountInDistinct(pages, linked);
      assert linked * Elems(pages) == linked;
    }
    assert forall q | q in pages :: q in m && m[q] == base + (if q in linked then extra else 0.0) by {
      ListingSize(pages, corpus);
    }
    SharesAddUp(pages, m, n, l, damping, linked);
  }

  /** Entries worth a random-jump share of `n` pages, plus a link share of
      the `l` listed pages in `s`, add up to 1. */
  lemma SharesAddUp(pages: seq<Page>, m: map<Page, real>, n: nat, l: nat, damping: real, s: set<Page>)
    requires |pages| == n > 0 && CountIn(pages, s) == l > 0
    requires forall q | q in pages :: q in m && m[q] == (1.0 - damping) / n as real + (if q in s then damping / l as real else 0.0)
    ensures Mass(pages, m) == 1.0
  {
    var base := (1.0 - damping) / n as real;
    var extra := damping / l as real;
    MassOfBasePlusShare(pages, m, base, extra, s);
    TimesIsProduct(n, base);
    TimesIsProduct(l, extra);
    assert n as real * base == 1.0 - damping;
    assert l as real * extra == damping;
  }

  /** A two-page corpus whose first page is dangling: from that page both
      pages are equally likely. */
  lemma DanglingTwoPageExample()
    ensures Distribution(map["a.html" := {}, "b.html" := {"a.html"}], "a.html", 0.85)
         == map["a.html" := 0.5, "b.html" := 0.5]
  {
    var corpus: Corpus := map["a.html" := {}, "b.html" := {"a.html"}];
    assert "a.html" != "b.html" by { assert "a.html"[0] != "b.html"[0]; }
    assert corpus.Keys == {"a.html", "b.html"};
    assert |corpus| == 2;
    DanglingIsUniform(corpus, "a.html", 0.85);
  }
}
