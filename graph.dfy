/** The link graph shared by both ranking algorithms, the failures the ranking
    functions surface, and exact sums of a page-to-number mapping taken in the
    order in which the corpus lists its pages. */
module PageGraph {

  /** A page is identified by its file name. */
  type Page = string

  /** Every page mapped to the set of pages it links to. */
  type Corpus = map<Page, set<Page>>

  /** `InvalidPage` is the KeyError of looking up a page the corpus does not
      hold; `EmptyCorpus` is the IndexError of choosing from an empty list. */
  datatype Error = InvalidPage | EmptyCorpus

  datatype Result<T> = Ok(value: T) | Err(error: Error)

  /** The elements of a listing, as a set. */
  function Elems(pages: seq<Page>): (s: set<Page>)
    ensures forall p :: p in s <==> p in pages
  {
    set p | p in pages
  }

  predicate Distinct(pages: seq<Page>)
  {
    forall i, j | 0 <= i < j < |pages| :: pages[i] != pages[j]
  }

  /** `pages` is `list(corpus.keys())`: every key exactly once, in the
      dictionary's own order. */
  predicate IsListing(pages: seq<Page>, corpus: Corpus)
  {
    Distinct(pages) && Within(pages, corpus) && Elems(pages) == corpus.Keys
  }

  /** Every listed page is a page of the corpus. */
  predicate Within(pages: seq<Page>, corpus: Corpus)
  {
    forall i | 0 <= i < |pages| :: pages[i] in corpus
  }

  /** Every link target is itself a page of the corpus. */
  predicate LinksClosed(corpus: Corpus)
  {
    forall p | p in corpus :: corpus[p] <= corpus.Keys
  }

  /** No page links to itself. */
  predicate NoSelfLinks(corpus: Corpus)
  {
    forall p | p in corpus :: p !in corpus[p]
  }

  /** Sum of the values `m` gives to the listed pages; a page `m` lacks counts 0. */
  function Mass(pages: seq<Page>, m: map<Page, real>): (r: real)
  {
    if pages == [] then 0.0
    else (if pages[0] in m then m[pages[0]] else 0.0) + Mass(pages[1..], m)
  }

  /** How many of the listed pages lie in `s`. */
  function CountIn(pages: seq<Page>, s: set<Page>): (r: nat)
  {
    if pages == [] then 0
    else (if pages[0] in s then 1 else 0) + CountIn(pages[1..], s)
  }

  function Abs(x: real): (r: real)
    ensures r >= 0.0 && (r == x || r == -x)
  {
    if x < 0.0 then -x else x
  }

  /** A listing without repeats meets each set in exactly as many pages as
      the set shares with it. */
  lemma {:induction false} CountInDistinct(pages: seq<Page>, s: set<Page>)
    requires Distinct(pages)
    ensures CountIn(pages, s) == |s * Elems(pages)|
  {
    if pages != [] {
      var rest := pages[1..];
      DistinctTail(pages);
      CountInDistinct(rest, s);
      MeetOneMore(s, Elems(rest), pages[0]);
    }
  }

  /** The tail of a listing without repeats has none either, and lacks the head. */
  lemma DistinctTail(pages: seq<Page>)
    requires Distinct(pages) && pages != []
    ensures Distinct(pages[1..])
    ensures pages[0] !in Elems(pages[1..])
    ensures Elems(pages) == {pages[0]} + Elems(pages[1..])
  {
    var rest := pages[1..];
    forall i, j | 0 <= i < j < |rest| ensures rest[i] != rest[j] {
      assert rest[i] == pages[i + 1] && rest[j] == pages[j + 1];
    }
    forall k | 0 <= k < |rest| ensures rest[k] != pages[0] {
      assert rest[k] == pages[k + 1];
    }
    assert pages == [pages[0]] + rest;
  }

  /** Adding a new element `x` to `a` adds one to its meet with `s` exactly
      when `x` is in `s`. */
  lemma MeetOneMore(s: set<Page>, a: set<Page>, x: Page)
    requires x !in a
    ensures |s * ({x} + a)| == |s * a| + (if x in s then 1 else 0)
  {
    if x in s {
      assert s * ({x} + a) == (s * a) + {x};
    } else {
      assert s * ({x} + a) == s * a;
    }
  }

  /** A listing of a corpus is exactly as long as the corpus is large. */
  lemma ListingSize(pages: seq<Page>, corpus: Corpus)
    requires IsListing(pages, corpus)
    ensures |pages| == |corpus|
  {
    CountInDistinct(pages, Elems(pages));
    assert Elems(pages) * Elems(pages) == Elems(pages);
    CountInAll(pages, Elems(pages));
    assert |corpus| == |corpus.Keys|;
  }

  /** A set holding every listed page meets the listing in all its places. */
  lemma {:induction false} CountInAll(pages: seq<Page>, s: set<Page>)
    requires Elems(pages) <= s
    ensures CountIn(pages, s) == |pages|
  {
    if pages != [] {
      assert Elems(pages[1..]) <= Elems(pages);
      CountInAll(pages[1..], s);
    }
  }

  /** `k` copies of `x` added up. */
  function Times(k: nat, x: real): (r: real)
  {
    if k == 0 then 0.0 else Times(k - 1, x) + x
  }

  /** Adding up `k` copies of `x` is multiplying `x` by `k`. */
  lemma {:induction false} TimesIsProduct(k: nat, x: real)
    ensures Times(k, x) == k as real * x
  {
    if k > 0 {
      TimesIsProduct(k - 1, x);
      assert k as real * x == (k - 1) as real * x + x;
    }
  }

  /** Mass of a mapping that gives every listed page `base`, plus `extra`
      when the page lies in `s`. */
  lemma {:induction false} MassOfBasePlusShare(pages: seq<Page>, m: map<Page, real>,
                                               base: real, extra: real, s: set<Page>)
    requires forall q | q in pages :: q in m && m[q] == base + (if q in s then extra else 0.0)
    ensures Mass(pages, m) == Times(|pages|, base) + Times(CountIn(pages, s), extra)
  {
    if pages != [] {
      var rest := pages[1..];
      assert forall q | q in rest :: q in pages;
      MassOfBasePlusShare(rest, m, base, extra, s);
      assert Times(|pages|, base) == Times(|rest|, base) + base;
      if pages[0] in s {
        assert CountIn(pages, s) == CountIn(rest, s) + 1;
      } else {
        assert CountIn(pages, s) == CountIn(rest, s);
      }
    }
  }
}
