/** The link filtering of `crawl`. Reading the directory and extracting the
    `href` targets of each file is replaced by a given map from each page to
    the raw set of targets found in it. */
module Crawl {
  import opened PageGraph

  /** The corpus `crawl` builds from the raw links: a page keeps a link when
      the target is another page of the corpus. */
  function RestrictLinks(raw: map<Page, set<Page>>): (corpus: Corpus)
    ensures corpus.Keys == raw.Keys
    ensures forall p, q | p in corpus :: q in corpus[p] <==> q in raw[p] && q != p && q in raw
  {
    map p | p in raw :: set q | q in raw[p] && q != p && q in raw
  }

  /** `crawl`, without the file reading: the first loop drops each page's
      link to itself, the second keeps only targets that are pages. */
  method CrawlLinks(raw: map<Page, set<Page>>) returns (pages: Corpus)
    ensures pages == RestrictLinks(raw)
  {
    pages := map[];
    var files := raw.Keys;
    while files != {}
      invariant files <= raw.Keys
      invariant pages.Keys == raw.Keys - files
      invariant forall f | f in pages :: pages[f] == raw[f] - {f}
      decreases files
    {
      var filename :| filename in files;
      pages := pages[filename := raw[filename] - {filename}];
      files := files - {filename};
    }
    var todo := pages.Keys;
    while todo != {}
      invariant todo <= pages.Keys == raw.Keys
      invariant forall f | f in todo :: pages[f] == raw[f] - {f}
      invariant forall f | f in pages && f !in todo :: pages[f] == RestrictLinks(raw)[f]
      decreases todo
    {
      var filename :| filename in todo;
      pages := pages[filename := set link | link in pages[filename] && link in pages];
      todo := todo - {filename};
    }
  }

  /** After filtering, the corpus satisfies what the transition model and the
      iteration rely on: the same pages, no self-links, no dangling targets. */
  lemma RestrictedIsWellFormed(raw: map<Page, set<Page>>)
    ensures RestrictLinks(raw).Keys == raw.Keys
    ensures NoSelfLinks(RestrictLinks(raw))
    ensures LinksClosed(RestrictLinks(raw))
  {
  }

  /** Filtering an already filtered corpus changes nothing. */
  lemma RestrictIdempotent(raw: map<Page, set<Page>>)
    ensures RestrictLinks(RestrictLinks(raw)) == RestrictLinks(raw)
  {
    var once := RestrictLinks(raw);
    var twice := RestrictLinks(once);
    forall p | p in once ensures twice[p] == once[p] {
      assert forall q :: q in twice[p] <==> q in once[p];
    }
  }
}
