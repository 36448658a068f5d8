/**
 * Building the link graph the page ranker works on: every parsed page becomes
 * a vertex named by its URI, with an edge to each distinct page it links to,
 * links to itself and to URIs outside the parsed pages being dropped. The
 * set of pages is given as the order its iterator visits it.
 */
module PageRank {

  datatype Webpage<U> = Webpage(uri: U, links: seq<U>)

  /** The URIs of `pages`. */
  function Uris<U(==)>(pages: seq<Webpage<U>>): (r: set<U>)
    ensures forall i :: 0 <= i < |pages| ==> pages[i].uri in r
    ensures forall u :: u in r ==> exists i :: 0 <= i < |pages| && pages[i].uri == u
  {
    if pages == [] then {} else Uris(pages[..|pages| - 1]) + {pages[|pages| - 1].uri}
  }

  /** The out-set of `page`: its links into `allowed` other than itself, duplicates collapsed. */
  function OutLinks<U(==)>(page: Webpage<U>, allowed: set<U>): set<U> {
    set l | l in page.links && l in allowed && l != page.uri
  }

  /** The graph after putting the out-set of each of `pages`, in turn, under its URI. */
  function GraphOver<U(==)>(pages: seq<Webpage<U>>, allowed: set<U>): map<U, set<U>> {
    if pages == [] then map[]
    else
      var last := pages[|pages| - 1];
      GraphOver(pages[..|pages| - 1], allowed)[last.uri := OutLinks(last, allowed)]
  }

  /** No two pages share a URI. */
  predicate UniqueUris<U(==)>(pages: seq<Webpage<U>>) {
    forall i, j :: 0 <= i < j < |pages| ==> pages[i].uri != pages[j].uri
  }

  /** The vertices are the URIs of the pages. */
  lemma GraphOverKeys<U>(pages: seq<Webpage<U>>, allowed: set<U>)
    ensures GraphOver(pages, allowed).Keys == Uris(pages)
    decreases |pages|
  {
    if pages != [] {
      GraphOverKeys(pages[..|pages| - 1], allowed);
    }
  }

  /** The index of the last page with URI `u`: the one whose `put` is not overwritten. */
  function LastIndex<U(==)>(pages: seq<Webpage<U>>, u: U): (r: int)
    requires u in Uris(pages)
    ensures 0 <= r < |pages| && pages[r].uri == u
    ensures forall j :: r < j < |pages| ==> pages[j].uri != u
  {
    if pages[|pages| - 1].uri == u then |pages| - 1 else LastIndex(pages[..|pages| - 1], u)
  }

  /** Each vertex holds the out-set of the last page with that URI. */
  lemma {:induction false} GraphOverShape<U>(pages: seq<Webpage<U>>, allowed: set<U>)
    ensures GraphOver(pages, allowed).Keys == Uris(pages)
    ensures forall u :: u in GraphOver(pages, allowed) ==> GraphOver(pages, allowed)[u] == OutLinks(pages[LastIndex(pages, u)], allowed)
    decreases |pages|
  {
    GraphOverKeys(pages, allowed);
    if pages != [] {
      var init := pages[..|pages| - 1];
      GraphOverShape(init, allowed);
      forall u | u in GraphOver(pages, allowed) && u != pages[|pages| - 1].uri
        ensures GraphOver(pages, allowed)[u] == OutLinks(pages[LastIndex(pages, u)], allowed)
      {
        assert pages[LastIndex(init, u)] == init[LastIndex(init, u)];
      }
    }
  }

  /** With unique URIs, each page's vertex holds exactly that page's out-set. */
  lemma GraphOverEntries<U>(pages: seq<Webpage<U>>, allowed: set<U>)
    requires UniqueUris(pages)
    ensures forall i :: 0 <= i < |pages| ==>
      pages[i].uri in GraphOver(pages, allowed) && GraphOver(pages, allowed)[pages[i].uri] == OutLinks(pages[i], allowed)
    decreases |pages|
  {
    if pages != [] {
      var init := pages[..|pages| - 1];
      GraphOverEntries(init, allowed);
      GraphOverShape(init, allowed);
      forall i | 0 <= i < |pages| - 1
        ensures pages[i].uri in GraphOver(pages, allowed) && GraphOver(pages, allowed)[pages[i].uri] == OutLinks(pages[i], allowed)
      {
        assert init[i] == pages[i];
      }
    }
  }

  /** The graph `makeGraph` builds from `pages`. */
  function Graph<U(==)>(pages: seq<Webpage<U>>): map<U, set<U>> {
    GraphOver(pages, Uris(pages))
  }

  /** Its vertices are exactly the URIs of the pages. */
  lemma GraphVertices<U>(pages: seq<Webpage<U>>)
    ensures Graph(pages).Keys == Uris(pages)
  {
    GraphOverShape(pages, Uris(pages));
  }

  /** Every edge ends at a vertex: the graph is self-contained. */
  lemma GraphSelfContained<U>(pages: seq<Webpage<U>>)
    ensures forall u, v :: u in Graph(pages) && v in Graph(pages)[u] ==> v in Graph(pages)
  {
    GraphOverShape(pages, Uris(pages));
  }

  /** No vertex has an edge to itself. */
  lemma GraphNoSelfLoops<U>(pages: seq<Webpage<U>>)
    ensures forall u :: u in Graph(pages) ==> u !in Graph(pages)[u]
  {
    GraphOverShape(pages, Uris(pages));
  }

  /**
   * With unique URIs, a page's edges go to exactly its links that are URIs
   * of other pages: a link outside the pages is dropped.
   */
  lemma GraphEdges<U>(pages: seq<Webpage<U>>, i: int, v: U)
    requires UniqueUris(pages) && 0 <= i < |pages|
    ensures pages[i].uri in Graph(pages)
    ensures v in Graph(pages)[pages[i].uri] <==> v in pages[i].links && v != pages[i].uri && v in Uris(pages)
  {
    GraphOverEntries(pages, Uris(pages));
  }

  /** With unique URIs there are as many vertices as pages. */
  lemma GraphSize<U>(pages: seq<Webpage<U>>)
    requires UniqueUris(pages)
    ensures |Graph(pages)| == |pages|
  {
    GraphVertices(pages);
    UniqueUrisCount(pages);
  }

  lemma {:induction false} UniqueUrisCount<U>(pages: seq<Webpage<U>>)
    requires UniqueUris(pages)
    ensures |Uris(pages)| == |pages|
  {
    if pages != [] {
      var init := pages[..|pages| - 1];
      var last := pages[|pages| - 1].uri;
      assert UniqueUris(init) by {
        forall i, j | 0 <= i < j < |init|
          ensures init[i].uri != init[j].uri
        {
          assert init[i] == pages[i] && init[j] == pages[j];
        }
      }
      UniqueUrisCount(init);
    }
  }

  /**
   * `makeGraph`: collects the URIs of all pages, then for each page puts the
   * set of its links that are collected URIs other than its own.
   */
  method MakeGraph<U(==)>(webpages: seq<Webpage<U>>) returns (graph: map<U, set<U>>)
    ensures graph == Graph(webpages)
  {
    var allowedSetOfWebpages: set<U> := {};
    for i := 0 to |webpages|
      invariant allowedSetOfWebpages == Uris(webpages[..i])
    {
      assert webpages[..i + 1][..i] == webpages[..i];
      allowedSetOfWebpages := allowedSetOfWebpages + {webpages[i].uri};
    }
    assert webpages[..|webpages|] == webpages;
    graph := map[];
    for i := 0 to |webpages|
      invariant graph == GraphOver(webpages[..i], allowedSetOfWebpages)
    {
      assert webpages[..i + 1][..i] == webpages[..i];
      var allowedSetOfPageLinks := AllowedLinks(webpages[i], allowedSetOfWebpages);
      graph := graph[webpages[i].uri := allowedSetOfPageLinks];
    }
  }

  /** The inner loop of `makeGraph`: the page's links into `allowed` other than its own URI. */
  method AllowedLinks<U(==)>(page: Webpage<U>, allowed: set<U>) returns (r: set<U>)
    ensures r == OutLinks(page, allowed)
  {
    r := {};
    for j := 0 to |page.links|
      invariant r == set l | l in page.links[..j] && l in allowed && l != page.uri
    {
      var linkUri := page.links[j];
      assert page.links[..j + 1] == page.links[..j] + [linkUri];
      if linkUri in allowed && linkUri != page.uri && linkUri !in r {
        r := r + {linkUri};
      }
    }
    assert page.links[..|page.links|] == page.links;
  }
}
