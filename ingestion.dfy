/**
 * `fetch_observations`: walk the paginated observation collection, normalise
 * every feature of every page, follow the first usable `next` link, and sort
 * the gathered rows by timestamp. The HTTP exchange is replaced by the sequence
 * of responses the upstream service gives, one per request, in order.
 */
module Ingestion {
  import opened Wrappers
  import opened Faults
  import opened Conversions
  import opened Observations
  import opened Ordering

  /** One entry of a response's `links` array; a missing or null member is None. */
  datatype Link = Link(rel: Option<string>, href: Option<string>)

  /**
   * One response: its status code, its `features` (a missing or null member
   * reads as none, as `or []` does) and its `links` (likewise).
   */
  datatype Page = Page(status: int, features: seq<Feature>, links: seq<Link>)

  /**
   * A request made during the walk: the first one goes to the collection URL with
   * the `start`/`end`/`limit` query, each later one to a `next` link exactly as
   * given, with no query parameters attached.
   */
  datatype Request = Initial | FollowNext(url: string)

  /** httpx's `is_success`: `raise_for_status` passes exactly these codes. */
  predicate IsSuccess(status: int)
    ensures status == 200 ==> IsSuccess(status)
    ensures IsSuccess(status) ==> status / 100 == 2
  {
    200 <= status <= 299
  }

  /** `link.get("rel") == "next" and link.get("href")`. */
  predicate IsNextLink(l: Link)
    ensures IsNextLink(l) ==> l.rel == Some("next") && l.href.Some? && |l.href.value| > 0
  {
    l.rel == Some("next") && l.href.Some? && l.href.value != ""
  }

  /** The `href` of the first usable `next` link, if any. */
  function FirstNext(links: seq<Link>): (next: Option<string>)
    ensures next.Some? ==> next.value != ""
  {
    if links == [] then None
    else if IsNextLink(links[0]) then Some(links[0].href.value)
    else FirstNext(links[1..])
  }

  /** `FirstNext` finds a usable `next` link exactly when there is one, and then the first. */
  lemma {:induction false} FirstNextSpec(links: seq<Link>)
    ensures FirstNext(links).None? <==> forall i :: 0 <= i < |links| ==> !IsNextLink(links[i])
    ensures FirstNext(links).Some? ==> exists i :: (
      && 0 <= i < |links| && IsNextLink(links[i])
      && FirstNext(links).value == links[i].href.value
      && forall j :: 0 <= j < i ==> !IsNextLink(links[j]))
  {
    if links != [] && !IsNextLink(links[0]) {
      FirstNextSpec(links[1..]);
      assert forall i :: 1 <= i < |links| ==> links[i] == links[1..][i - 1];
      if FirstNext(links[1..]).Some? {
        var i :| 0 <= i < |links[1..]| && IsNextLink(links[1..][i])
          && FirstNext(links[1..]).value == links[1..][i].href.value
          && forall j :: 0 <= j < i ==> !IsNextLink(links[1..][j]);
        assert IsNextLink(links[i + 1]) && FirstNext(links).value == links[i + 1].href.value;
      }
    }
  }

  /** The link scan of the page loop: `for link in links: if ...: next_url = link["href"]; break`. */
  method NextUrl(links: seq<Link>) returns (next: Option<string>)
    ensures next == FirstNext(links)
  {
    FirstNextSpec(links);
    next := None;
    for i := 0 to |links|
      invariant forall j :: 0 <= j < i ==> !IsNextLink(links[j])
    {
      if links[i].rel == Some("next") && links[i].href.Some? && links[i].href.value != "" {
        next := Some(links[i].href.value);
        return;
      }
    }
  }

  /**
   * A per-feature normaliser. The walk is stated for any normaliser, so that its
   * proofs do not depend on the formulas inside `parse_obs_feature`; the fetch
   * itself uses `Normalise(m)`.
   */
  type Normaliser = Feature -> Result<Row, Fault>

  /** `parse_obs_feature` with the math library `m`. */
  function Normalise(m: MathLib): Normaliser
  {
    f => ParseObsFeature(m, f)
  }

  /** Normalise every feature of a page; the first feature that raises aborts the whole page. */
  function ParseAll(parse: Normaliser, features: seq<Feature>): (r: Result<seq<Row>, Fault>)
    ensures r.Ok? ==> |r.value| == |features|
  {
    if features == [] then Ok([])
    else
      var n := |features| - 1;
      match ParseAll(parse, features[..n])
      case Err(fault) => Err(fault)
      case Ok(rows) =>
        match parse(features[n])
        case Err(fault) => Err(fault)
        case Ok(row) => Ok(rows + [row])
  }

  /**
   * A page normalises exactly when each of its features does, giving one row per
   * feature in order; otherwise it raises the exception of its first failing feature.
   */
  lemma {:induction false} ParseAllSpec(parse: Normaliser, features: seq<Feature>)
    ensures ParseAll(parse, features).Ok? <==> forall i :: 0 <= i < |features| ==> parse(features[i]).Ok?
    ensures ParseAll(parse, features).Ok? ==> (
      && |ParseAll(parse, features).value| == |features|
      && forall i :: 0 <= i < |features| ==> parse(features[i]) == Ok(ParseAll(parse, features).value[i]))
    ensures ParseAll(parse, features).Err? ==> exists i :: (
      && 0 <= i < |features| && parse(features[i]) == Err(ParseAll(parse, features).error)
      && forall j :: 0 <= j < i ==> parse(features[j]).Ok?)
  {
    if features != [] {
      var n := |features| - 1;
      var init := features[..n];
      ParseAllSpec(parse, init);
      assert forall i :: 0 <= i < n ==> features[i] == init[i];
    }
  }

  /** Normalising one more feature: the rows so far, then that feature's row, or the first exception. */
  lemma ParseAllSnoc(parse: Normaliser, features: seq<Feature>, f: Feature)
    ensures ParseAll(parse, features + [f]) ==
      if ParseAll(parse, features).Err? then ParseAll(parse, features)
      else if parse(f).Err? then Err(parse(f).error)
      else Ok(ParseAll(parse, features).value + [parse(f).value])
  {
    assert (features + [f])[..|features|] == features;
  }

  /** The normalised rows of a list of features are those of its parts, one after the other. */
  lemma {:induction false} ParseAllConcat(parse: Normaliser, a: seq<Feature>, b: seq<Feature>)
    requires ParseAll(parse, a).Ok? && ParseAll(parse, b).Ok?
    ensures ParseAll(parse, a + b) == Ok(ParseAll(parse, a).value + ParseAll(parse, b).value)
  {
    if b == [] {
      assert a + b == a;
      assert ParseAll(parse, a).value + [] == ParseAll(parse, a).value;
    } else {
      var n := |b| - 1;
      var init, f := b[..n], b[n];
      assert b == init + [f];
      assert a + b == (a + init) + [f];
      ParseAllSnoc(parse, init, f);
      ParseAllConcat(parse, a, init);
      ParseAllSnoc(parse, a + init, f);
      var ra, ri := ParseAll(parse, a).value, ParseAll(parse, init).value;
      assert (ra + ri) + [parse(f).value] == ra + (ri + [parse(f).value]);
    }
  }

  /** When the features before index `i` normalise and feature `i` raises, the page raises that. */
  lemma FirstFaultWins(parse: Normaliser, features: seq<Feature>, i: int)
    requires 0 <= i < |features|
    requires ParseAll(parse, features[..i]).Ok? && parse(features[i]).Err?
    ensures ParseAll(parse, features) == Err(parse(features[i]).error)
  {
    ParseAllSpec(parse, features);
    ParseAllSpec(parse, features[..i]);
    var r := ParseAll(parse, features);
    forall j | 0 <= j < i
      ensures parse(features[j]).Ok?
    {
      assert features[..i][j] == features[j];
    }
    var j :| 0 <= j < |features| && parse(features[j]) == Err(r.error)
      && forall l :: 0 <= l < j ==> parse(features[l]).Ok?;
    assert j == i;
  }

  /** The feature loop of one page: `for f in feats: results.append(parse_obs_feature(f))`. */
  method NormalisePage(m: MathLib, features: seq<Feature>, results: seq<Row>) returns (r: Result<seq<Row>, Fault>)
    ensures ParseAll(Normalise(m), features).Err? ==> r == ParseAll(Normalise(m), features)
    ensures ParseAll(Normalise(m), features).Ok? ==> r == Ok(results + ParseAll(Normalise(m), features).value)
  {
    var acc := results;
    for i := 0 to |features|
      invariant ParseAll(Normalise(m), features[..i]).Ok?
      invariant acc == results + ParseAll(Normalise(m), features[..i]).value
    {
      var parsed := ParseObsFeature(m, features[i]);
      assert Normalise(m)(features[i]) == parsed;
      ParseAllSnoc(Normalise(m), features[..i], features[i]);
      assert features[..i + 1] == features[..i] + [features[i]];
      if parsed.Err? {
        FirstFaultWins(Normalise(m), features, i);
        return Err(parsed.error);
      }
      acc := acc + [parsed.value];
    }
    assert features[..|features|] == features;
    r := Ok(acc);
  }

  /** A page ends the walk: it fails, one of its features raises, or it has no usable `next` link. */
  predicate Ends(parse: Normaliser, p: Page)
  {
    !IsSuccess(p.status) || ParseAll(parse, p.features).Err? || FirstNext(p.links).None?
  }

  /** Some page from index `k` on ends the walk, so the walk started there terminates. */
  predicate EndsFrom(parse: Normaliser, pages: seq<Page>, k: int)
  {
    exists j :: 0 <= k <= j < |pages| && Ends(parse, pages[j])
  }

  /**
   * The walk from page `k`, reached by request `req`: the gathered rows (unsorted)
   * or the exception raised, and the requests made.
   */
  function WalkFrom(parse: Normaliser, pages: seq<Page>, k: int, req: Request): (walk: (Result<seq<Row>, Fault>, seq<Request>))
    requires EndsFrom(parse, pages, k)
    ensures 1 <= |walk.1| && k + |walk.1| <= |pages|
    decreases |pages| - k
  {
    var p := pages[k];
    if !IsSuccess(p.status) then (Err(HttpStatusError(p.status)), [req])
    else match ParseAll(parse, p.features)
      case Err(fault) => (Err(fault), [req])
      case Ok(rows) =>
        match FirstNext(p.links)
        case None => (Ok(rows), [req])
        case Some(url) =>
          assert !Ends(parse, p) && EndsFrom(parse, pages, k + 1);
          var (rest, reqs) := WalkFrom(parse, pages, k + 1, FollowNext(url));
          (if rest.Ok? then Ok(rows + rest.value) else rest, [req] + reqs)
  }

  /** The walk `fetch_observations` makes: from the first page, reached by the initial request. */
  function Walk(parse: Normaliser, pages: seq<Page>): (walk: (Result<seq<Row>, Fault>, seq<Request>))
    requires EndsFrom(parse, pages, 0)
    ensures 1 <= |walk.1| <= |pages| && walk.1[0] == Initial
  {
    WalkFrom(parse, pages, 0, Initial)
  }

  /** The features of the `n` pages from page `k` on, page after page. */
  function RunFeatures(pages: seq<Page>, k: int, n: nat): seq<Feature>
    requires 0 <= k && k + n <= |pages|
    decreases n
  {
    if n == 0 then [] else pages[k].features + RunFeatures(pages, k + 1, n - 1)
  }

  /** The request that follows page `p`: its first usable `next` link. */
  function Hop(p: Page): Request
    requires FirstNext(p.links).Some?
  {
    FollowNext(FirstNext(p.links).value)
  }

  /** A page that does not end the walk: its rows, then the walk from the page its `next` link names. */
  lemma WalkFromStep(parse: Normaliser, pages: seq<Page>, k: int, req: Request)
    requires EndsFrom(parse, pages, k) && 0 <= k < |pages| && !Ends(parse, pages[k])
    ensures EndsFrom(parse, pages, k + 1)
    ensures var (rest, more) := WalkFrom(parse, pages, k + 1, Hop(pages[k]));
      var rows := ParseAll(parse, pages[k].features).value;
      WalkFrom(parse, pages, k, req) == (if rest.Ok? then Ok(rows + rest.value) else rest, [req] + more)
  {
  }

  /** A page that ends the walk is its last request. */
  lemma WalkFromLast(parse: Normaliser, pages: seq<Page>, k: int, req: Request)
    requires EndsFrom(parse, pages, k) && 0 <= k < |pages| && Ends(parse, pages[k])
    ensures WalkFrom(parse, pages, k, req).1 == [req]
    ensures var p := pages[k];
      WalkFrom(parse, pages, k, req).0 ==
        if !IsSuccess(p.status) then Err(HttpStatusError(p.status)) else ParseAll(parse, p.features)
  {
  }

  /**
   * The requests of a walk: page `k` first, then, for as long as the page just
   * read does not end the walk, the page named by its first usable `next` link;
   * the walk stops at the first page that ends it.
   */
  lemma {:induction false} WalkRequests(parse: Normaliser, pages: seq<Page>, k: int, req: Request)
    requires EndsFrom(parse, pages, k)
    ensures var reqs := WalkFrom(parse, pages, k, req).1;
      && reqs[0] == req
      && (forall i :: k <= i < k + |reqs| - 1 ==> !Ends(parse, pages[i]) && reqs[i - k + 1] == Hop(pages[i]))
      && Ends(parse, pages[k + |reqs| - 1])
    decreases |pages| - k
  {
    var p := pages[k];
    var reqs := WalkFrom(parse, pages, k, req).1;
    if Ends(parse, p) {
      WalkFromLast(parse, pages, k, req);
    } else {
      WalkFromStep(parse, pages, k, req);
      WalkRequests(parse, pages, k + 1, Hop(p));
      var more := WalkFrom(parse, pages, k + 1, Hop(p)).1;
      assert reqs == [req] + more;
      forall i | k <= i < k + |reqs| - 1
        ensures !Ends(parse, pages[i]) && reqs[i - k + 1] == Hop(pages[i])
      {
        if i > k {
          assert reqs[i - k + 1] == more[i - (k + 1) + 1];
        }
      }
    }
  }

  /**
   * How a walk ends: it succeeds exactly when its last page has a 2xx status and
   * all its features normalise; otherwise it raises that page's HTTP error or the
   * exception of its first failing feature.
   */
  lemma {:induction false} WalkOutcome(parse: Normaliser, pages: seq<Page>, k: int, req: Request)
    requires EndsFrom(parse, pages, k)
    ensures var (r, reqs) := WalkFrom(parse, pages, k, req);
      var last := pages[k + |reqs| - 1];
      && (r.Ok? <==> IsSuccess(last.status) && ParseAll(parse, last.features).Ok?)
      && (r.Err? && !IsSuccess(last.status) ==> r.error == HttpStatusError(last.status))
      && (r.Err? && IsSuccess(last.status) ==> r == ParseAll(parse, last.features))
    decreases |pages| - k
  {
    var p := pages[k];
    if Ends(parse, p) {
      WalkFromLast(parse, pages, k, req);
    } else {
      WalkFromStep(parse, pages, k, req);
      WalkOutcome(parse, pages, k + 1, Hop(p));
    }
  }

  /** A successful walk returns the normalised features of all pages it read, in order. */
  lemma {:induction false} WalkRows(parse: Normaliser, pages: seq<Page>, k: int, req: Request)
    requires EndsFrom(parse, pages, k)
    ensures var walk := WalkFrom(parse, pages, k, req);
      walk.0.Ok? ==> walk.0 == ParseAll(parse, RunFeatures(pages, k, |walk.1|))
    decreases |pages| - k
  {
    var p := pages[k];
    if Ends(parse, p) {
      WalkFromLast(parse, pages, k, req);
      assert RunFeatures(pages, k, 1) == p.features + [];
      assert p.features + [] == p.features;
    } else {
      WalkFromStep(parse, pages, k, req);
      WalkRows(parse, pages, k + 1, Hop(p));
      var walk := WalkFrom(parse, pages, k + 1, Hop(p));
      if walk.0.Ok? {
        ParseAllConcat(parse, p.features, RunFeatures(pages, k + 1, |walk.1|));
      }
    }
  }

  /** A walk resumed part-way: the rows and requests so far, then those of the rest of the walk. */
  function Resume(results: seq<Row>, requests: seq<Request>, rest: (Result<seq<Row>, Fault>, seq<Request>)): (Result<seq<Row>, Fault>, seq<Request>)
  {
    (if rest.0.Ok? then Ok(results + rest.0.value) else rest.0, requests + rest.1)
  }

  /** Reading a page that does not end the walk moves the walk on to the page its `next` link names. */
  lemma ResumeStep(parse: Normaliser, pages: seq<Page>, k: int, req: Request, results: seq<Row>, requests: seq<Request>)
    requires EndsFrom(parse, pages, k) && 0 <= k < |pages| && !Ends(parse, pages[k])
    ensures EndsFrom(parse, pages, k + 1)
    ensures Resume(results, requests, WalkFrom(parse, pages, k, req))
      == Resume(results + ParseAll(parse, pages[k].features).value, requests + [req], WalkFrom(parse, pages, k + 1, Hop(pages[k])))
  {
    WalkFromStep(parse, pages, k, req);
    var rows := ParseAll(parse, pages[k].features).value;
    var (rest, more) := WalkFrom(parse, pages, k + 1, Hop(pages[k]));
    assert requests + ([req] + more) == (requests + [req]) + more;
    assert rest.Ok? ==> results + (rows + rest.value) == (results + rows) + rest.value;
  }

  /** Reading a page that ends the walk completes it with that page's outcome. */
  lemma ResumeLast(parse: Normaliser, pages: seq<Page>, k: int, req: Request, results: seq<Row>, requests: seq<Request>)
    requires EndsFrom(parse, pages, k) && 0 <= k < |pages| && Ends(parse, pages[k])
    ensures var p := pages[k];
      var last := if !IsSuccess(p.status) then Err(HttpStatusError(p.status)) else ParseAll(parse, p.features);
      Resume(results, requests, WalkFrom(parse, pages, k, req))
        == (if last.Ok? then Ok(results + last.value) else last, requests + [req])
  {
    WalkFromLast(parse, pages, k, req);
  }

  /**
   * `fetch_observations`: request page after page, normalising each page's
   * features as it arrives, until a page has no usable `next` link; then sort
   * the rows by timestamp, absent timestamps first. A failing status or a feature
   * that raises ends the walk with that exception. Returns the outcome and the
   * requests made.
   */
  method FetchObservations(m: MathLib, pages: seq<Page>) returns (result: Result<seq<Row>, Fault>, requests: seq<Request>)
    requires EndsFrom(Normalise(m), pages, 0)
    ensures requests == Walk(Normalise(m), pages).1
    ensures Walk(Normalise(m), pages).0.Err? ==> result == Walk(Normalise(m), pages).0
    ensures Walk(Normalise(m), pages).0.Ok? ==> result == Ok(SortByTs(Walk(Normalise(m), pages).0.value))
  {
    ghost var parse := Normalise(m);
    var results: seq<Row> := [];
    var request := Initial;
    var k := 0;
    requests := [];
    ghost var first := WalkFrom(parse, pages, 0, request);
    assert [] + first.1 == first.1;
    assert first.0.Ok? ==> [] + first.0.value == first.0.value;
    while true
      invariant EndsFrom(parse, pages, k)
      invariant Walk(parse, pages) == Resume(results, requests, WalkFrom(parse, pages, k, request))
      decreases |pages| - k
    {
      var page := pages[k];
      if !IsSuccess(page.status) {
        ResumeLast(parse, pages, k, request, results, requests);
        requests := requests + [request];
        result := Err(HttpStatusError(page.status));
        return;
      }
      var parsed := NormalisePage(m, page.features, results);
      if parsed.Err? {
        ResumeLast(parse, pages, k, request, results, requests);
        requests := requests + [request];
        result := parsed;
        return;
      }
      var next := NextUrl(page.links);
      if next.None? {
        ResumeLast(parse, pages, k, request, results, requests);
        requests := requests + [request];
        results := parsed.value;
        break;
      }
      ResumeStep(parse, pages, k, request, results, requests);
      requests := requests + [request];
      results := parsed.value;
      request := FollowNext(next.value);
      k := k + 1;
    }
    result := Ok(SortByTs(results));
  }

  /**
   * A successful fetch returns every normalised feature of the pages read,
   * sorted by timestamp (absent ones first), rows with equal timestamps in
   * arrival order.
   */
  lemma FetchSortedStable(parse: Normaliser, pages: seq<Page>, k: string)
    requires EndsFrom(parse, pages, 0)
    requires Walk(parse, pages).0.Ok?
    ensures var (r, reqs) := Walk(parse, pages);
      && ParseAll(parse, RunFeatures(pages, 0, |reqs|)).Ok?
      && var gathered := ParseAll(parse, RunFeatures(pages, 0, |reqs|)).value;
      && SortedByTs(SortByTs(r.value))
      && multiset(SortByTs(r.value)) == multiset(gathered)
      && WithKey(SortByTs(r.value), k) == WithKey(gathered, k)
  {
    WalkRows(parse, pages, 0, Initial);
    SortByTsStable(Walk(parse, pages).0.value, k);
  }
}
