/** `extract_text_from_url` and the batch loop `extract_texts_from_urls`.
    The network is a parameter: the answer a probe GET and a content GET of
    each URL would get, and the sequence of GETs issued is returned alongside
    the results so that what is fetched, and in which order, can be stated. */
module Scraper {
  import opened Wrappers
  import opened Soup
  import opened Classifier

  /** The responses the scraper would receive: `probe(url)` for the GET that
      `is_dynamic_website` issues, `fetch(url)` for the GET of the content.
      The two are separate requests and may be answered differently. */
  datatype Web = Web(probe: string -> Response, fetch: string -> Response)

  /** One GET issued by the scraper. */
  datatype Request = ProbeRequest(url: string) | ContentRequest(url: string)

  /** The message raised, or stored, for a URL classified as dynamic. */
  const DynamicSkipMessage: string := "URL is dynamic, skipping."

  /** What a call of `extract_text_from_url` comes to: the text it returns
      or the message of the exception it raises, and the GETs it issued. */
  datatype Extraction = Extraction(result: Result<string, string>, requests: seq<Request>)

  /** `extract_text_from_url`. It always probes first. A dynamic verdict
      raises the skip message and issues no content GET; otherwise the
      content is fetched once, and either the fetch's failure propagates or
      the page's visible text is returned. */
  function ExtractTextFromUrl(web: Web, url: string): (e: Extraction)
    ensures |e.requests| >= 1 && e.requests[0] == ProbeRequest(url)
    ensures forall k | 0 <= k < |e.requests| :: e.requests[k].url == url
    ensures ContentRequest(url) in e.requests <==> !IsDynamicWebsite(web.probe(url))
    ensures IsDynamicWebsite(web.probe(url)) ==> e.result == Err(DynamicSkipMessage)
    ensures e.result.Ok? <==> !IsDynamicWebsite(web.probe(url)) && web.fetch(url).Page?
    ensures e.result.Ok? ==> e.result.value == VisibleText(web.fetch(url).doc)
    ensures !IsDynamicWebsite(web.probe(url)) && web.fetch(url).Failure? ==>
              e.result == Err(web.fetch(url).message)
  {
    if IsDynamicWebsite(web.probe(url)) then
      Extraction(Err(DynamicSkipMessage), [ProbeRequest(url)])
    else
      var requests := [ProbeRequest(url), ContentRequest(url)];
      match web.fetch(url)
      case Failure(message) => Extraction(Err(message), requests)
      case Page(doc) => Extraction(Ok(VisibleText(doc)), requests)
  }

  /** One entry of the batch result, a dictionary with the key `url` and
      whichever of the keys `text` and `error` were set. */
  datatype Record = Record(url: string, text: Option<string>, error: Option<string>)

  predicate ExactlyOneOfTextOrError(r: Record) {
    r.text.Some? != r.error.Some?
  }

  /** The entry that reports an outcome of extracting `url`. */
  function ToRecord(url: string, result: Result<string, string>): (r: Record)
    ensures r.url == url && ExactlyOneOfTextOrError(r)
    ensures result.Ok? ==> r.text == Some(result.value)
    ensures result.Err? ==> r.error == Some(result.error)
  {
    match result
    case Ok(text) => Record(url, Some(text), None)
    case Err(message) => Record(url, None, Some(message))
  }

  /** The batch result: one entry per URL in input order, each the outcome
      `extract_text_from_url` would have for that URL alone. */
  function Batch(web: Web, urls: seq<string>): (r: seq<Record>)
    ensures |r| == |urls|
    ensures forall i | 0 <= i < |r| :: r[i].url == urls[i] && ExactlyOneOfTextOrError(r[i])
  {
    if urls == [] then []
    else
      var prefix, last := urls[..|urls| - 1], urls[|urls| - 1];
      var records := Batch(web, prefix);
      assert forall i | 0 <= i < |prefix| :: prefix[i] == urls[i];
      records + [ToRecord(last, ExtractTextFromUrl(web, last).result)]
  }

  /** The GETs of the batch: each URL's GETs as a block, blocks in input order. */
  function BatchRequests(web: Web, urls: seq<string>): (r: seq<Request>)
    ensures forall k | 0 <= k < |r| :: r[k].url in urls
  {
    if urls == [] then []
    else
      var prefix, last := urls[..|urls| - 1], urls[|urls| - 1];
      assert forall u | u in prefix :: u in urls;
      BatchRequests(web, prefix) + ExtractTextFromUrl(web, last).requests
  }

  /** `extract_texts_from_urls`: the loop over the URLs, building each entry,
      catching the failure of that URL into its entry, and appending it. */
  method ExtractTextsFromUrls(web: Web, urls: seq<string>) returns (results: seq<Record>, requests: seq<Request>)
    ensures results == Batch(web, urls)
    ensures requests == BatchRequests(web, urls)
    ensures |results| == |urls|
    ensures forall i | 0 <= i < |urls| ::
              results[i] == ToRecord(urls[i], ExtractTextFromUrl(web, urls[i]).result)
  {
    results := [];
    requests := [];
    for i := 0 to |urls|
      invariant results == Batch(web, urls[..i])
      invariant requests == BatchRequests(web, urls[..i])
    {
      var url := urls[i];
      ghost var before := requests;
      var result := Record(url, None, None);
      requests := requests + [ProbeRequest(url)];
      if IsDynamicWebsite(web.probe(url)) {
        result := result.(error := Some(DynamicSkipMessage));
        assert ExtractTextFromUrl(web, url) == Extraction(Err(DynamicSkipMessage), [ProbeRequest(url)]);
      } else {
        requests := requests + [ContentRequest(url)];
        assert requests == before + [ProbeRequest(url), ContentRequest(url)];
        match web.fetch(url)
        case Failure(message) =>
          result := result.(error := Some(message));
          assert ExtractTextFromUrl(web, url) == Extraction(Err(message), [ProbeRequest(url), ContentRequest(url)]);
        case Page(doc) =>
          result := result.(text := Some(VisibleText(doc)));
          assert ExtractTextFromUrl(web, url) == Extraction(Ok(VisibleText(doc)), [ProbeRequest(url), ContentRequest(url)]);
      }
      assert result == ToRecord(url, ExtractTextFromUrl(web, url).result);
      assert requests == before + ExtractTextFromUrl(web, url).requests;
      BatchStep(web, urls, i);
      results := results + [result];
    }
    assert urls[..|urls|] == urls;
    forall i | 0 <= i < |urls|
      ensures results[i] == ToRecord(urls[i], ExtractTextFromUrl(web, urls[i]).result)
    {
      BatchAt(web, urls, i);
    }
  }

  /** One more URL adds its record and its GETs at the end. */
  lemma BatchStep(web: Web, urls: seq<string>, i: nat)
    requires i < |urls|
    ensures Batch(web, urls[..i + 1]) == Batch(web, urls[..i]) + [ToRecord(urls[i], ExtractTextFromUrl(web, urls[i]).result)]
    ensures BatchRequests(web, urls[..i + 1]) == BatchRequests(web, urls[..i]) + ExtractTextFromUrl(web, urls[i]).requests
  {
    assert urls[..i + 1][..i] == urls[..i];
    assert urls[..i + 1][i] == urls[i];
  }

  // ---------------------------------------------------------------------
  // Properties of the batch result.

  lemma {:induction false} BatchAt(web: Web, urls: seq<string>, i: nat)
    requires i < |urls|
    ensures |Batch(web, urls)| == |urls|
    ensures Batch(web, urls)[i] == ToRecord(urls[i], ExtractTextFromUrl(web, urls[i]).result)
  {
    var prefix := urls[..|urls| - 1];
    if i < |urls| - 1 {
      BatchAt(web, prefix, i);
    }
  }

  /** Every entry names its URL, has exactly one of `text` and `error`, and
      which one, with what, is decided by that URL's probe and fetch alone. */
  lemma BatchEntry(web: Web, urls: seq<string>, i: nat)
    requires i < |urls|
    ensures |Batch(web, urls)| == |urls|
    ensures var r := Batch(web, urls)[i];
            && r.url == urls[i]
            && ExactlyOneOfTextOrError(r)
            && (IsDynamicWebsite(web.probe(urls[i])) ==> r.error == Some(DynamicSkipMessage))
            && (!IsDynamicWebsite(web.probe(urls[i])) && web.fetch(urls[i]).Failure? ==>
                  r.error == Some(web.fetch(urls[i]).message))
            && (!IsDynamicWebsite(web.probe(urls[i])) && web.fetch(urls[i]).Page? ==>
                  r.text == Some(VisibleText(web.fetch(urls[i]).doc)))
  {
    BatchAt(web, urls, i);
  }

  /** Failure isolation: an entry depends only on the responses for its own
      URL, whatever the other URLs' probes and fetches do. */
  lemma BatchIsolation(web: Web, other: Web, urls: seq<string>, i: nat)
    requires i < |urls|
    requires web.probe(urls[i]) == other.probe(urls[i]) && web.fetch(urls[i]) == other.fetch(urls[i])
    ensures |Batch(web, urls)| == |Batch(other, urls)| == |urls|
    ensures Batch(web, urls)[i] == Batch(other, urls)[i]
  {
    BatchAt(web, urls, i);
    BatchAt(other, urls, i);
  }

  /** Splitting the input splits the result: the entries for `a + b` are the
      entries for `a` followed by those for `b`. */
  lemma {:induction false} BatchAppend(web: Web, a: seq<string>, b: seq<string>)
    ensures Batch(web, a + b) == Batch(web, a) + Batch(web, b)
    decreases |b|
  {
    if b == [] {
      assert a + b == a;
    } else {
      var b' := b[..|b| - 1];
      assert (a + b)[..|a + b| - 1] == a + b';
      assert (a + b)[|a + b| - 1] == b[|b| - 1];
      BatchAppend(web, a, b');
    }
  }

  /** ... and its GETs are those for `a` followed by those for `b`. */
  lemma {:induction false} BatchRequestsAppend(web: Web, a: seq<string>, b: seq<string>)
    ensures BatchRequests(web, a + b) == BatchRequests(web, a) + BatchRequests(web, b)
    decreases |b|
  {
    if b == [] {
      assert a + b == a;
    } else {
      var b' := b[..|b| - 1];
      assert (a + b)[..|a + b| - 1] == a + b';
      assert (a + b)[|a + b| - 1] == b[|b| - 1];
      BatchRequestsAppend(web, a, b');
    }
  }

  // ---------------------------------------------------------------------
  // Properties of the GETs the batch issues.

  /** The URLs probed, in the order of their probe GETs. */
  function Probed(requests: seq<Request>): seq<string> {
    if requests == [] then []
    else (if requests[0].ProbeRequest? then [requests[0].url] else []) + Probed(requests[1..])
  }

  /** The URLs whose content was fetched, in the order of those GETs. */
  function Fetched(requests: seq<Request>): seq<string> {
    if requests == [] then []
    else (if requests[0].ContentRequest? then [requests[0].url] else []) + Fetched(requests[1..])
  }

  /** The input URLs whose probe said static, in input order. */
  function StaticUrls(web: Web, urls: seq<string>): seq<string> {
    if urls == [] then []
    else StaticUrls(web, urls[..|urls| - 1])
         + (if IsDynamicWebsite(web.probe(urls[|urls| - 1])) then [] else [urls[|urls| - 1]])
  }

  lemma {:induction false} ProbedAppend(a: seq<Request>, b: seq<Request>)
    ensures Probed(a + b) == Probed(a) + Probed(b)
  {
    if a == [] {
      assert a + b == b;
    } else {
      var head := if a[0].ProbeRequest? then [a[0].url] else [];
      assert (a + b)[0] == a[0];
      assert (a + b)[1..] == a[1..] + b;
      ProbedAppend(a[1..], b);
      calc {
        Probed(a + b);
        head + Probed(a[1..] + b);
        head + (Probed(a[1..]) + Probed(b));
        (head + Probed(a[1..])) + Probed(b);
      }
    }
  }

  lemma {:induction false} FetchedAppend(a: seq<Request>, b: seq<Request>)
    ensures Fetched(a + b) == Fetched(a) + Fetched(b)
  {
    if a == [] {
      assert a + b == b;
    } else {
      var head := if a[0].ContentRequest? then [a[0].url] else [];
      assert (a + b)[0] == a[0];
      assert (a + b)[1..] == a[1..] + b;
      FetchedAppend(a[1..], b);
      calc {
        Fetched(a + b);
        head + Fetched(a[1..] + b);
        head + (Fetched(a[1..]) + Fetched(b));
        (head + Fetched(a[1..])) + Fetched(b);
      }
    }
  }

  /** The URLs are taken one at a time in input order: every URL is probed
      exactly once, and the probes come in input order. */
  lemma {:induction false} BatchProbesInOrder(web: Web, urls: seq<string>)
    ensures Probed(BatchRequests(web, urls)) == urls
  {
    if urls != [] {
      var prefix, url := urls[..|urls| - 1], urls[|urls| - 1];
      var own := ExtractTextFromUrl(web, url).requests;
      assert BatchRequests(web, urls) == BatchRequests(web, prefix) + own;
      BatchProbesInOrder(web, prefix);
      ProbedAppend(BatchRequests(web, prefix), own);
      OwnProbes(web, url);
      assert prefix + [url] == urls;
    }
  }

  /** Content is fetched exactly for the URLs judged static, once each, in
      input order. */
  lemma {:induction false} BatchFetchesStaticInOrder(web: Web, urls: seq<string>)
    ensures Fetched(BatchRequests(web, urls)) == StaticUrls(web, urls)
  {
    if urls != [] {
      var prefix, url := urls[..|urls| - 1], urls[|urls| - 1];
      var own := ExtractTextFromUrl(web, url).requests;
      assert BatchRequests(web, urls) == BatchRequests(web, prefix) + own;
      BatchFetchesStaticInOrder(web, prefix);
      FetchedAppend(BatchRequests(web, prefix), own);
      OwnFetches(web, url);
    }
  }

  /** A single URL's GETs: one probe, of that URL ... */
  lemma OwnProbes(web: Web, url: string)
    ensures Probed(ExtractTextFromUrl(web, url).requests) == [url]
  {
    var own := ExtractTextFromUrl(web, url).requests;
    if IsDynamicWebsite(web.probe(url)) {
      assert own[1..] == [];
    } else {
      var tail := [ContentRequest(url)];
      assert own[1..] == tail && tail[1..] == [];
      assert Probed(tail) == [];
    }
  }

  /** ... then one content GET exactly when static. */
  lemma OwnFetches(web: Web, url: string)
    ensures Fetched(ExtractTextFromUrl(web, url).requests)
            == if IsDynamicWebsite(web.probe(url)) then [] else [url]
  {
    var own := ExtractTextFromUrl(web, url).requests;
    if IsDynamicWebsite(web.probe(url)) {
      assert own[1..] == [];
    } else {
      var tail := [ContentRequest(url)];
      assert own[1..] == tail && tail[1..] == [];
      assert Fetched(tail) == [url];
    }
  }

  /** No content GET is ever issued for a URL whose probe said dynamic. */
  lemma NoFetchOfDynamicUrl(web: Web, urls: seq<string>, url: string)
    requires IsDynamicWebsite(web.probe(url))
    ensures ContentRequest(url) !in BatchRequests(web, urls)
  {
    NoFetchOfDynamicUrlIn(web, urls, url);
  }

  lemma {:induction false} NoFetchOfDynamicUrlIn(web: Web, urls: seq<string>, url: string)
    requires IsDynamicWebsite(web.probe(url))
    ensures ContentRequest(url) !in BatchRequests(web, urls)
  {
    if urls != [] {
      NoFetchOfDynamicUrlIn(web, urls[..|urls| - 1], url);
      var u := urls[|urls| - 1];
      var own := ExtractTextFromUrl(web, u).requests;
      assert BatchRequests(web, urls) == BatchRequests(web, urls[..|urls| - 1]) + own;
      if ContentRequest(url) in own {
        assert false;
      }
    }
  }
}
