/**
 * The Rdio lookup of compare.py (`rdio`): a search loop that retries the web-service
 * call, then a scan of the albums it returned. The OAuth transport is an oracle:
 * answer(i) is the answer to the (i + 1)-th request.
 */
module Rdio {
  import opened Wrappers
  import opened Provider
  import opened Normalize

  /** One entry of `result.results`, with the fields the scan reads. */
  datatype Hit = Hit(name: string, artist: string, url: string, canStream: bool)

  /** The content of a '200' answer, as `json.loads` and the check after it see it. */
  datatype Body =
    | Malformed               // `json.loads` or one of the `.get` calls raises
    | Falsy                   // null, {}, [], "", 0 or false
    | NoResults               // a truthy object whose `result.results` is missing or null
    | Results(hits: seq<Hit>) // `response['result']['results']`, possibly empty

  /** One answer of the transport: `r['status']`, and the content read when it is '200'. */
  datatype Response = Response(status: string, body: Body)

  /** Host prefix of every album url: `"http://rdio.com" + r['url']`. */
  const HOST: string := "http://rdio.com"

  /** How the search loop treats one answer: only a usable '200' ends it, and nothing is rejected. */
  function Classify(r: Response): Verdict<seq<Hit>> {
    if r.status != "200" then Retry
    else if r.body.Results? then Done(r.body.hits)
    else if r.body.Malformed? then Abort
    else Retry
  }

  /** The verdicts on a whole run of answers. */
  function Verdicts(answer: nat -> Response): nat -> Verdict<seq<Hit>> {
    (i: nat) => Classify(answer(i))
  }

  /**
   * The `while True` loop of `rdio`. The source raises `tries` after a failed answer;
   * here it is raised just before the request, which gives it the same value at the
   * give-up test and at every sleep, and differs only once the loop is left with a
   * usable answer, where `tries` is not read again.
   */
  method Search(answer: nat -> Response) returns (o: Outcome<seq<Hit>>, ghost sleeps: seq<nat>, ghost attempts: nat)
    ensures o == Run(Verdicts(answer), 0)
    ensures sleeps == Backoffs(Verdicts(answer), 0)
    ensures attempts == Attempts(Verdicts(answer), 0)
  {
    ghost var v := Verdicts(answer);
    sleeps := [];
    var tries: nat := 0;
    var response := Falsy;
    while true
      invariant tries <= MAX_TRIES
      invariant Run(v, 0) == Run(v, tries)
      invariant Backoffs(v, 0) == sleeps + Backoffs(v, tries)
      invariant Attempts(v, 0) == Attempts(v, tries)
      decreases MAX_TRIES - tries
    {
      tries := tries + 1;
      var r := answer(tries - 1);
      assert v(tries - 1) == Classify(r);
      Step(v, tries - 1);
      // A '200' whose body is empty or has no results is logged and retried like any
      // other status. A malformed body raises while it is read; that raise is taken
      // after the loop.
      if r.status == "200" && (r.body.Malformed? || r.body.Results?) {
        response := r.body;
        break;
      }
      if tries > MAX_TRIES {
        o, attempts := Exhausted, tries;
        return;
      }
      sleeps := sleeps + [Backoff(tries)];
    }
    attempts := tries;
    if response.Results? {
      o := Success(response.hits);
    } else {
      o := Fatal;
    }
  }

  /** The hit is the album asked for: same cleaned title and same cleaned artist. */
  predicate Matches(hit: Hit, artist: string, album: string) {
    Clean(hit.name) == Clean(album) && Clean(hit.artist) == Clean(artist)
  }

  /** The two accumulators of the scan after it has seen the given hits. */
  function Scanned(hits: seq<Hit>, artist: string, album: string): StreamResult
    decreases |hits|
  {
    if hits == [] then NOT_STREAMABLE
    else
      var before := Scanned(hits[..|hits| - 1], artist, album);
      var last := hits[|hits| - 1];
      if Matches(last, artist, album) then
        StreamResult(before.canStream || last.canStream, Some(HOST + last.url))
      else before
  }

  /** The `for r in response['result']['results']` loop of `rdio`: a full pass with no early exit. */
  method Scan(hits: seq<Hit>, artist: string, album: string) returns (result: StreamResult)
    ensures result == Scanned(hits, artist, album)
  {
    var canStream := false;
    var url: Option<string> := None;
    for i := 0 to |hits|
      invariant StreamResult(canStream, url) == Scanned(hits[..i], artist, album)
    {
      var r := hits[i];
      assert hits[..i + 1][..i] == hits[..i];
      if Clean(r.name) == Clean(album) && Clean(r.artist) == Clean(artist) {
        url := Some(HOST + r.url);
        if r.canStream {
          canStream := true;
        }
      }
    }
    assert hits[..|hits|] == hits;
    result := StreamResult(canStream, url);
  }

  /** Any matching hit sets the url. */
  lemma {:induction false} MatchSetsUrl(hits: seq<Hit>, i: nat, artist: string, album: string)
    requires i < |hits| && Matches(hits[i], artist, album)
    ensures Scanned(hits, artist, album).url.Some?
    decreases |hits|
  {
    if i < |hits| - 1 {
      var init := hits[..|hits| - 1];
      assert init[i] == hits[i];
      MatchSetsUrl(init, i, artist, album);
    }
  }

  /** The url is only ever set by a matching hit. */
  lemma {:induction false} UrlHasMatch(hits: seq<Hit>, artist: string, album: string)
    requires Scanned(hits, artist, album).url.Some?
    ensures exists i :: 0 <= i < |hits| && Matches(hits[i], artist, album)
    decreases |hits|
  {
    var n := |hits| - 1;
    var init := hits[..n];
    if !Matches(hits[n], artist, album) {
      assert Scanned(init, artist, album).url.Some?;
      UrlHasMatch(init, artist, album);
      var i :| 0 <= i < |init| && Matches(init[i], artist, album);
      assert init[i] == hits[i];
    }
  }

  /** The scan leaves the url unset exactly when no hit matches. */
  lemma ScannedNoUrl(hits: seq<Hit>, artist: string, album: string)
    ensures Scanned(hits, artist, album).url.None? <==>
              forall i :: 0 <= i < |hits| ==> !Matches(hits[i], artist, album)
  {
    if Scanned(hits, artist, album).url.Some? {
      UrlHasMatch(hits, artist, album);
    } else {
      forall i | 0 <= i < |hits|
        ensures !Matches(hits[i], artist, album)
      {
        if Matches(hits[i], artist, album) {
          MatchSetsUrl(hits, i, artist, album);
        }
      }
    }
  }

  /** The url is the host followed by the path of the last matching hit in input order. */
  lemma {:induction false} ScannedLastUrl(hits: seq<Hit>, i: nat, artist: string, album: string)
    requires i < |hits| && Matches(hits[i], artist, album)
    requires forall j :: i < j < |hits| ==> !Matches(hits[j], artist, album)
    ensures Scanned(hits, artist, album).url == Some(HOST + hits[i].url)
    decreases |hits|
  {
    if i < |hits| - 1 {
      var init := hits[..|hits| - 1];
      assert Scanned(hits, artist, album) == Scanned(init, artist, album) by {
        assert !Matches(hits[|hits| - 1], artist, album);
      }
      assert init[i] == hits[i];
      assert forall j :: i < j < |init| ==> !Matches(init[j], artist, album) by {
        assert forall j :: i < j < |init| ==> init[j] == hits[j];
      }
      ScannedLastUrl(init, i, artist, album);
    }
  }

  /** One matching hit that can stream makes the album streamable, wherever it sits. */
  lemma {:induction false} StreamableMatchCounts(hits: seq<Hit>, i: nat, artist: string, album: string)
    requires i < |hits| && Matches(hits[i], artist, album) && hits[i].canStream
    ensures Scanned(hits, artist, album).canStream
    decreases |hits|
  {
    if i < |hits| - 1 {
      var init := hits[..|hits| - 1];
      assert init[i] == hits[i];
      StreamableMatchCounts(init, i, artist, album);
    }
  }

  /** The album is streamable only through some matching hit that can stream. */
  lemma {:induction false} CanStreamHasWitness(hits: seq<Hit>, artist: string, album: string)
    requires Scanned(hits, artist, album).canStream
    ensures exists i :: 0 <= i < |hits| && Matches(hits[i], artist, album) && hits[i].canStream
    decreases |hits|
  {
    var n := |hits| - 1;
    var init := hits[..n];
    if !(Matches(hits[n], artist, album) && hits[n].canStream) {
      assert Scanned(init, artist, album).canStream;
      CanStreamHasWitness(init, artist, album);
      var i :| 0 <= i < |init| && Matches(init[i], artist, album) && init[i].canStream;
      assert init[i] == hits[i];
    }
  }

  /** The album is streamable exactly when some matching hit can stream. */
  lemma ScannedCanStream(hits: seq<Hit>, artist: string, album: string)
    ensures Scanned(hits, artist, album).canStream <==>
              exists i :: 0 <= i < |hits| && Matches(hits[i], artist, album) && hits[i].canStream
  {
    if Scanned(hits, artist, album).canStream {
      CanStreamHasWitness(hits, artist, album);
    } else {
      forall i | 0 <= i < |hits| && Matches(hits[i], artist, album)
        ensures !hits[i].canStream
      {
        if hits[i].canStream {
          StreamableMatchCounts(hits, i, artist, album);
        }
      }
    }
  }

  /** A streamable answer always carries a url. */
  lemma {:induction false} CanStreamHasUrl(hits: seq<Hit>, artist: string, album: string)
    ensures Scanned(hits, artist, album).canStream ==> Scanned(hits, artist, album).url.Some?
  {
    if Scanned(hits, artist, album).canStream {
      CanStreamHasWitness(hits, artist, album);
      var i :| 0 <= i < |hits| && Matches(hits[i], artist, album) && hits[i].canStream;
      MatchSetsUrl(hits, i, artist, album);
    }
  }

  /** The value `rdio` returns, or the exception it raises, once the search loop has ended with o. */
  function Answer(o: Outcome<seq<Hit>>, artist: string, album: string): Result<StreamResult, Failure> {
    match o
    case Success(hits) => Ok(Scanned(hits, artist, album))
    case Exhausted => Err(NoMoreTries)
    case _ => Err(BadBody)
  }

  /** `rdio(artist, album)`: search, then scan what was found. */
  method Lookup(answer: nat -> Response, artist: string, album: string)
    returns (r: Result<StreamResult, Failure>, ghost sleeps: seq<nat>)
    ensures r == Answer(Run(Verdicts(answer), 0), artist, album)
    ensures sleeps == Backoffs(Verdicts(answer), 0)
  {
    var o;
    ghost var attempts;
    o, sleeps, attempts := Search(answer);
    if o.Success? {
      var found := Scan(o.hits, artist, album);
      r := Ok(found);
    } else if o.Exhausted? {
      r := Err(NoMoreTries);
    } else {
      r := Err(BadBody);
    }
  }

  /** Rdio has no refusal: a search never ends as Spotify's 403 does. */
  lemma {:induction false} NeverRejected(answer: nat -> Response, failed: nat)
    ensures !Run(Verdicts(answer), failed).Rejected?
    decreases MAX_TRIES - failed
  {
    var v := Verdicts(answer);
    assert v(failed) == Classify(answer(failed));
    if v(failed).Retry? && failed + 1 <= MAX_TRIES {
      NeverRejected(answer, failed + 1);
    }
  }

  /**
   * A status other than '200', an empty body and a body without results are all retried:
   * each is followed by the next request, after a sleep of k * k seconds for the k-th failure.
   */
  lemma RetriedAnswers(answer: nat -> Response, k: nat)
    requires k < MAX_TRIES
    requires forall j :: 0 <= j <= k ==>
               answer(j).status != "200" || answer(j).body.Falsy? || answer(j).body.NoResults?
    ensures |Backoffs(Verdicts(answer), 0)| > k && Backoffs(Verdicts(answer), 0)[k] == (k + 1) * (k + 1)
    ensures Attempts(Verdicts(answer), 0) > k + 1
  {
    var v := Verdicts(answer);
    assert forall j :: 0 <= j <= k ==> v(j).Retry? by {
      forall j | 0 <= j <= k ensures v(j).Retry? {
        assert v(j) == Classify(answer(j));
      }
    }
    RetriedPrefix(v, k);
  }

  /** A '200' with an empty result list is a success, and the scan of it finds nothing. */
  lemma EmptyResultsSucceed(answer: nat -> Response, artist: string, album: string)
    requires answer(0) == Response("200", Results([]))
    ensures Answer(Run(Verdicts(answer), 0), artist, album) == Ok(NOT_STREAMABLE)
    ensures Backoffs(Verdicts(answer), 0) == [] && Attempts(Verdicts(answer), 0) == 1
  {
    FirstDecisiveAnswer(Verdicts(answer), 0);
  }

  /** Three failed requests and then results: sleeps of 1, 4 and 9 seconds, and those results. */
  lemma ThreeFailuresThenSuccess(answer: nat -> Response, hits: seq<Hit>)
    requires forall j :: 0 <= j < 3 ==> answer(j).status != "200"
    requires answer(3) == Response("200", Results(hits))
    ensures Run(Verdicts(answer), 0) == Success(hits)
    ensures Backoffs(Verdicts(answer), 0) == [1, 4, 9] && Attempts(Verdicts(answer), 0) == 4
  {
    FirstDecisiveAnswer(Verdicts(answer), 3);
  }

  /** The lookup runs out of tries exactly when none of the first MAX_TRIES + 1 answers is usable or malformed. */
  lemma ExhaustedExactly(answer: nat -> Response, artist: string, album: string)
    ensures Answer(Run(Verdicts(answer), 0), artist, album) == Err(NoMoreTries) <==>
              forall j :: 0 <= j <= MAX_TRIES ==>
                answer(j).status != "200" || answer(j).body.Falsy? || answer(j).body.NoResults?
  {
    var v := Verdicts(answer);
    ExhaustedIff(v);
    forall j: nat
      ensures v(j).Retry? <==> answer(j).status != "200" || answer(j).body.Falsy? || answer(j).body.NoResults?
    {
      assert v(j) == Classify(answer(j));
    }
  }
}
