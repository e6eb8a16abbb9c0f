/**
 * The Spotify lookup of compare.py (`spotify` and `spotify_artist`): a search loop
 * that retries the metadata API, then a scan of the albums it returned. The HTTP
 * transport is an oracle: answer(i) is the response to the (i + 1)-th request.
 */
module Spotify {
  import opened Wrappers
  import opened Provider
  import opened Normalize
  import Tokens

  /** One entry of the answer's `albums` list, with the fields the scan reads. */
  datatype Hit = Hit(name: string, artists: seq<string>, href: string, territories: string)

  /** The body of a 200 answer, as `json.loads` and the scan see it. */
  datatype Body =
    | Unparsable              // `json.loads` raises
    | Falsy                   // null, {}, [], "", 0 or false: `if not response` raises
    | NoAlbums                // a truthy value without "albums": the scan raises KeyError
    | Albums(hits: seq<Hit>)  // `response['albums']`

  /** One answer of the transport: `r.code`, and the body read when the code is 200. */
  datatype Response = Response(code: int, body: Body)

  /** How the search loop and the check after it treat one answer. */
  function Classify(r: Response): Verdict<seq<Hit>> {
    if r.code == 200 then
      (if r.body.Albums? then Done(r.body.hits) else Abort)
    else if r.code == 403 then Reject
    else Retry
  }

  /** The verdicts on a whole run of answers. */
  function Verdicts(answer: nat -> Response): nat -> Verdict<seq<Hit>> {
    (i: nat) => Classify(answer(i))
  }

  /**
   * The `while True` loop of `spotify` and the `if not response` check after it.
   * The sleeps it makes and the number of requests it sends are ghost.
   */
  method Search(answer: nat -> Response) returns (o: Outcome<seq<Hit>>, ghost sleeps: seq<nat>, ghost attempts: nat)
    ensures o == Run(Verdicts(answer), 0)
    ensures sleeps == Backoffs(Verdicts(answer), 0)
    ensures attempts == Attempts(Verdicts(answer), 0)
  {
    ghost var v := Verdicts(answer);
    sleeps := [];
    var tries: nat := 0;
    var response := Falsy;
    while true
      invariant tries <= MAX_TRIES
      invariant Run(v, 0) == Run(v, tries)
      invariant Backoffs(v, 0) == sleeps + Backoffs(v, tries)
      invariant Attempts(v, 0) == Attempts(v, tries)
      decreases MAX_TRIES - tries
    {
      tries := tries + 1;
      var r := answer(tries - 1);
      assert v(tries - 1) == Classify(r);
      Step(v, tries - 1);
      if r.code == 200 {
        response := r.body;
        break;
      } else if r.code == 403 {
        o, attempts := Rejected, tries;
        return;
      }
      if tries > MAX_TRIES {
        o, attempts := Exhausted, tries;
        return;
      }
      sleeps := sleeps + [Backoff(tries)];
    }
    attempts := tries;
    if response.Albums? {
      o := Success(response.hits);
    } else {
      o := Fatal;
    }
  }

  /**
   * Some artist of the list cleans to the same name as the one asked for, checked
   * front to back as `spotify_artist` does.
   */
  predicate Credited(artists: seq<string>, artist: string)
    decreases |artists|
  {
    artists != [] && (Clean(artists[0]) == Clean(artist) || Credited(artists[1..], artist))
  }

  /** `spotify_artist(a, artist_name)`: a loop that returns at the first credited artist that matches. */
  method CreditsArtist(hit: Hit, artistName: string) returns (found: bool)
    ensures found == Credited(hit.artists, artistName)
  {
    for j := 0 to |hit.artists|
      invariant Credited(hit.artists, artistName) == Credited(hit.artists[j..], artistName)
    {
      if Clean(hit.artists[j]) == Clean(artistName) {
        return true;
      }
    }
    return false;
  }

  /** An entry that cleans to the artist's name credits the artist, wherever it sits. */
  lemma {:induction false} CreditedAt(artists: seq<string>, j: nat, artist: string)
    requires j < |artists| && Clean(artists[j]) == Clean(artist)
    ensures Credited(artists, artist)
    decreases j
  {
    if j > 0 && Clean(artists[0]) != Clean(artist) {
      assert artists[1..][j - 1] == artists[j];
      CreditedAt(artists[1..], j - 1, artist);
    }
  }

  /** The artist is only credited through an entry that cleans to the same name. */
  lemma {:induction false} CreditedHasWitness(artists: seq<string>, artist: string)
    requires Credited(artists, artist)
    ensures exists j :: 0 <= j < |artists| && Clean(artists[j]) == Clean(artist)
    decreases |artists|
  {
    if Clean(artists[0]) != Clean(artist) {
      var rest := artists[1..];
      CreditedHasWitness(rest, artist);
      var j :| 0 <= j < |rest| && Clean(rest[j]) == Clean(artist);
      assert artists[j + 1] == rest[j];
    }
  }

  /** The list credits the artist exactly when one of its entries cleans to the same name. */
  lemma {:induction false} CreditedIff(artists: seq<string>, artist: string)
    ensures Credited(artists, artist) <==> exists j :: 0 <= j < |artists| && Clean(artists[j]) == Clean(artist)
  {
    if Credited(artists, artist) {
      CreditedHasWitness(artists, artist);
    } else {
      forall j | 0 <= j < |artists| ensures Clean(artists[j]) != Clean(artist) {
        if Clean(artists[j]) == Clean(artist) {
          CreditedAt(artists, j, artist);
        }
      }
    }
  }

  /** The hit is the album asked for: same cleaned title and a matching credited artist. */
  predicate Matches(hit: Hit, artist: string, album: string) {
    Clean(hit.name) == Clean(album) && Credited(hit.artists, artist)
  }

  /** The country is one of the space-separated territories, or the album is available worldwide. */
  predicate Streamable(hit: Hit, country: string) {
    country in Tokens.Split(hit.territories, ' ') || hit.territories == "worldwide"
  }

  /**
   * For a territory list written as country codes joined by single spaces, the album is
   * streamable exactly in the listed countries, or everywhere when the list is "worldwide".
   */
  lemma ListedTerritories(hit: Hit, countries: seq<string>, country: string)
    requires |countries| >= 1 && forall i :: 0 <= i < |countries| ==> ' ' !in countries[i]
    requires hit.territories == Tokens.Join(countries, ' ')
    ensures Streamable(hit, country) <==> country in countries || hit.territories == "worldwide"
  {
    Tokens.SplitJoin(countries, ' ');
  }

  /** The two accumulators of the scan after it has seen the given hits. */
  function Scanned(hits: seq<Hit>, artist: string, album: string, country: string): StreamResult
    decreases |hits|
  {
    if hits == [] then NOT_STREAMABLE
    else
      var before := Scanned(hits[..|hits| - 1], artist, album, country);
      var last := hits[|hits| - 1];
      if Matches(last, artist, album) then
        StreamResult(before.canStream || Streamable(last, country), Some(last.href))
      else before
  }

  /** The `for a in response['albums']` loop of `spotify`: a full pass with no early exit. */
  method Scan(hits: seq<Hit>, artist: string, album: string, country: string) returns (result: StreamResult)
    ensures result == Scanned(hits, artist, album, country)
  {
    var canStream := false;
    var url: Option<string> := None;
    for i := 0 to |hits|
      invariant StreamResult(canStream, url) == Scanned(hits[..i], artist, album, country)
    {
      var a := hits[i];
      assert hits[..i + 1][..i] == hits[..i];
      var isMatch := Clean(a.name) == Clean(album);
      if isMatch {
        isMatch := CreditsArtist(a, artist);
      }
      if isMatch {
        url := Some(a.href);
        if country in Tokens.Split(a.territories, ' ') || a.territories == "worldwide" {
          canStream := true;
        }
      }
    }
    assert hits[..|hits|] == hits;
    result := StreamResult(canStream, url);
  }

  /** Any matching hit sets the url. */
  lemma {:induction false} MatchSetsUrl(hits: seq<Hit>, i: nat, artist: string, album: string, country: string)
    requires i < |hits| && Matches(hits[i], artist, album)
    ensures Scanned(hits, artist, album, country).url.Some?
    decreases |hits|
  {
    if i < |hits| - 1 {
      var init := hits[..|hits| - 1];
      assert init[i] == hits[i];
      MatchSetsUrl(init, i, artist, album, country);
    }
  }

  /** The url is only ever set by a matching hit. */
  lemma {:induction false} UrlHasMatch(hits: seq<Hit>, artist: string, album: string, country: string)
    requires Scanned(hits, artist, album, country).url.Some?
    ensures exists i :: 0 <= i < |hits| && Matches(hits[i], artist, album)
    decreases |hits|
  {
    var n := |hits| - 1;
    var init := hits[..n];
    if !Matches(hits[n], artist, album) {
      assert Scanned(init, artist, album, country).url.Some?;
      UrlHasMatch(init, artist, album, country);
      var i :| 0 <= i < |init| && Matches(init[i], artist, album);
      assert init[i] == hits[i];
    }
  }

  /** The scan leaves the url unset exactly when no hit matches. */
  lemma ScannedNoUrl(hits: seq<Hit>, artist: string, album: string, country: string)
    ensures Scanned(hits, artist, album, country).url.None? <==>
              forall i :: 0 <= i < |hits| ==> !Matches(hits[i], artist, album)
  {
    if Scanned(hits, artist, album, country).url.Some? {
      UrlHasMatch(hits, artist, album, country);
    } else {
      forall i | 0 <= i < |hits|
        ensures !Matches(hits[i], artist, album)
      {
        if Matches(hits[i], artist, album) {
          MatchSetsUrl(hits, i, artist, album, country);
        }
      }
    }
  }

  /** The url is that of the last matching hit in input order. */
  lemma {:induction false} ScannedLastUrl(hits: seq<Hit>, i: nat, artist: string, album: string, country: string)
    requires i < |hits| && Matches(hits[i], artist, album)
    requires forall j :: i < j < |hits| ==> !Matches(hits[j], artist, album)
    ensures Scanned(hits, artist, album, country).url == Some(hits[i].href)
    decreases |hits|
  {
    if i < |hits| - 1 {
      var init := hits[..|hits| - 1];
      assert Scanned(hits, artist, album, country) == Scanned(init, artist, album, country) by {
        assert !Matches(hits[|hits| - 1], artist, album);
      }
      assert init[i] == hits[i];
      assert forall j :: i < j < |init| ==> !Matches(init[j], artist, album) by {
        assert forall j :: i < j < |init| ==> init[j] == hits[j];
      }
      ScannedLastUrl(init, i, artist, album, country);
    }
  }

  /** One matching hit that is streamable makes the album streamable, wherever it sits. */
  lemma {:induction false} StreamableMatchCounts(hits: seq<Hit>, i: nat, artist: string, album: string, country: string)
    requires i < |hits| && Matches(hits[i], artist, album) && Streamable(hits[i], country)
    ensures Scanned(hits, artist, album, country).canStream
    decreases |hits|
  {
    if i < |hits| - 1 {
      var init := hits[..|hits| - 1];
      assert init[i] == hits[i];
      StreamableMatchCounts(init, i, artist, album, country);
    }
  }

  /** The album is streamable only through some matching hit that is streamable. */
  lemma {:induction false} CanStreamHasWitness(hits: seq<Hit>, artist: string, album: string, country: string)
    requires Scanned(hits, artist, album, country).canStream
    ensures exists i :: 0 <= i < |hits| && Matches(hits[i], artist, album) && Streamable(hits[i], country)
    decreases |hits|
  {
    var n := |hits| - 1;
    var init := hits[..n];
    if Matches(hits[n], artist, album) && Streamable(hits[n], country) {
    } else {
      assert Scanned(init, artist, album, country).canStream;
      CanStreamHasWitness(init, artist, album, country);
      var i :| 0 <= i < |init| && Matches(init[i], artist, album) && Streamable(init[i], country);
      assert init[i] == hits[i];
    }
  }

  /** The album is streamable exactly when some matching hit is streamable. */
  lemma ScannedCanStream(hits: seq<Hit>, artist: string, album: string, country: string)
    ensures Scanned(hits, artist, album, country).canStream <==>
              exists i :: 0 <= i < |hits| && Matches(hits[i], artist, album) && Streamable(hits[i], country)
  {
    if Scanned(hits, artist, album, country).canStream {
      CanStreamHasWitness(hits, artist, album, country);
    } else {
      forall i | 0 <= i < |hits| && Matches(hits[i], artist, album)
        ensures !Streamable(hits[i], country)
      {
        if Streamable(hits[i], country) {
          StreamableMatchCounts(hits, i, artist, album, country);
        }
      }
    }
  }

  /** A streamable answer always carries a url. */
  lemma {:induction false} CanStreamHasUrl(hits: seq<Hit>, artist: string, album: string, country: string)
    ensures Scanned(hits, artist, album, country).canStream ==> Scanned(hits, artist, album, country).url.Some?
  {
    if Scanned(hits, artist, album, country).canStream {
      CanStreamHasWitness(hits, artist, album, country);
      var i :| 0 <= i < |hits| && Matches(hits[i], artist, album) && Streamable(hits[i], country);
      MatchSetsUrl(hits, i, artist, album, country);
    }
  }

  /** Of two matching hits the second gives the url, while the first alone makes the album streamable. */
  lemma LastMatchWins(first: Hit, second: Hit, artist: string, album: string, country: string)
    requires Matches(first, artist, album) && Matches(second, artist, album)
    requires Streamable(first, country) && !Streamable(second, country)
    ensures Scanned([first, second], artist, album, country) == StreamResult(true, Some(second.href))
  {
  }

  /** The value `spotify` returns, or the exception it raises, once the search loop has ended with o. */
  function Answer(o: Outcome<seq<Hit>>, artist: string, album: string, country: string): Result<StreamResult, Failure> {
    match o
    case Success(hits) => Ok(Scanned(hits, artist, album, country))
    case Rejected => Ok(NOT_STREAMABLE)
    case Exhausted => Err(NoMoreTries)
    case Fatal => Err(BadBody)
  }

  /** `spotify(artist, album)`: search, then scan what was found. */
  method Lookup(answer: nat -> Response, artist: string, album: string, country: string)
    returns (r: Result<StreamResult, Failure>, ghost sleeps: seq<nat>)
    ensures r == Answer(Run(Verdicts(answer), 0), artist, album, country)
    ensures sleeps == Backoffs(Verdicts(answer), 0)
  {
    var o;
    ghost var attempts;
    o, sleeps, attempts := Search(answer);
    match o
    case Success(hits) =>
      var found := Scan(hits, artist, album, country);
      r := Ok(found);
    case Rejected =>
      r := Ok(NOT_STREAMABLE);
    case Exhausted =>
      r := Err(NoMoreTries);
    case Fatal =>
      r := Err(BadBody);
  }

  /** A 403 on the first request ends the lookup as "not streamable", with no sleep and no second request. */
  lemma RejectedAtOnce(answer: nat -> Response, artist: string, album: string, country: string)
    requires answer(0).code == 403
    ensures Answer(Run(Verdicts(answer), 0), artist, album, country) == Ok(NOT_STREAMABLE)
    ensures Backoffs(Verdicts(answer), 0) == [] && Attempts(Verdicts(answer), 0) == 1
  {
    FirstDecisiveAnswer(Verdicts(answer), 0);
  }

  /** Three failed requests and then a usable answer: sleeps of 1, 4 and 9 seconds, and that answer's albums. */
  lemma ThreeFailuresThenSuccess(answer: nat -> Response, hits: seq<Hit>)
    requires forall j :: 0 <= j < 3 ==> answer(j).code != 200 && answer(j).code != 403
    requires answer(3) == Response(200, Albums(hits))
    ensures Run(Verdicts(answer), 0) == Success(hits)
    ensures Backoffs(Verdicts(answer), 0) == [1, 4, 9] && Attempts(Verdicts(answer), 0) == 4
  {
    FirstDecisiveAnswer(Verdicts(answer), 3);
  }

  /**
   * Any status other than 200 and 403 is retried: the k-th such failure in a row is
   * followed by a sleep of k * k seconds and another request.
   */
  lemma RetriedAnswers(answer: nat -> Response, k: nat)
    requires k < MAX_TRIES
    requires forall j :: 0 <= j <= k ==> answer(j).code != 200 && answer(j).code != 403
    ensures |Backoffs(Verdicts(answer), 0)| > k && Backoffs(Verdicts(answer), 0)[k] == (k + 1) * (k + 1)
    ensures Attempts(Verdicts(answer), 0) > k + 1
  {
    var v := Verdicts(answer);
    assert forall j :: 0 <= j <= k ==> v(j).Retry? by {
      forall j | 0 <= j <= k ensures v(j).Retry? {
        assert v(j) == Classify(answer(j));
      }
    }
    RetriedPrefix(v, k);
  }

  /** A 200 whose body is not a usable album list raises instead of retrying. */
  lemma UnusableBodyRaises(answer: nat -> Response, k: nat, artist: string, album: string, country: string)
    requires k <= MAX_TRIES
    requires forall j :: 0 <= j < k ==> answer(j).code != 200 && answer(j).code != 403
    requires answer(k).code == 200 && !answer(k).body.Albums?
    ensures Answer(Run(Verdicts(answer), 0), artist, album, country) == Err(BadBody)
    ensures |Backoffs(Verdicts(answer), 0)| == k
  {
    FirstDecisiveAnswer(Verdicts(answer), k);
  }

  /** The lookup runs out of tries exactly when the first MAX_TRIES + 1 answers are all neither 200 nor 403. */
  lemma ExhaustedExactly(answer: nat -> Response, artist: string, album: string, country: string)
    ensures Answer(Run(Verdicts(answer), 0), artist, album, country) == Err(NoMoreTries) <==>
              forall j :: 0 <= j <= MAX_TRIES ==> answer(j).code != 200 && answer(j).code != 403
  {
    var v := Verdicts(answer);
    ExhaustedIff(v);
    forall j: nat ensures v(j).Retry? <==> answer(j).code != 200 && answer(j).code != 403 {
      assert v(j) == Classify(answer(j));
    }
  }
}
