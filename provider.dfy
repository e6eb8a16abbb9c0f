/**
 * What the two provider lookups of compare.py share: the answer a lookup gives and
 * the retry policy of their search loops. After the k-th consecutive failed attempt
 * a loop gives up when k exceeds MAX_TRIES and otherwise sleeps k * k seconds, so a
 * search makes at most MAX_TRIES + 1 attempts and MAX_TRIES sleeps.
 */
module Provider {
  import opened Wrappers

  /** `max_tries` of both search loops. */
  const MAX_TRIES: nat := 100

  /** `{'can_stream': ..., 'url': ...}`, the answer of one provider for one album. */
  datatype StreamResult = StreamResult(canStream: bool, url: Option<string>)

  /** No match, or a query the provider refused: `{'can_stream': False, 'url': None}`. */
  const NOT_STREAMABLE: StreamResult := StreamResult(false, None)

  /** The exceptions a lookup raises; any of them ends the whole run. */
  datatype Failure =
    | NoMoreTries   // the retry budget is spent
    | BadBody       // the success answer could not be used

  /** How a search loop treats one answer of the transport. */
  datatype Verdict<H> =
    | Done(hits: H)  // leave the loop with these hits
    | Reject         // give up at once with "not streamable" (Spotify's 403)
    | Abort          // raise at once
    | Retry          // count a failure, then sleep or give up

  /** How a search loop ends. */
  datatype Outcome<H> = Success(hits: H) | Rejected | Exhausted | Fatal

  /** `tries ** 2`: the sleep after the k-th consecutive failure. */
  function Backoff(k: nat): nat {
    k * k
  }

  /**
   * The outcome of a search loop that has already seen `failed` failed attempts;
   * v(i) is the verdict on the answer to attempt i + 1.
   */
  function Run<H>(v: nat -> Verdict<H>, failed: nat): Outcome<H>
    decreases MAX_TRIES - failed
  {
    match v(failed)
    case Done(hits) => Success(hits)
    case Reject => Rejected
    case Abort => Fatal
    case Retry => if failed + 1 > MAX_TRIES then Exhausted else Run(v, failed + 1)
  }

  /** The sleeps of that loop, in order. */
  function Backoffs<H>(v: nat -> Verdict<H>, failed: nat): seq<nat>
    decreases MAX_TRIES - failed
  {
    match v(failed)
    case Retry =>
      if failed + 1 > MAX_TRIES then [] else [Backoff(failed + 1)] + Backoffs(v, failed + 1)
    case _ => []
  }

  /** The number of attempts made by the time that loop ends, counting those already made. */
  function Attempts<H>(v: nat -> Verdict<H>, failed: nat): nat
    decreases MAX_TRIES - failed
  {
    match v(failed)
    case Retry => if failed + 1 > MAX_TRIES then failed + 1 else Attempts(v, failed + 1)
    case _ => failed + 1
  }

  /** The outcome a decisive verdict ends the loop with. */
  function Decide<H>(d: Verdict<H>): (o: Outcome<H>)
    requires !d.Retry?
    ensures o.Success? <==> d.Done?
    ensures !o.Exhausted?
  {
    match d
    case Done(hits) => Success(hits)
    case Reject => Rejected
    case Abort => Fatal
  }

  /**
   * Sleeps follow the schedule 1, 4, 9, ...: the j-th sleep (from 0) lasts
   * Backoff(failed + j + 1) and follows a failed attempt; there is one attempt more than
   * there are sleeps, and at most MAX_TRIES - failed sleeps.
   */
  lemma {:induction false} BackoffSchedule<H>(v: nat -> Verdict<H>, failed: nat)
    requires failed <= MAX_TRIES
    ensures |Backoffs(v, failed)| <= MAX_TRIES - failed
    ensures Attempts(v, failed) == failed + |Backoffs(v, failed)| + 1
    ensures forall j :: 0 <= j < |Backoffs(v, failed)| ==>
              Backoffs(v, failed)[j] == Backoff(failed + j + 1) && v(failed + j).Retry?
    decreases MAX_TRIES - failed
  {
    if v(failed).Retry? && failed + 1 <= MAX_TRIES {
      BackoffSchedule(v, failed + 1);
      var rest := Backoffs(v, failed + 1);
      assert Backoffs(v, failed) == [Backoff(failed + 1)] + rest;
      forall j | 0 < j < |Backoffs(v, failed)|
        ensures Backoffs(v, failed)[j] == Backoff(failed + j + 1) && v(failed + j).Retry?
      {
        assert Backoffs(v, failed)[j] == rest[j - 1];
        assert failed + 1 + (j - 1) == failed + j;
      }
    }
  }

  /** One turn of a search loop: what a failure, the last failure or a decisive answer leaves to do. */
  lemma Step<H>(v: nat -> Verdict<H>, k: nat)
    ensures v(k).Retry? && k + 1 <= MAX_TRIES ==>
              Run(v, k) == Run(v, k + 1) && Attempts(v, k) == Attempts(v, k + 1) &&
              Backoffs(v, k) == [Backoff(k + 1)] + Backoffs(v, k + 1)
    ensures v(k).Retry? && k + 1 > MAX_TRIES ==>
              Run(v, k) == Exhausted && Backoffs(v, k) == [] && Attempts(v, k) == k + 1
    ensures !v(k).Retry? ==> Run(v, k) == Decide(v(k)) && Backoffs(v, k) == [] && Attempts(v, k) == k + 1
  {
  }

  /** The whole schedule of a search: at most MAX_TRIES sleeps of 1, 4, 9, ... seconds and at most MAX_TRIES + 1 attempts. */
  lemma Schedule<H>(v: nat -> Verdict<H>)
    ensures |Backoffs(v, 0)| <= MAX_TRIES
    ensures Attempts(v, 0) == |Backoffs(v, 0)| + 1 <= MAX_TRIES + 1
    ensures forall j :: 0 <= j < |Backoffs(v, 0)| ==> Backoffs(v, 0)[j] == Backoff(j + 1) && v(j).Retry?
  {
    BackoffSchedule(v, 0);
  }

  /**
   * When attempts failed + 1 .. k have failed and attempt k + 1 is decisive, that verdict
   * is the outcome, after exactly k - failed more sleeps.
   */
  lemma {:induction false} DecidedByFirstAnswer<H>(v: nat -> Verdict<H>, failed: nat, k: nat)
    requires failed <= k <= MAX_TRIES
    requires forall j :: failed <= j < k ==> v(j).Retry?
    requires !v(k).Retry?
    ensures Run(v, failed) == Decide(v(k))
    ensures |Backoffs(v, failed)| == k - failed
    ensures Attempts(v, failed) == k + 1
    decreases k - failed
  {
    if failed < k {
      DecidedByFirstAnswer(v, failed + 1, k);
    }
  }

  /**
   * A search ends with the verdict on the first decisive answer among the first
   * MAX_TRIES + 1, and the sleeps before it are 1, 4, ..., k * k.
   */
  lemma FirstDecisiveAnswer<H>(v: nat -> Verdict<H>, k: nat)
    requires k <= MAX_TRIES
    requires forall j :: 0 <= j < k ==> v(j).Retry?
    requires !v(k).Retry?
    ensures Run(v, 0) == Decide(v(k))
    ensures |Backoffs(v, 0)| == k && Attempts(v, 0) == k + 1
    ensures forall j :: 0 <= j < k ==> Backoffs(v, 0)[j] == Backoff(j + 1)
  {
    DecidedByFirstAnswer(v, 0, k);
    Schedule(v);
  }

  /** Failures from attempt failed + 1 to attempt k + 1 are each followed by their sleep and another attempt. */
  lemma {:induction false} RetriedFrom<H>(v: nat -> Verdict<H>, failed: nat, k: nat)
    requires failed <= k < MAX_TRIES
    requires forall j :: failed <= j <= k ==> v(j).Retry?
    ensures |Backoffs(v, failed)| > k - failed && Backoffs(v, failed)[k - failed] == Backoff(k + 1)
    ensures Attempts(v, failed) > k + 1
    decreases k - failed
  {
    if failed < k {
      RetriedFrom(v, failed + 1, k);
    } else {
      BackoffSchedule(v, k + 1);
    }
  }

  /**
   * After the k-th consecutive failure with k <= MAX_TRIES the loop sleeps exactly k * k
   * seconds and tries again.
   */
  lemma RetriedPrefix<H>(v: nat -> Verdict<H>, k: nat)
    requires k < MAX_TRIES
    requires forall j :: 0 <= j <= k ==> v(j).Retry?
    ensures |Backoffs(v, 0)| > k && Backoffs(v, 0)[k] == (k + 1) * (k + 1)
    ensures Attempts(v, 0) > k + 1
  {
    RetriedFrom(v, 0, k);
  }

  /** A search is exhausted exactly when every attempt from failed + 1 to MAX_TRIES + 1 fails. */
  lemma {:induction false} ExhaustedFrom<H>(v: nat -> Verdict<H>, failed: nat)
    requires failed <= MAX_TRIES
    ensures Run(v, failed).Exhausted? <==> forall j :: failed <= j <= MAX_TRIES ==> v(j).Retry?
    ensures Run(v, failed).Exhausted? ==> |Backoffs(v, failed)| == MAX_TRIES - failed
    decreases MAX_TRIES - failed
  {
    if v(failed).Retry? && failed + 1 <= MAX_TRIES {
      ExhaustedFrom(v, failed + 1);
    }
  }

  /**
   * Exhaustion is raised exactly when the (MAX_TRIES + 1)-th consecutive attempt fails,
   * never earlier, after MAX_TRIES sleeps and MAX_TRIES + 1 attempts.
   */
  lemma ExhaustedIff<H>(v: nat -> Verdict<H>)
    ensures Run(v, 0).Exhausted? <==> forall j :: 0 <= j <= MAX_TRIES ==> v(j).Retry?
    ensures Run(v, 0).Exhausted? ==> |Backoffs(v, 0)| == MAX_TRIES && Attempts(v, 0) == MAX_TRIES + 1
  {
    ExhaustedFrom(v, 0);
    Schedule(v);
  }
}
