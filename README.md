# aotycmp `compare.py` in Dafny

`compare.py` takes albums from a year-end list and asks two streaming services,
Spotify and Rdio, whether each album can be streamed. This project models the three
parts of that script which hold its logic:

- **The name normaliser `clean`** (module `Normalize`). It lower-cases a string and
  deletes every `" and "`. It then deletes a leading `"the "` and a trailing
  parenthesised suffix. Last, it deletes every character of a fixed punctuation
  class, the space included. Two titles or artist names match when their cleaned
  forms are equal. The regular expressions are modelled as Python's `re.sub` runs
  them:
  - the scan for `" and "` goes left to right, and its matches never overlap;
  - `^` matches only at the start of the string;
  - `' \(.+\)$'` matches at the leftmost `" ("` that still leaves at least one
    character before the final `)`;
  - `.` does not match a newline, and `$` also matches just before a final newline;
  - the class `[\.,-\/#!$%\^&\*;:{}=\-_`~() ]` contains the range `,`..`/`.
- **The search loops** of `spotify` and `rdio` (modules `Provider`, `Spotify` and
  `Rdio`).
  - The transport is an oracle: `answer(i)` is the answer to the (i+1)-th request.
  - After the k-th failure in a row, a loop gives up if k > 100. Otherwise it sleeps
    k² seconds and tries again.
  - The sleeps and the number of requests are ghost outputs.
  - The shared recursive functions `Provider.Run`, `Provider.Backoffs` and
    `Provider.Attempts` define what a loop returns, which sleeps it takes and how many
    requests it makes. Each loop method is proved equal to them.
- **The match scans** of both lookups, and `spotify_artist`. Each scan passes over
  every hit:
  - `url` is overwritten by every hit whose cleaned title and artist match;
  - `can_stream` becomes true once a matching hit is streamable.

  Each scan method is proved equal to a recursive function, `Scanned`. The lemmas then
  characterise `Scanned`: the last match wins, and `can_stream` holds exactly when
  some match is streamable.

Spotify's `territories.split(' ')` is modelled by `Tokens.Split`, together with the
join that inverts it.

Two behaviours of the code are easy to misread, and the model keeps both:

- A search gives up only after its 101st failed attempt, not its 100th. Line 65
  tests `tries > max_tries`, after `tries` has been raised (line 118 likewise for Rdio).
- A Spotify `200` whose body is empty or has no `albums` list is not retried. It
  raises (lines 72-73 and 78).

## Model

| member | source | states |
|---|---|---|
| Normalize.Clean | compare.py:135-141 | `clean(a)`: the five substitutions composed in source order; its properties are the `Clean*` lemmas |
| Normalize.Lower | compare.py:136 | `a.lower()` keeps the length and folds each ASCII upper-case letter to lower case, leaving every other character alone |
| Normalize.DeleteAnd | compare.py:137 | `re.sub(' and ', '', a)`: a left-to-right scan that deletes each non-overlapping `" and "`; `DeleteAndSkipsWord` states how it passes over a word |
| Normalize.StripThe | compare.py:138 | `re.sub('^the ', '', a)`: the result is the input itself, or the input is `"the "` followed by the result |
| Normalize.StripParen | compare.py:139 | `re.sub(' \(.+\)$', '', a)`: the scan from position 0; `StripParenKeeps` and `StripParenCuts` state both of its cases |
| Normalize.StripFrom | compare.py:139 | the same scan resumed at a position: the first position where the pattern matches is cut out through the `)` |
| Normalize.DropPunct | compare.py:140 | the last substitution deletes each character of the class in turn; `DropPunctSound` states what it leaves |
| Normalize.CleanIsCanonical | compare.py:135-141 | a cleaned string holds no ASCII upper-case letter, no space and no character of the punctuation class |
| Normalize.CleanKeepsCanonical | compare.py:135-141 | a string with no upper-case letter, space or punctuation is its own cleaned form |
| Normalize.CleanIdempotent | compare.py:135-141 | `clean(clean(s)) == clean(s)` for every string |
| Normalize.CleanIgnoresCase | compare.py:136 | `clean(s) == clean(s.lower())` |
| Normalize.StripParenKeeps | compare.py:139 | where `' \(.+\)$'` matches at no position, the string is left unchanged |
| Normalize.StripParenCuts | compare.py:139 | where the pattern matches, the cut runs from the leftmost match to the closing `)`, and a final newline after it is kept |
| Normalize.DropPunctSound | compare.py:140 | the last substitution leaves no character of the class and introduces no upper-case letter |
| Normalize.DeleteAndSkipsWord | compare.py:137 | deleting `" and "` passes unchanged over a leading run without spaces |
| Normalize.CleanTwoWords | compare.py:135-141 | two lower-case words, the first not "the", joined by a space clean to their concatenation |
| Normalize.CleanDropsArticle | compare.py:138 | `"the x y"` cleans to `xy` for lower-case words x and y, where x is not "and" |
| Normalize.CleanDropsAndAndSuffix | compare.py:137-139 | `"x and y (z)"` cleans to `xy` for lower-case words x, y and z, where xy is not "the" |
| Normalize.CleanTheVelvetUnderground | compare.py:135-141 | "The Velvet Underground" cleans to "velvetunderground" |
| Normalize.CleanVelvetUnderground | compare.py:135-141 | "velvet underground" cleans to the same key |
| Normalize.CleanBoyAndBearDeluxe | compare.py:135-141 | "Boy and Bear (Deluxe)" cleans to "boybear" |
| Normalize.CleanBoyBear | compare.py:135-141 | "Boy Bear" cleans to the same key |
| Tokens.Split | compare.py:81 | `split(' ')` gives at least one token, and no token contains the separator |
| Tokens.JoinSplit | compare.py:81 | joining the tokens of a split with the separator gives back the original string |
| Tokens.SplitJoin | compare.py:81 | splitting a join of one or more separator-free tokens gives back those tokens |
| Provider.Run | compare.py:45-70 | the outcome of a search loop after a number of failures: a decisive verdict ends it; a failure ends it once more than 100 have been counted, and otherwise the loop goes on |
| Provider.Backoffs | compare.py:65-70 | the sleeps of that loop in order: `tries ** 2` after each failure that does not end it |
| Provider.Attempts | compare.py:48-50 | the number of requests the loop has made when it ends |
| Provider.Schedule | compare.py:45-70 | a search sleeps at most 100 times and makes one request more than it sleeps, so at most 101; the j-th sleep lasts (j+1)² seconds and follows a failed request |
| Provider.FirstDecisiveAnswer | compare.py:48-70 | when requests 1..k fail and request k+1 is decisive, its verdict is the outcome, after exactly k sleeps of 1, 4, ..., k² seconds |
| Provider.RetriedPrefix | compare.py:65-70 | after the k-th failure in a row, with k ≤ 100, the loop sleeps exactly k² seconds and makes another request |
| Provider.ExhaustedIff | compare.py:65-66 | a search gives up exactly when its first 101 requests all fail; it then has slept 100 times and made 101 requests |
| Spotify.Classify | compare.py:52-78 | a 200 with an `albums` list ends the loop with those hits; a 200 with any other body raises; a 403 ends it as "not streamable"; any other code is a failure |
| Spotify.Credited | compare.py:86-90 | `spotify_artist` as a recursive definition: the first listed artist cleans to the name, or one of the rest does |
| Spotify.Matches | compare.py:79 | a hit matches when its cleaned title equals the album's and `spotify_artist` credits the artist |
| Spotify.Streamable | compare.py:81 | the country is one of the space-separated territories, or the territories are "worldwide"; `ListedTerritories` states its meaning |
| Spotify.Scanned | compare.py:75-84 | the two accumulators after the hits seen so far; its properties are the `Scanned*` lemmas |
| Spotify.Answer | compare.py:61-84 | the value `spotify` returns, or the exception it raises, for each way the loop can end |
| Spotify.Search | compare.py:45-73 | the loop's outcome, sleep trace and request count are those of the shared retry policy, applied to Spotify's classification of the answers |
| Spotify.CreditsArtist | compare.py:86-90 | `spotify_artist` is true exactly when `Credited` holds for the hit's artists |
| Spotify.CreditedIff | compare.py:86-90 | an artist is credited exactly when one of the hit's artists cleans to the same name |
| Spotify.Scan | compare.py:75-84 | the scan loop's two accumulators equal the recursive `Scanned` of the hits |
| Spotify.ScannedNoUrl | compare.py:76-80 | the url stays unset exactly when no hit matches both title and artist |
| Spotify.ScannedLastUrl | compare.py:78-80 | the url is the `href` of the last matching hit, in input order |
| Spotify.ScannedCanStream | compare.py:75-82 | `can_stream` holds exactly when some matching hit is streamable in the country |
| Spotify.CanStreamHasUrl | compare.py:79-82 | a streamable answer always carries a url |
| Spotify.LastMatchWins | compare.py:78-82 | with two matches, the second gives the url, but the first alone still makes the album streamable |
| Spotify.ListedTerritories | compare.py:81 | for a territory list of space-joined country codes, the album is streamable exactly in the listed countries, or everywhere when the list is "worldwide" |
| Spotify.Lookup | compare.py:39-84 | `spotify` returns the scan of the found albums, or "not streamable" after a 403; it raises when the tries run out or the body is unusable |
| Spotify.RejectedAtOnce | compare.py:61-63 | a 403 on the first request gives "not streamable", with no sleep and no second request |
| Spotify.ThreeFailuresThenSuccess | compare.py:48-70 | three failures and then a usable 200 give sleeps of 1, 4 and 9 seconds, 4 requests, and that answer's albums |
| Spotify.RetriedAnswers | compare.py:61-70 | a status other than 200 and 403 is retried: the k-th such failure in a row is followed by a k² second sleep and another request |
| Spotify.UnusableBodyRaises | compare.py:72-78 | a 200 whose body is unparsable, empty or has no albums raises instead of being retried |
| Spotify.ExhaustedExactly | compare.py:65-66 | the lookup runs out of tries exactly when the first 101 answers all have a status other than 200 and 403 |
| Rdio.Classify | compare.py:107-116 | a '200' whose body has `result.results` ends the loop with them; a '200' whose body cannot be decoded raises; any other answer is a failure |
| Rdio.Matches | compare.py:128 | a result matches when its cleaned title and cleaned artist both equal the album's and the artist's |
| Rdio.Scanned | compare.py:125-133 | the two accumulators after the results seen so far; its properties are the `Scanned*` lemmas |
| Rdio.Answer | compare.py:106-133 | the value `rdio` returns, or the exception it raises, for each way the loop can end |
| Rdio.Search | compare.py:103-123 | the loop's outcome, sleep trace and request count are those of the shared retry policy, applied to Rdio's classification of the answers |
| Rdio.Scan | compare.py:125-133 | the scan loop's two accumulators equal the recursive `Scanned` of the results |
| Rdio.ScannedNoUrl | compare.py:126-129 | the url stays unset exactly when no result matches both title and artist |
| Rdio.ScannedLastUrl | compare.py:127-129 | the url is `"http://rdio.com"` followed by the `url` of the last matching result |
| Rdio.ScannedCanStream | compare.py:127-131 | `can_stream` holds exactly when some matching result has `canStream` set |
| Rdio.CanStreamHasUrl | compare.py:128-131 | a streamable answer always carries a url |
| Rdio.Lookup | compare.py:92-133 | `rdio` returns the scan of the found results; it raises when the tries run out or the body cannot be read |
| Rdio.NeverRejected | compare.py:106-123 | an Rdio search never ends as a refusal: it has no counterpart of Spotify's 403 |
| Rdio.RetriedAnswers | compare.py:108-123 | a status other than '200', an empty body and a body without results are all retried, each after its k² second sleep |
| Rdio.EmptyResultsSucceed | compare.py:110-111 | a '200' with an empty result list ends the search at once, and the lookup answers "not streamable" |
| Rdio.ThreeFailuresThenSuccess | compare.py:106-123 | three failures and then results give sleeps of 1, 4 and 9 seconds, 4 requests, and those results |
| Rdio.ExhaustedExactly | compare.py:117-119 | the lookup runs out of tries exactly when each of the first 101 answers has a status other than '200', a falsy body, or no `result.results`; a '200' whose body cannot be decoded raises at once instead |

## Left out

- The HTTP and OAuth calls, and the building of their queries (compare.py:40-42 and 93-101). Each search takes the answers of its transport as an oracle function, which always answers: a request that raises (an `IOError` or a socket timeout from `urlopen` or `client.request`) is not modelled.
- Spotify.Search: the second request that line 53 sends on a 200 is not counted. Its result is never used, and the ghost request count covers only the loop's own requests.
- Spotify.Search: a body that cannot be decoded raises at line 54, inside the loop. The model takes that raise just after the loop, with the same result.
- JSON decoding. A body arrives already classified as unreadable, empty, without results, or a list of well-typed hits. A `KeyError` from a hit that lacks a field is not modelled.
- Rdio.Hit: `canStream` is a boolean. In Python, a JSON `1` would also compare equal to `True`.
- Rdio.Search: a body that cannot be read raises while it is read, inside the loop. The model takes that raise just after the loop, with the same result.
- Rdio.Search: the counter is raised just before each request, not after a failed answer. It has the same value at the give-up test and at every sleep.
- Logging, `time.sleep` and `sys.exit`. Sleeps appear only as the ghost trace of their durations.
- The `main` driver (compare.py:22-37). It reads stdin, prints the results and exits on the first exception.
- The loading of `aoty_dedupe.json` (compare.py:24). Its value is never used.
- `config`: the country is a parameter of the Spotify scan.
- Normalize.Lower: only ASCII `A`-`Z` are folded. Python's `lower()` also folds other Unicode letters.
