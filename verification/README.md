# IMDb persisted-query hash extraction, modelled in Dafny

The IMDb-Hash scripts drive a headless browser over IMDb pages and then
recover the `sha256Hash` of a persisted GraphQL query from the browser's list
of request URLs. This project models that recovery step. It is the only part
of the scripts that does not depend on the browser:

1. **Filter.** A request URL is accepted when it contains `persistedQuery`,
   `sha256Hash`, `caching.graphql.imdb.com` and a fourth, caller-chosen term.
   The test runs on the raw, still percent-encoded URL.
2. **Select.** The scan stops at the first accepted URL in snapshot order.
3. **Decode and extract.** That URL is percent-decoded in the sense of
   section 2.1 of RFC 3986. The token is then what
   `re.search(r'sha256Hash":"([^"]+)', url).group(1)` yields.

The result is `NotFound`, `ShapeMismatch` or `Found(token)`. `ShapeMismatch`
means an entry was accepted but the pattern failed, so Python calls `.group`
on `None` and raises. One model, `Extractor.ScanForHash`, has the fourth term
as a parameter, and both scripts use it:

- `check-imdb-hash.py` calls `scan_for_hash` three times, once each for the
  search, list and watchlist pages. The fourth terms are the keyword,
  `operationName=TitleListMainPage` and `operationName=WatchListPageRefiner`.
  A page's file is written only when a token was extracted. A shape mismatch
  raises out of the `with` block and ends the script, so later pages are
  never scanned (`CheckImdbHash`).
- `get-imdb-sha256.py` runs the same scan inline over raw performance
  entries, with the literal `Shrek` as the fourth term whatever keyword was
  typed. It returns the token, or `None` when no entry is accepted. An entry
  without a `name` that is reached before any accepted entry makes the `in`
  test raise (`GetImdbSha256`).

Modules: `Wrappers` (Option), `OutputFiles` (files by name), `Substrings` (Python's `in` on strings),
`PercentDecoding` (`unquote`), `HashPattern` (the regular expression),
`Extractor` (the shared step), `CheckImdbHash` and `GetImdbSha256` (the two
scripts).

## Model

| member | source | states |
|---|---|---|
| Substrings.Contains | check-imdb-hash.py:81 | `t in s` is true exactly when `t` occurs at some index of `s` |
| PercentDecoding.Decode | check-imdb-hash.py:83 | decoding never makes a URL longer |
| PercentDecoding.DecodePlainText | check-imdb-hash.py:83 | a string with no well-formed `%HH` triplet decodes to itself. This is not idempotence: a decoded string can still hold a triplet (see `DecodeTwiceDiffers`) |
| PercentDecoding.DecodeEncode | check-imdb-hash.py:83 | decoding undoes RFC 3986 percent-encoding of any octet text, including `%22`, `%3A` and `%2C` |
| PercentDecoding.DecodeTwiceDiffers | check-imdb-hash.py:83 | decoding is not idempotent: `%2541` decodes to `%41`, and decoding that again gives `A` |
| HashPattern.FindMatch | check-imdb-hash.py:85 | the position returned is the leftmost one where the marker is followed by a non-quote character, and no match means there is none at any later position |
| HashPattern.RunEnd | check-imdb-hash.py:85 | the run after the marker has no quote and ends at a quote or at the end of the string |
| HashPattern.Search | check-imdb-hash.py:85 | `re.search` returns `None` exactly when no position matches; otherwise the group is non-empty, has no quote and is the greedy run after the leftmost match |
| HashPattern.GroupUnique | check-imdb-hash.py:85 | at most one token satisfies the pattern's meaning in a given string |
| HashPattern.SearchIffGroup | check-imdb-hash.py:85 | `Search` yields `tok` if and only if `tok` is the pattern's group |
| HashPattern.GroupFollowsMarker | check-imdb-hash.py:85 | the marker followed by the captured token occurs in the searched string |
| HashPattern.SearchStopsAtQuote | check-imdb-hash.py:85 | on `{"sha256Hash":"abc123","version":1}` the capture is exactly `abc123` |
| Extractor.ContainsAll | check-imdb-hash.py:81 | `all(t in url for t in terms)` holds exactly when every term occurs in the URL |
| Extractor.Accepted | check-imdb-hash.py:77-81 | a URL is accepted if and only if it contains all four required substrings |
| Extractor.FirstAccepted | check-imdb-hash.py:80-81 | the index returned is accepted and every entry before it is rejected; none means every entry is rejected |
| Extractor.ExtractFrom | check-imdb-hash.py:83-85 | on a selected URL the outcome is a shape mismatch exactly when the decoded URL has no match, and otherwise the pattern's group |
| Extractor.ScanForHash | check-imdb-hash.py:76-86 | `NotFound` exactly when no raw entry is accepted, including the empty snapshot. `ShapeMismatch` exactly when the first accepted entry has no match after decoding. A found token is the group of the first accepted entry's decoded URL, non-empty and quote-free |
| Extractor.ScanForHashLoop | check-imdb-hash.py:76-86 | the in-order loop that breaks at the first accepted entry computes the same outcome as `ScanForHash` |
| Extractor.LaterEntriesIgnored | check-imdb-hash.py:80-86 | once some entry is accepted, appending entries changes nothing, and a shape mismatch is not rescued by a later good entry |
| Extractor.RejectedPrefixIgnored | check-imdb-hash.py:80-81 | rejected entries placed before the snapshot do not change the outcome |
| Extractor.FoundTokenComesFromSnapshot | check-imdb-hash.py:83-85 | a found token is never made up: marker plus token occurs in the decoded form of some snapshot entry |
| CheckImdbHash.EffectiveKeyword | check-imdb-hash.py:37 | an absent or empty keyword option falls back to `Shrek`, and a non-empty one is used unchanged; the term is never empty |
| CheckImdbHash.Conclude | check-imdb-hash.py:88-93 | a page's file is written only when a non-empty token was extracted, and then holds that token. No other file changes. A shape mismatch ends the run with no log line. After an earlier exception nothing happens. Otherwise the page closes with the hash line or the failure line |
| CheckImdbHash.ReportOf | check-imdb-hash.py:88-93 | the closing line names the page; it is the hash line carrying the token exactly when a non-empty token was extracted (line 91), and the failure line otherwise (line 93) |
| CheckImdbHash.ScanPage | check-imdb-hash.py:59-93 | one `scan_for_hash` call: with no accepted request the files stay as they were and the failure line is logged. A file that changes holds the group of the first accepted request's decoded URL. No other file changes, and after an earlier exception nothing happens |
| CheckImdbHash.ScanPageSteps | check-imdb-hash.py:59-93 | a page that does not raise adds exactly one closing line, a page that raises adds none, and an exception stays raised |
| CheckImdbHash.CheckImdbHash | check-imdb-hash.py:127-155 | the three calls change no file other than `HASH`, `LIST_HASH` and `WATCHLIST_HASH`; a run without an exception logs three closing lines, one that raises fewer |
| CheckImdbHash.RunEffects | check-imdb-hash.py:127-155 | over the three pages, each file holds its page's token if found and not preceded by an exception, and keeps its old content otherwise. The run raises exactly when some page mismatches. Without an exception every page logs its line in order |
| CheckImdbHash.ConcludeThreePages | check-imdb-hash.py:127-155 | three conclusions in a row, for any outcomes with non-empty tokens: each file holds its token when found and not after an exception, otherwise keeps its content; the chain raises exactly when some outcome is a mismatch |
| CheckImdbHash.MixedRunScenario | check-imdb-hash.py:127-155 | search `aaa111`, list not found, watchlist `bbb222` gives both tokens written, the list file untouched and three closing log lines |
| GetImdbSha256.NamedPrefix | get-imdb-sha256.py:75-78 | the leading entries counted all have a name, and the next entry, if any, has none |
| GetImdbSha256.Names | get-imdb-sha256.py:76 | each URL is the `name` of the entry at the same position |
| GetImdbSha256.GetSha256 | get-imdb-sha256.py:73-85 | a returned token is non-empty and quote-free |
| GetImdbSha256.NamedPrefixScan | get-imdb-sha256.py:75-78 | the entry the scan stops on is exactly the shared step's first accepted URL among the named leading entries |
| GetImdbSha256.ReturnsNoneIffNothingAccepted | get-imdb-sha256.py:75-89 | the function returns `None` if and only if every entry has a name and none is accepted |
| GetImdbSha256.RaisesNameMissingIff | get-imdb-sha256.py:76-78 | the `in` test raises if and only if a nameless entry comes before any accepted one |
| GetImdbSha256.RaisesPatternMissingIff | get-imdb-sha256.py:81-83 | `.group` raises if and only if the first accepted entry decodes to a URL without the pattern |
| GetImdbSha256.ReturnedTokenIsGroup | get-imdb-sha256.py:81-85 | a returned token is the pattern's group in the decoded name of the first accepted entry |
| GetImdbSha256.SelectedEntryDecides | get-imdb-sha256.py:78-85 | once the scan stops on an entry, the result is that entry's search result, and later entries play no part |
| GetImdbSha256.GetSha256FromNetworkTab | get-imdb-sha256.py:73-85 | the loop returns what `GetSha256` does. It depends neither on the URL nor on the keyword argument, because the fourth term is the literal `Shrek` |
| GetImdbSha256.MainBlock | get-imdb-sha256.py:95-101 | `HASHtest` is written only when the returned value is a non-empty token. Returning `None` prints the failure line and leaves the files alone. An exception aborts |
| GetImdbSha256.ScriptWritesOnlyToken | get-imdb-sha256.py:92-101 | end to end, the files change only when the scan returns a token, and then only `HASHtest` changes, to hold that token |

## Left out

- Browser work is not modelled: session setup, `driver.get`, `WebDriverWait`, clicks, `send_keys`, PAGE_DOWN loops, `time.sleep` and `driver.quit`. These are browser I/O and timing.
- The performance-entries JavaScript in check-imdb-hash.py:62-75 is a parameter, not a model. It maps each entry to `name || initiatorType` and drops falsy values. In `CheckImdbHash` the request list is an input sequence of strings. In `GetImdbSha256` it is a sequence of entries with an optional name.
- Environment checks are left out: the Python version check, the import guard, driver discovery through `ChromeDriverManager`, argument parsing and logger setup. They come before any scan.
- Log output is modelled only as the closing line of each page. The request count and the encoded and decoded URL lines carry no decision.
- The trace screenshots are left out. They are diagnostics only.
- The README timestamp rewrite after a git diff (check-imdb-hash.py:157-165) is left out. It is version-control and file I/O plus wall-clock time.
- File writes are modelled as updates of a map from file name to content.
- Exceptions other than the two the scan raises are left out. `WebDriverWait` timeouts and driver errors come from browser code this model does not see.
- Neither script retries, and neither collects per-page failures. A shape mismatch in check-imdb-hash.py is an uncaught exception (`CheckImdbHash.Conclude`).
- PercentDecoding.Decode: each `%HH` becomes the character with code 0xHH. `unquote` instead reassembles runs of octets 0x80 and above as UTF-8, with replacement characters for invalid sequences. URLs whose escapes are ASCII, which includes every marker and filter term, decode the same either way.
- PercentDecoding.Encode: this RFC 3986 encoder is not part of the scripts. It is a reference encoder; `DecodeEncode` proves `Decode` inverts it.
