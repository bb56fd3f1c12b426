/**
  The hash-extraction step both scripts share: keep the request URLs that
  contain four required substrings, stop at the first one in snapshot order,
  percent-decode it and take the hash the pattern captures. The fourth
  substring is a parameter; each script instantiates it.
 */
module Extractor {
  import opened Wrappers
  import opened Substrings
  import opened PercentDecoding
  import opened HashPattern

  /**
    Result of one scan. `ShapeMismatch` is the case where an entry passed the
    filter but the pattern did not match its decoded URL; the Python code then
    calls `.group` on `None` and raises.
   */
  datatype Outcome = NotFound | ShapeMismatch | Found(token: string)

  const PersistedQueryTerm: string := "persistedQuery"
  const HashFieldTerm: string := "sha256Hash"
  const ApiHostTerm: string := "caching.graphql.imdb.com"

  /** The filter's substrings, in the order the source lists them. */
  function RequiredTerms(term: string): seq<string>
  {
    [PersistedQueryTerm, HashFieldTerm, ApiHostTerm, term]
  }

  /** Python's `all(t in url for t in terms)`. */
  function ContainsAll(url: string, terms: seq<string>): (b: bool)
    ensures b <==> forall k :: 0 <= k < |terms| ==> Occurs(url, terms[k])
    decreases |terms|
  {
    if |terms| == 0 then true
    else Contains(url, terms[0]) && ContainsAll(url, terms[1..])
  }

  /** The filter, applied to the raw (still percent-encoded) URL. */
  function Accepted(url: string, term: string): (b: bool)
    ensures b <==> && Occurs(url, PersistedQueryTerm)
                   && Occurs(url, HashFieldTerm)
                   && Occurs(url, ApiHostTerm)
                   && Occurs(url, term)
  {
    var terms := RequiredTerms(term);
    assert terms[0] == PersistedQueryTerm && terms[1] == HashFieldTerm;
    assert terms[2] == ApiHostTerm && terms[3] == term;
    ContainsAll(url, terms)
  }

  /** Entry `i` is the first entry of `reqs` that passes the filter. */
  ghost predicate IsFirstAccepted(reqs: seq<string>, term: string, i: int)
  {
    0 <= i < |reqs| && Accepted(reqs[i], term) && forall j :: 0 <= j < i ==> !Accepted(reqs[j], term)
  }

  /** Index of the first entry at or after `from` that passes the filter. */
  function FirstAccepted(reqs: seq<string>, term: string, from: nat): (r: Option<nat>)
    requires from <= |reqs|
    ensures r.Some? ==> from <= r.value < |reqs| && Accepted(reqs[r.value], term)
    ensures r.Some? ==> forall j :: from <= j < r.value ==> !Accepted(reqs[j], term)
    ensures r.None? ==> forall j :: from <= j < |reqs| ==> !Accepted(reqs[j], term)
    decreases |reqs| - from
  {
    if from == |reqs| then None
    else if Accepted(reqs[from], term) then Some(from)
    else FirstAccepted(reqs, term, from + 1)
  }

  /** Outcome of extracting from one selected URL: decode, then match the pattern. */
  function ExtractFrom(url: string): (o: Outcome)
    ensures !o.NotFound?
    ensures o.ShapeMismatch? <==> !HasMatch(Decode(url))
    ensures o.Found? ==> IsGroup(Decode(url), o.token)
  {
    match Search(Decode(url))
    case None => ShapeMismatch
    case Some(tok) => Found(tok)
  }

  /**
    The whole step. An empty snapshot and a snapshot with no accepted entry
    both yield `NotFound`; otherwise only the first accepted entry is decoded
    and searched, and its result is final.
   */
  function ScanForHash(reqs: seq<string>, term: string): (o: Outcome)
    ensures o.NotFound? <==> forall j :: 0 <= j < |reqs| ==> !Accepted(reqs[j], term)
    ensures o.ShapeMismatch? <==> exists i :: IsFirstAccepted(reqs, term, i) && !HasMatch(Decode(reqs[i]))
    ensures o.Found? ==> exists i :: IsFirstAccepted(reqs, term, i) && IsGroup(Decode(reqs[i]), o.token)
    ensures o.Found? ==> |o.token| > 0 && forall k :: 0 <= k < |o.token| ==> o.token[k] != '"'
  {
    if |reqs| == 0 then NotFound
    else
      match FirstAccepted(reqs, term, 0)
      case None => NotFound
      case Some(i) =>
        assert IsFirstAccepted(reqs, term, i);
        ExtractFrom(reqs[i])
  }

  /**
    The loop of `scan_for_hash`: walk the snapshot in order, and at the first
    accepted entry decode it, search it and stop, whatever the search gives.
   */
  method ScanForHashLoop(reqs: seq<string>, term: string) returns (o: Outcome)
    ensures o == ScanForHash(reqs, term)
  {
    o := NotFound;
    if |reqs| > 0 {
      var i := 0;
      while i < |reqs|
        invariant 0 <= i <= |reqs|
        invariant forall j :: 0 <= j < i ==> !Accepted(reqs[j], term)
      {
        if Accepted(reqs[i], term) {
          assert FirstAccepted(reqs, term, 0) == Some(i);
          var decoded := Decode(reqs[i]);
          var found := Search(decoded);
          if found.None? {
            return ShapeMismatch;
          }
          return Found(found.value);
        }
        i := i + 1;
      }
      assert FirstAccepted(reqs, term, 0) == None;
    }
  }

  /** Where the filter first accepts an entry of `reqs`, it accepts the same entry of any extension. */
  lemma {:induction false} FirstAcceptedOfExtension(reqs: seq<string>, more: seq<string>, term: string, from: nat)
    requires from <= |reqs| && FirstAccepted(reqs, term, from).Some?
    ensures FirstAccepted(reqs + more, term, from) == FirstAccepted(reqs, term, from)
    decreases |reqs| - from
  {
    assert (reqs + more)[from] == reqs[from];
    if !Accepted(reqs[from], term) {
      FirstAcceptedOfExtension(reqs, more, term, from + 1);
    }
  }

  /**
    Entries after the first accepted one are never looked at: appending to the
    snapshot cannot change a result, not even rescue a shape mismatch.
   */
  lemma {:induction false} LaterEntriesIgnored(reqs: seq<string>, more: seq<string>, term: string)
    requires !ScanForHash(reqs, term).NotFound?
    ensures ScanForHash(reqs + more, term) == ScanForHash(reqs, term)
  {
    FirstAcceptedOfExtension(reqs, more, term, 0);
    assert (reqs + more)[FirstAccepted(reqs, term, 0).value] == reqs[FirstAccepted(reqs, term, 0).value];
  }

  /** Entries the filter rejects have no effect on the result, wherever they stand before the first accepted one. */
  lemma {:induction false} RejectedPrefixIgnored(pre: seq<string>, reqs: seq<string>, term: string)
    requires forall j :: 0 <= j < |pre| ==> !Accepted(pre[j], term)
    ensures ScanForHash(pre + reqs, term) == ScanForHash(reqs, term)
  {
    var all := pre + reqs;
    match FirstAccepted(reqs, term, 0)
    case None =>
      forall j | 0 <= j < |all|
        ensures !Accepted(all[j], term)
      {
        if j >= |pre| { assert all[j] == reqs[j - |pre|]; }
      }
      assert FirstAccepted(all, term, 0).None?;
    case Some(i) =>
      assert all[|pre| + i] == reqs[i];
      forall j | 0 <= j < |pre| + i
        ensures !Accepted(all[j], term)
      {
        if j >= |pre| { assert all[j] == reqs[j - |pre|]; }
      }
      assert FirstAccepted(all, term, 0) == Some(|pre| + i);
      assert ScanForHash(all, term) == ExtractFrom(reqs[i]);
  }

  /**
    A found token is never fabricated: the marker followed by the token
    occurs in the decoded form of an entry of the snapshot.
   */
  lemma FoundTokenComesFromSnapshot(reqs: seq<string>, term: string)
    requires ScanForHash(reqs, term).Found?
    ensures exists i :: 0 <= i < |reqs| && Occurs(Decode(reqs[i]), Marker + ScanForHash(reqs, term).token)
  {
    var tok := ScanForHash(reqs, term).token;
    var i :| IsFirstAccepted(reqs, term, i) && IsGroup(Decode(reqs[i]), tok);
    GroupFollowsMarker(Decode(reqs[i]), tok);
  }
}
