/**
  get-imdb-sha256.py: the same extraction, inlined in
  `get_sha256_from_network_tab`, over the raw performance entries. The fourth
  filter term is the literal `Shrek`, whatever keyword was typed into the
  search box, and the function returns the token instead of writing it.
 */
module GetImdbSha256 {
  import opened Wrappers
  import opened PercentDecoding
  import opened HashPattern
  import opened Extractor
  import opened OutputFiles

  /** The fourth filter term, fixed in the source. */
  const SearchTerm: string := "Shrek"

  /** A performance entry; `request.get("name")` gives `None` when it has no name. */
  datatype PerfEntry = PerfEntry(name: Option<string>)

  /**
    The two exceptions the scan can raise: a nameless entry reached before
    any accepted one makes the `in` test fail on `None` (TypeError), and an
    accepted entry without the pattern makes `.group` fail on `None`
    (AttributeError).
   */
  datatype Failure = NameMissing | PatternMissing

  /** What a call does: return a value (a token or `None`), or raise. */
  datatype Fetch = Returned(hash: Option<string>) | Raised(error: Failure)

  /** Entry `i` is where the scan stops on a match: every entry before it has a name the filter rejects. */
  ghost predicate IsSelected(entries: seq<PerfEntry>, i: int)
  {
    && 0 <= i < |entries|
    && entries[i].name.Some?
    && Accepted(entries[i].name.value, SearchTerm)
    && forall j :: 0 <= j < i ==> entries[j].name.Some? && !Accepted(entries[j].name.value, SearchTerm)
  }

  /** Number of leading entries that have a name. */
  function NamedPrefix(entries: seq<PerfEntry>): (k: nat)
    ensures k <= |entries|
    ensures forall j :: 0 <= j < k ==> entries[j].name.Some?
    ensures k < |entries| ==> entries[k].name.None?
    decreases |entries|
  {
    if |entries| == 0 || entries[0].name.None? then 0
    else 1 + NamedPrefix(entries[1..])
  }

  /** The URLs of entries that all have a name. */
  function Names(entries: seq<PerfEntry>): (urls: seq<string>)
    requires forall j :: 0 <= j < |entries| ==> entries[j].name.Some?
    ensures |urls| == |entries|
    ensures forall j :: 0 <= j < |entries| ==> urls[j] == entries[j].name.value
  {
    seq(|entries|, j requires 0 <= j < |entries| => entries[j].name.value)
  }

  /**
    The scan as an instance of the shared extraction step: run it on the URLs
    of the named entries that precede the first nameless one; if that finds
    nothing and a nameless entry follows, the scan reaches it and raises.
   */
  function GetSha256(entries: seq<PerfEntry>): (r: Fetch)
    ensures r.Returned? && r.hash.Some? ==>
              |r.hash.value| > 0 && forall k :: 0 <= k < |r.hash.value| ==> r.hash.value[k] != '"'
  {
    var k := NamedPrefix(entries);
    match ScanForHash(Names(entries[..k]), SearchTerm)
    case Found(tok) => Returned(Some(tok))
    case ShapeMismatch => Raised(PatternMissing)
    case NotFound => if k < |entries| then Raised(NameMissing) else Returned(None)
  }

  /**
    The URLs the shared step sees are the names of the leading named entries,
    and its first accepted URL is exactly the entry the scan stops on.
   */
  lemma NamedPrefixScan(entries: seq<PerfEntry>)
    ensures var k := NamedPrefix(entries);
            var urls := Names(entries[..k]);
            && (forall j :: 0 <= j < k ==> urls[j] == entries[j].name.value)
            && (forall i :: IsSelected(entries, i) <==> IsFirstAccepted(urls, SearchTerm, i))
  {
    var k := NamedPrefix(entries);
    var urls := Names(entries[..k]);
    forall i | IsSelected(entries, i)
      ensures IsFirstAccepted(urls, SearchTerm, i)
    {
      assert i < k;
    }
  }

  /** The scan returns `None` exactly when every entry has a name and the filter rejects them all. */
  lemma ReturnsNoneIffNothingAccepted(entries: seq<PerfEntry>)
    ensures GetSha256(entries) == Returned(None) <==>
              forall j :: 0 <= j < |entries| ==> entries[j].name.Some? && !Accepted(entries[j].name.value, SearchTerm)
  {
    var k := NamedPrefix(entries);
    var urls := Names(entries[..k]);
    NamedPrefixScan(entries);
    if forall j :: 0 <= j < |entries| ==> entries[j].name.Some? && !Accepted(entries[j].name.value, SearchTerm) {
      assert k == |entries|;
      assert ScanForHash(urls, SearchTerm).NotFound?;
    }
  }

  /** The scan raises on a missing name exactly when a nameless entry comes before any accepted one. */
  lemma RaisesNameMissingIff(entries: seq<PerfEntry>)
    ensures GetSha256(entries) == Raised(NameMissing) <==>
              exists k :: 0 <= k < |entries| && entries[k].name.None? &&
                forall j :: 0 <= j < k ==> entries[j].name.Some? && !Accepted(entries[j].name.value, SearchTerm)
  {
    var k := NamedPrefix(entries);
    var urls := Names(entries[..k]);
    NamedPrefixScan(entries);
    if GetSha256(entries) == Raised(NameMissing) {
      assert k < |entries| && entries[k].name.None?;
      assert ScanForHash(urls, SearchTerm).NotFound?;
    }
    if exists n :: 0 <= n < |entries| && entries[n].name.None? &&
         forall j :: 0 <= j < n ==> entries[j].name.Some? && !Accepted(entries[j].name.value, SearchTerm) {
      var n :| 0 <= n < |entries| && entries[n].name.None? &&
         forall j :: 0 <= j < n ==> entries[j].name.Some? && !Accepted(entries[j].name.value, SearchTerm);
      assert n == k;
      assert ScanForHash(urls, SearchTerm).NotFound?;
    }
  }

  /** The scan raises on a missing pattern exactly when the entry it stops on decodes to a URL without the pattern. */
  lemma RaisesPatternMissingIff(entries: seq<PerfEntry>)
    ensures GetSha256(entries) == Raised(PatternMissing) <==>
              exists i :: IsSelected(entries, i) && !HasMatch(Decode(entries[i].name.value))
  {
    var k := NamedPrefix(entries);
    var urls := Names(entries[..k]);
    NamedPrefixScan(entries);
    if exists i :: IsSelected(entries, i) && !HasMatch(Decode(entries[i].name.value)) {
      var i :| IsSelected(entries, i) && !HasMatch(Decode(entries[i].name.value));
      assert IsFirstAccepted(urls, SearchTerm, i) && urls[i] == entries[i].name.value;
    }
    if GetSha256(entries) == Raised(PatternMissing) {
      var i :| IsFirstAccepted(urls, SearchTerm, i) && !HasMatch(Decode(urls[i]));
      assert IsSelected(entries, i) && urls[i] == entries[i].name.value;
    }
  }

  /** A returned token is the pattern's group in the decoded name of the entry the scan stops on. */
  lemma ReturnedTokenIsGroup(entries: seq<PerfEntry>)
    requires GetSha256(entries).Returned? && GetSha256(entries).hash.Some?
    ensures exists i :: IsSelected(entries, i) && IsGroup(Decode(entries[i].name.value), GetSha256(entries).hash.value)
  {
    var k := NamedPrefix(entries);
    var urls := Names(entries[..k]);
    NamedPrefixScan(entries);
    var tok := GetSha256(entries).hash.value;
    var i :| IsFirstAccepted(urls, SearchTerm, i) && IsGroup(Decode(urls[i]), tok);
    assert IsSelected(entries, i) && urls[i] == entries[i].name.value;
  }

  /** Once the scan stops on entry `i`, the result is whatever decoding and searching that entry's name gives. */
  lemma SelectedEntryDecides(entries: seq<PerfEntry>, i: int)
    requires IsSelected(entries, i)
    ensures var found := Search(Decode(entries[i].name.value));
            GetSha256(entries) == if found.None? then Raised(PatternMissing) else Returned(found)
  {
    var k := NamedPrefix(entries);
    var urls := Names(entries[..k]);
    NamedPrefixScan(entries);
    assert IsFirstAccepted(urls, SearchTerm, i) && urls[i] == entries[i].name.value;
    assert FirstAccepted(urls, SearchTerm, 0) == Some(i);
  }

  /**
    The loop of `get_sha256_from_network_tab`: read each entry's name, test
    it, and at the first accepted one decode, search and return. The `url`
    and `keyword` arguments only drive the browser; the result does not
    depend on them.
   */
  method GetSha256FromNetworkTab(url: string, keyword: string, entries: seq<PerfEntry>) returns (r: Fetch)
    ensures r == GetSha256(entries)
  {
    var i := 0;
    while i < |entries|
      invariant 0 <= i <= |entries|
      invariant forall j :: 0 <= j < i ==> entries[j].name.Some? && !Accepted(entries[j].name.value, SearchTerm)
    {
      var name := entries[i].name;
      if name.None? {
        RaisesNameMissingIff(entries);
        return Raised(NameMissing);
      }
      if Accepted(name.value, SearchTerm) {
        SelectedEntryDecides(entries, i);
        var decoded := Decode(name.value);
        var found := Search(decoded);
        if found.None? {
          return Raised(PatternMissing);
        }
        return Returned(Some(found.value));
      }
      i := i + 1;
    }
    ReturnsNoneIffNothingAccepted(entries);
    return Returned(None);
  }

  /** How the script's main block ends: normally, with the files and the printed line, or by an exception. */
  datatype Exit = Completed(files: Files, message: string) | Aborted(error: Failure)

  const OutputFile: string := "HASHtest"
  const FailureMessage: string := "Failed to retrieve SHA-256 hash."

  /**
    The `__main__` block after the call: write `HASHtest` and print the hash
    when the returned value is truthy, print the failure line otherwise; an
    exception from the call ends the script.
   */
  function MainBlock(files: Files, fetched: Fetch): (e: Exit)
    ensures e.Aborted? <==> fetched.Raised?
    ensures fetched.Returned? && fetched.hash.Some? && |fetched.hash.value| > 0 ==>
              e.files == files[OutputFile := fetched.hash.value]
    ensures e.Completed? && e.files != files ==> fetched.Returned? && fetched.hash.Some?
    ensures fetched == Returned(None) ==> e == Completed(files, FailureMessage)
  {
    match fetched
    case Raised(err) => Aborted(err)
    case Returned(hash) =>
      if hash.Some? && |hash.value| > 0 then
        Completed(files[OutputFile := hash.value], "SHA-256 hash from network tab: " + hash.value)
      else
        Completed(files, FailureMessage)
  }

  /**
    End to end: `HASHtest` is written exactly when the scan returns a token,
    and then holds that token; no other file changes.
   */
  lemma ScriptWritesOnlyToken(files: Files, entries: seq<PerfEntry>)
    ensures var e := MainBlock(files, GetSha256(entries));
            && (e.Completed? && e.files != files ==> GetSha256(entries).Returned? && GetSha256(entries).hash.Some?)
            && (GetSha256(entries).Returned? && GetSha256(entries).hash.Some? ==>
                  e.files == files[OutputFile := GetSha256(entries).hash.value])
  {
  }
}
