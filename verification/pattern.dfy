/**
  The hash pattern `sha256Hash":"([^"]+)` applied with Python's `re.search`
  and `.group(1)`: the leftmost position where the marker `sha256Hash":"` is
  followed by at least one character other than a double quote, and the
  greedy run of non-quote characters after the marker.
 */
module HashPattern {
  import opened Wrappers
  import opened Substrings

  /** The literal part of the pattern: `sha256Hash":"`. */
  const Marker: string := "sha256Hash\":\""

  /** The pattern matches at index `i`: marker, then a non-quote character. */
  predicate MatchAt(s: string, i: nat)
  {
    i + |Marker| < |s| && s[i..i + |Marker|] == Marker && s[i + |Marker|] != '"'
  }

  ghost predicate HasMatch(s: string)
  {
    exists i: nat :: MatchAt(s, i)
  }

  /** `i` is the position `re.search` reports: the leftmost match. */
  ghost predicate LeftmostMatch(s: string, i: nat)
  {
    MatchAt(s, i) && forall j: nat :: j < i ==> !MatchAt(s, j)
  }

  /** `tok` is the greedy quote-free run that starts right after the marker at `i`. */
  ghost predicate GroupAt(s: string, i: nat, tok: string)
  {
    var start := i + |Marker|;
    && start + |tok| <= |s|
    && s[start..start + |tok|] == tok
    && (forall k :: 0 <= k < |tok| ==> tok[k] != '"')
    && (start + |tok| == |s| || s[start + |tok|] == '"')
  }

  /** `tok` is what `re.search(r'sha256Hash":"([^"]+)', s).group(1)` returns. */
  ghost predicate IsGroup(s: string, tok: string)
  {
    exists i: nat :: LeftmostMatch(s, i) && GroupAt(s, i, tok)
  }

  /** Leftmost match at or after `from`. */
  function FindMatch(s: string, from: nat): (r: Option<nat>)
    requires from <= |s|
    ensures r.Some? ==> from <= r.value && MatchAt(s, r.value)
    ensures r.Some? ==> forall j: nat :: from <= j < r.value ==> !MatchAt(s, j)
    ensures r.None? ==> forall j: nat :: from <= j ==> !MatchAt(s, j)
    decreases |s| - from
  {
    if from == |s| then None
    else if MatchAt(s, from) then Some(from)
    else FindMatch(s, from + 1)
  }

  /** End of the run of non-quote characters starting at `from`. */
  function RunEnd(s: string, from: nat): (e: nat)
    requires from <= |s|
    ensures from <= e <= |s|
    ensures forall k :: from <= k < e ==> s[k] != '"'
    ensures e == |s| || s[e] == '"'
    decreases |s| - from
  {
    if from == |s| || s[from] == '"' then from else RunEnd(s, from + 1)
  }

  /** The captured group, or `None` where `re.search` returns `None`. */
  function Search(s: string): (r: Option<string>)
    ensures r.None? <==> !HasMatch(s)
    ensures r.Some? ==> IsGroup(s, r.value)
    ensures r.Some? ==> |r.value| > 0 && forall k :: 0 <= k < |r.value| ==> r.value[k] != '"'
  {
    match FindMatch(s, 0)
    case None => None
    case Some(i) =>
      var start := i + |Marker|;
      var e := RunEnd(s, start);
      var tok := s[start..e];
      assert LeftmostMatch(s, i) && GroupAt(s, i, tok);
      Some(tok)
  }

  /** The group is determined by the string: at most one token satisfies the pattern's meaning. */
  lemma GroupUnique(s: string, t1: string, t2: string)
    requires IsGroup(s, t1) && IsGroup(s, t2)
    ensures t1 == t2
  {
    var i1: nat :| LeftmostMatch(s, i1) && GroupAt(s, i1, t1);
    var i2: nat :| LeftmostMatch(s, i2) && GroupAt(s, i2, t2);
    assert i1 == i2;
    var start := i1 + |Marker|;
    assert |t1| == |t2|;
    assert t1 == s[start..start + |t1|];
  }

  /** `Search` computes exactly the group the pattern defines, and nothing else. */
  lemma SearchIffGroup(s: string, tok: string)
    ensures Search(s) == Some(tok) <==> IsGroup(s, tok)
  {
    if IsGroup(s, tok) {
      var i: nat :| LeftmostMatch(s, i) && GroupAt(s, i, tok);
      assert HasMatch(s);
      GroupUnique(s, Search(s).value, tok);
    }
  }

  /** The captured group stands right after the marker: `Marker + tok` occurs in the searched string. */
  lemma GroupFollowsMarker(s: string, tok: string)
    requires IsGroup(s, tok)
    ensures Occurs(s, Marker + tok)
  {
    var p: nat :| LeftmostMatch(s, p) && GroupAt(s, p, tok);
    var start := p + |Marker|;
    assert s[p..start + |tok|] == s[p..start] + s[start..start + |tok|];
    assert OccursAt(s, Marker + tok, p);
  }

  /** The capture stops at the next quote and takes nothing of what follows it. */
  lemma SearchStopsAtQuote()
    ensures Search("{\"" + Marker + "abc123\",\"version\":1}") == Some("abc123")
  {
    var pre := "{\"";
    var post := "abc123\",\"version\":1}";
    var s := pre + Marker + post;
    assert s[..2] == pre && s[2..15] == Marker && s[15..] == post;
    assert s[0] == '{' && s[1] == '"' && Marker[0] == 's';
    assert !MatchAt(s, 0) && !MatchAt(s, 1);
    assert LeftmostMatch(s, 2);
    assert s[15..21] == "abc123" && s[21] == '"';
    assert GroupAt(s, 2, "abc123");
    SearchIffGroup(s, "abc123");
  }
}
