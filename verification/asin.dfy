/** The product-identifier search both canonicalisers perform: the regular expression
    `/(dp|gp/product)/` followed by ten word characters (`\w{10}`, here ASCII), leftmost
    occurrence first, no word boundary on either side. */
module Asin {
  import opened Options
  import opened Text

  const IdLength: nat := 10
  const DirectMarker: string := "dp"
  const GroupedMarker: string := "gp/product"

  datatype Match = Match(start: nat, marker: string, id: string)

  /** `/marker/` followed by ten word characters starts at position `i` of `s`. */
  predicate PatternAt(s: string, i: nat, marker: string) {
    && i + |marker| + 2 + IdLength <= |s|
    && s[i] == '/'
    && s[i + 1..i + 1 + |marker|] == marker
    && s[i + 1 + |marker|] == '/'
    && AllWordChars(s[i + 2 + |marker|..i + 2 + |marker| + IdLength])
  }

  /** The ten characters the identifier group captures at an occurrence. */
  function IdAt(s: string, i: nat, marker: string): (id: string)
    requires PatternAt(s, i, marker)
    ensures |id| == IdLength && AllWordChars(id)
  {
    s[i + 2 + |marker|..i + 2 + |marker| + IdLength]
  }

  /** The regular expression tried at one position: the `dp` alternative first, then
      `gp/product`. */
  function MatchAt(s: string, i: nat): (r: Option<Match>)
    ensures r.Some? <==> PatternAt(s, i, DirectMarker) || PatternAt(s, i, GroupedMarker)
    ensures r.Some? ==> && r.value.start == i
                        && (r.value.marker == DirectMarker || r.value.marker == GroupedMarker)
                        && PatternAt(s, i, r.value.marker)
                        && r.value.id == IdAt(s, i, r.value.marker)
  {
    if PatternAt(s, i, DirectMarker) then Some(Match(i, DirectMarker, IdAt(s, i, DirectMarker)))
    else if PatternAt(s, i, GroupedMarker) then Some(Match(i, GroupedMarker, IdAt(s, i, GroupedMarker)))
    else None
  }

  /** `re.search` from position `from` on: the leftmost occurrence, if any. */
  function SearchFrom(s: string, from: nat): (r: Option<Match>)
    requires from <= |s|
    ensures r.Some? ==> && from <= r.value.start <= |s|
                        && MatchAt(s, r.value.start) == r
                        && forall j :: from <= j < r.value.start ==> MatchAt(s, j).None?
    ensures r.None? ==> forall j :: from <= j <= |s| ==> MatchAt(s, j).None?
    decreases |s| - from
  {
    if MatchAt(s, from).Some? then MatchAt(s, from)
    else if from == |s| then None
    else SearchFrom(s, from + 1)
  }

  /** `re.search(pattern, s)`. */
  function Search(s: string): (r: Option<Match>)
    ensures r.Some? ==> && r.value.start <= |s|
                        && MatchAt(s, r.value.start) == r
                        && forall j :: 0 <= j < r.value.start ==> MatchAt(s, j).None?
    ensures r.None? <==> forall j :: 0 <= j <= |s| ==> MatchAt(s, j).None?
  {
    SearchFrom(s, 0)
  }

  /** The search finds the occurrence that starts a text. */
  lemma SearchAtStart(s: string, marker: string)
    requires marker == DirectMarker || marker == GroupedMarker
    requires PatternAt(s, 0, marker)
    ensures Search(s) == Some(Match(0, marker, IdAt(s, 0, marker)))
  {
    if marker == GroupedMarker {
      assert s[1] == GroupedMarker[0];
      assert !PatternAt(s, 0, DirectMarker);
    }
  }

  /** A longer identifier is cut at ten characters: only the first ten word characters
      after the marker are captured. */
  lemma LongIdTruncated(s: string, marker: string, rest: string)
    requires marker == DirectMarker || marker == GroupedMarker
    requires PatternAt(s, 0, marker)
    ensures Search(s + rest).Some?
    ensures Search(s + rest).value.id == IdAt(s, 0, marker)
  {
    var t := s + rest;
    assert t[..|s|] == s;
    assert t[1..1 + |marker|] == s[1..1 + |marker|];
    assert t[2 + |marker|..2 + |marker| + IdLength] == s[2 + |marker|..2 + |marker| + IdLength];
    assert PatternAt(t, 0, marker);
    SearchAtStart(t, marker);
  }
}
