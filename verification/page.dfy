/** The fetched product page as the scrapers see it. CSS matching is not modelled: a
    document maps each selector the code uses to the first element it matches. */
module Page {
  import opened Options
  import opened Text

  /** An element, as far as its text goes: its text nodes in document order. */
  datatype Element = Element(texts: seq<string>)

  /** The first element each selector matches; a selector matching nothing is absent. */
  type Document = map<string, Element>

  /** The outcome of the HTTP request: a transport error or an error status, or a page. */
  datatype Fetch = FetchFailed | Fetched(doc: Document)

  /** `soup.select_one(selector)` and `soup.find(...)`. */
  function SelectOne(doc: Document, selector: string): (r: Option<Element>)
    ensures r.Some? <==> selector in doc
    ensures r.Some? ==> r.value == doc[selector]
  {
    if selector in doc then Some(doc[selector]) else None
  }

  function Join(parts: seq<string>): (r: string)
    ensures parts == [] ==> r == []
  {
    if parts == [] then [] else parts[0] + Join(parts[1..])
  }

  /** `get_text()`: the text nodes joined as they are. */
  function GetText(e: Element): string {
    Join(e.texts)
  }

  /** Every text node stripped, then joined. */
  function JoinStripped(parts: seq<string>): (r: string)
    ensures r != [] ==> !IsSpace(r[0]) && !IsSpace(r[|r| - 1])
    ensures r == [] <==> forall i :: 0 <= i < |parts| ==> Strip(parts[i]) == []
  {
    if parts == [] then []
    else
      var head, rest := Strip(parts[0]), JoinStripped(parts[1..]);
      assert head != [] ==> !IsSpace(head[0]) && !IsSpace(head[|head| - 1]) by {
        StripSpec(parts[0]);
      }
      assert rest != [] ==> (head + rest)[|head + rest| - 1] == rest[|rest| - 1];
      assert head != [] ==> (head + rest)[0] == head[0];
      assert forall i :: 1 <= i < |parts| ==> parts[i] == parts[1..][i - 1];
      head + rest
  }

  /** Joining works node by node: the text of two runs of nodes is the text of the first
      followed by the text of the second, and one node gives its own strip. */
  lemma {:induction false} JoinStrippedAppend(a: seq<string>, b: seq<string>, t: string)
    ensures JoinStripped(a + b) == JoinStripped(a) + JoinStripped(b)
    ensures JoinStripped([t]) == Strip(t)
  {
    assert [t][1..] == [];
    if a == [] {
      assert a + b == b;
    } else {
      assert (a + b)[0] == a[0];
      assert (a + b)[1..] == a[1..] + b;
      JoinStrippedAppend(a[1..], b, t);
    }
  }

  /** `get_text(strip=True)`: each text node stripped, blank ones dropped, the rest joined
      without a separator. The result neither starts nor ends with whitespace. */
  function GetTextStripped(e: Element): string {
    JoinStripped(e.texts)
  }

  /** For an element with one text node the two ways of stripping agree. */
  lemma StrippedSingle(t: string)
    ensures GetTextStripped(Element([t])) == Strip(GetText(Element([t])))
  {
    assert [t][1..] == [];
    assert GetText(Element([t])) == t;
  }
}
