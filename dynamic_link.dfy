/**
 * `DynamicLink`: a link whose target matches `new RegExp(".*\.nolink")` is
 * shown as plain text. In a JavaScript string literal `\.` is just `.`, so
 * the pattern is `.*.nolink`: unanchored, with an unescaped dot.
 */
module DynamicLink {
  /** What `.` refuses to match. */
  predicate IsLineTerminator(c: char) {
    c == '\n' || c == '\r' || c == '\U{2028}' || c == '\U{2029}'
  }

  const Marker := "nolink"

  /** `nolink` starts at `i`, with a character `.` can match just before it. */
  predicate MarkerAt(s: string, i: int) {
    1 <= i && i + |Marker| <= |s| && s[i..i + |Marker|] == Marker && !IsLineTerminator(s[i - 1])
  }

  /** The regular expression matches somewhere in `s`. */
  ghost predicate PatternMatches(s: string) {
    exists i :: MarkerAt(s, i)
  }

  /** The regular expression's search, trying each start position from `i` on. */
  function SearchFrom(s: string, i: nat): (found: bool)
    requires 1 <= i
    ensures found <==> exists j :: i <= j && MarkerAt(s, j)
    decreases |s| - i
  {
    if i + |Marker| > |s| then false
    else if MarkerAt(s, i) then true
    else
      var rest := SearchFrom(s, i + 1);
      assert forall j :: i <= j && MarkerAt(s, j) ==> j == i || i + 1 <= j;
      rest
  }

  /** `match_re.test(link)` */
  function Test(link: string): (b: bool)
    ensures b <==> PatternMatches(link)
  {
    SearchFrom(link, 1)
  }

  datatype Rendered<C> = Span(children: C) | LinkTo(href: string, children: C)

  function Render<C>(link: string, children: C): (r: Rendered<C>)
    ensures r.children == children
    ensures r.Span? <==> PatternMatches(link)
    ensures r.LinkTo? ==> r.href == link
  {
    if Test(link) then Span(children) else LinkTo(link, children)
  }

  /** Every link ending in `.nolink` is shown as text. */
  lemma SuffixDisables<C>(link: string, children: C)
    requires |link| >= 7 && link[|link| - 7..] == ".nolink"
    ensures Render(link, children) == Span(children)
  {
    var i := |link| - 6;
    assert link[i - 1] == '.';
    assert link[i..i + 6] == link[|link| - 7..][1..];
    assert MarkerAt(link, i);
  }

  /** The match is not confined to the end: `/a-nolink/b` is shown as text too. */
  lemma InfixDisables<C>(children: C)
    ensures Render("/a-nolink/b", children) == Span(children)
  {
    var s := "/a-nolink/b";
    assert s[3..9] == Marker;
    assert MarkerAt(s, 3);
  }

  /** The bare `nolink` has no character before it for `.` to match, so it stays a link. */
  lemma BareMarkerIsLink<C>(children: C)
    ensures Render("nolink", children) == LinkTo("nolink", children)
  {
    assert forall i :: !MarkerAt("nolink", i);
  }

  predicate Contains(s: string, i: int) {
    0 <= i && i + |Marker| <= |s| && s[i..i + |Marker|] == Marker
  }

  /** Without `nolink` anywhere the link is kept, pointing at the input unchanged. */
  lemma NoMarkerIsLink<C>(link: string, children: C)
    requires forall i :: !Contains(link, i)
    ensures Render(link, children) == LinkTo(link, children)
  {
    assert forall i :: MarkerAt(link, i) ==> Contains(link, i);
  }
}
