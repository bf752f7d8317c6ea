/**
 Scroll-spy highlighting. The navigation links are the anchors whose
 `href` is an in-page fragment; when the visibility observer reports a
 batch of entries, each entry that is intersecting sets every link's
 `active` class to whether the link's `href` is `#` followed by the
 entry's element id. Entries are handled in order, so in a batch the last
 intersecting entry decides.
 */
module ActiveLinks {
  import opened JsText

  datatype NavLink = NavLink(href: string, active: bool)

  /** One observer entry: whether the section is intersecting the
      observation band, and the section element's id. */
  datatype Entry = Entry(isIntersecting: bool, targetId: string)

  /** An anchor takes part when its `href` starts with `#` and its fragment
      is not empty, so a bare `#` is left out. */
  predicate IsNavAnchor(a: NavLink) {
    |a.href| >= 2 && a.href[0] == '#'
  }

  /** The anchors that take part, in document order. Every taking part
      anchor is kept as often as it occurs (the desktop and the mobile nav
      both link to each section), and no other anchor is. */
  function SelectNavLinks(anchors: seq<NavLink>): (links: seq<NavLink>)
    ensures |links| <= |anchors|
    ensures forall l :: l in links <==> l in anchors && IsNavAnchor(l)
    ensures forall l :: multiset(links)[l] == (if IsNavAnchor(l) then multiset(anchors)[l] else 0)
    decreases |anchors|
  {
    if anchors == [] then []
    else
      assert anchors == [anchors[0]] + anchors[1..];
      if IsNavAnchor(anchors[0]) then [anchors[0]] + SelectNavLinks(anchors[1..])
      else SelectNavLinks(anchors[1..])
  }

  /** Selection keeps document order: selecting from two runs of anchors
      one after the other is selecting from each and joining the results. */
  lemma {:induction false} SelectNavLinksKeepsOrder(a: seq<NavLink>, b: seq<NavLink>)
    ensures SelectNavLinks(a + b) == SelectNavLinks(a) + SelectNavLinks(b)
    decreases |a|
  {
    if a == [] {
      assert a + b == b;
    } else {
      var ab := a + b;
      assert ab[0] == a[0] && ab[1..] == a[1..] + b;
      SelectNavLinksKeepsOrder(a[1..], b);
      var rest := SelectNavLinks(a[1..]) + SelectNavLinks(b);
      if IsNavAnchor(a[0]) {
        calc {
          SelectNavLinks(ab);
          [a[0]] + SelectNavLinks(a[1..] + b);
          [a[0]] + rest;
          ([a[0]] + SelectNavLinks(a[1..])) + SelectNavLinks(b);
        }
      } else {
        calc {
          SelectNavLinks(ab);
          SelectNavLinks(a[1..] + b);
          rest;
        }
      }
    }
  }

  /** Highlight the links that point at section `id`, and only those. */
  function Highlight(links: seq<NavLink>, id: string): (r: seq<NavLink>)
    ensures |r| == |links|
    ensures forall i :: 0 <= i < |r| ==> r[i].href == links[i].href
    ensures forall i :: 0 <= i < |r| ==> (r[i].active <==> links[i].href == "#" + id)
    decreases |links|
  {
    if links == [] then []
    else [links[0].(active := links[0].href == "#" + id)] + Highlight(links[1..], id)
  }

  /** One entry of the observer callback: an intersecting entry highlights
      the links of its section; any other entry leaves the links alone. */
  function OnEntry(links: seq<NavLink>, e: Entry): (r: seq<NavLink>)
    ensures |r| == |links|
    ensures forall i :: 0 <= i < |r| ==> r[i].href == links[i].href
    ensures !e.isIntersecting ==> r == links
    ensures e.isIntersecting ==>
      forall i :: 0 <= i < |r| ==> (r[i].active <==> links[i].href == "#" + e.targetId)
  {
    if e.isIntersecting then Highlight(links, e.targetId) else links
  }

  /** The id of the last intersecting entry of a batch, if any: an
      independent description of which entry decides. */
  function LastIntersecting(entries: seq<Entry>): Option<string>
    decreases |entries|
  {
    if entries == [] then None
    else if entries[|entries| - 1].isIntersecting then Some(entries[|entries| - 1].targetId)
    else LastIntersecting(entries[..|entries| - 1])
  }

  /** The observer callback: the entries are handled one after another.
      Afterwards the hrefs are unchanged; if no entry was intersecting the
      links are exactly as before, and otherwise exactly the links pointing
      at the last intersecting entry's section are active. */
  function OnEntries(links: seq<NavLink>, entries: seq<Entry>): (r: seq<NavLink>)
    ensures |r| == |links|
    ensures forall i :: 0 <= i < |r| ==> r[i].href == links[i].href
    ensures LastIntersecting(entries).None? ==> r == links
    ensures LastIntersecting(entries).Some? ==>
      forall i :: 0 <= i < |r| ==> (r[i].active <==> links[i].href == "#" + LastIntersecting(entries).value)
    decreases |entries|
  {
    if entries == [] then links
    else
      var r := OnEntries(OnEntry(links, entries[0]), entries[1..]);
      LastIntersectingCons(entries);
      r
  }

  /** How the last intersecting entry of a batch relates to that of the
      batch without its first entry. */
  lemma {:induction false} LastIntersectingCons(entries: seq<Entry>)
    requires entries != []
    ensures LastIntersecting(entries) ==
      (if LastIntersecting(entries[1..]).Some? then LastIntersecting(entries[1..])
       else if entries[0].isIntersecting then Some(entries[0].targetId)
       else None)
    decreases |entries|
  {
    if |entries| > 1 {
      var init := entries[..|entries| - 1];
      assert init[1..] == entries[1..][..|entries[1..]| - 1];
      assert init[0] == entries[0];
      LastIntersectingCons(init);
    }
  }

  /** Highlighting for a section never depends on the highlighting before:
      doing it twice, for any two sections, is doing only the second. */
  lemma HighlightOverwrites(links: seq<NavLink>, a: string, b: string)
    ensures Highlight(Highlight(links, a), b) == Highlight(links, b)
  {
    var r1 := Highlight(Highlight(links, a), b);
    var r2 := Highlight(links, b);
    assert forall i :: 0 <= i < |r1| ==> r1[i] == r2[i];
  }
}
