/** `initScrollSpy` (script.js:161-205): the nav links that point at a
    fragment of the page become sections, and on every scroll the link of the
    last section that starts at or above the reading line is marked active. */
module ScrollSpy {
  import opened Dom
  import JsString

  /** How far below the top of the viewport the reading line lies (script.js:187). */
  const ReadingLine: int := 100

  /** A section: the index of its nav link and the fragment it names. */
  datatype Section = Section(link: nat, hash: string)

  /** The fragment of a link's href, from its first `#` (script.js:170-172):
      present exactly when the loop body's tests (an href, not empty, with a
      `#`) let the link through. */
  function LinkFragment(e: Element): (r: Option<string>)
    ensures r.Some? ==> |r.value| > 0 && r.value[0] == '#'
    ensures r.Some? <==>
      GetAttr(e, "href").Some? && GetAttr(e, "href").value != "" &&
      JsString.IndexOf(GetAttr(e, "href").value, '#').Some?
    ensures r.Some? ==>
      r.value == GetAttr(e, "href").value[JsString.IndexOf(GetAttr(e, "href").value, '#').value..]
  {
    match GetAttr(e, "href")
    case None => None
    case Some(href) =>
      match JsString.IndexOf(href, '#')
      case None => None
      case Some(k) => Some(href[k..])
  }

  /** A link becomes a section when it has a fragment whose element exists;
      `hasElement` says for which selectors `querySelector` finds one. */
  predicate IsSectionLink(e: Element, hasElement: string -> bool) {
    LinkFragment(e).Some? && hasElement(LinkFragment(e).value)
  }

  /** Some section was made from link `x`. */
  predicate Listed(sections: seq<Section>, x: nat) {
    exists k :: 0 <= k < |sections| && sections[k].link == x
  }

  /** What each collected section is: a qualifying link, with its fragment. */
  predicate Collected(links: seq<Element>, hasElement: string -> bool, sections: seq<Section>) {
    forall k :: 0 <= k < |sections| ==>
      sections[k].link < |links| &&
      IsSectionLink(links[sections[k].link], hasElement) &&
      sections[k].hash == LinkFragment(links[sections[k].link]).value
  }

  lemma ListedGrows(sections: seq<Section>, s: Section)
    ensures forall x :: Listed(sections, x) ==> Listed(sections + [s], x)
    ensures Listed(sections + [s], s.link)
  {
    forall x | Listed(sections, x) ensures Listed(sections + [s], x) {
      var k :| 0 <= k < |sections| && sections[k].link == x;
      assert (sections + [s])[k].link == x;
    }
    assert (sections + [s])[|sections|].link == s.link;
  }

  /** The loop invariant of the collection loop after `i` links. */
  predicate Collecting(links: seq<Element>, hasElement: string -> bool, sections: seq<Section>, i: nat) {
    && i <= |links|
    && (forall k :: 0 <= k < |sections| ==> sections[k].link < i)
    && (forall a, b :: 0 <= a < b < |sections| ==> sections[a].link < sections[b].link)
    && Collected(links, hasElement, sections)
    && (forall x :: 0 <= x < i && IsSectionLink(links[x], hasElement) ==> Listed(sections, x))
  }

  /** A link that does not qualify is skipped. */
  lemma CollectSkip(links: seq<Element>, hasElement: string -> bool, sections: seq<Section>, i: nat)
    requires Collecting(links, hasElement, sections, i) && i < |links|
    requires !IsSectionLink(links[i], hasElement)
    ensures Collecting(links, hasElement, sections, i + 1)
  {
  }

  /** A qualifying link is appended with its fragment. */
  lemma CollectTake(links: seq<Element>, hasElement: string -> bool, sections: seq<Section>, i: nat)
    requires Collecting(links, hasElement, sections, i) && i < |links|
    requires IsSectionLink(links[i], hasElement)
    ensures Collecting(links, hasElement, sections + [Section(i, LinkFragment(links[i]).value)], i + 1)
  {
    ListedGrows(sections, Section(i, LinkFragment(links[i]).value));
  }

  /** The collection loop (script.js:168-182): one section per qualifying
      link, in link order, each with that link's fragment. */
  method CollectSections(links: seq<Element>, hasElement: string -> bool) returns (sections: seq<Section>)
    ensures Collected(links, hasElement, sections)
    ensures forall a, b :: 0 <= a < b < |sections| ==> sections[a].link < sections[b].link
    ensures forall i :: 0 <= i < |links| && IsSectionLink(links[i], hasElement) ==> Listed(sections, i)
    ensures DistinctLinks(sections)
  {
    sections := [];
    var i := 0;
    while i < |links|
      invariant Collecting(links, hasElement, sections, i)
    {
      var href := GetAttr(links[i], "href");
      if href.Some? && href.value != "" && JsString.IndexOf(href.value, '#').Some? {
        var hash := href.value[JsString.IndexOf(href.value, '#').value..];
        if hasElement(hash) {
          CollectTake(links, hasElement, sections, i);
          sections := sections + [Section(i, hash)];
        } else {
          CollectSkip(links, hasElement, sections, i);
        }
      } else {
        CollectSkip(links, hasElement, sections, i);
      }
      i := i + 1;
    }
    IncreasingIsDistinct(sections);
  }

  /** The last section, in list order, whose top is at or above `limit`. */
  function LastAtOrAbove(offsets: seq<int>, limit: int): (r: Option<nat>)
    ensures r.None? <==> forall i :: 0 <= i < |offsets| ==> offsets[i] > limit
    ensures r.Some? ==> r.value < |offsets| && offsets[r.value] <= limit
    ensures r.Some? ==> forall j :: r.value < j < |offsets| ==> offsets[j] > limit
  {
    if offsets == [] then None
    else if offsets[|offsets| - 1] <= limit then Some(|offsets| - 1)
    else LastAtOrAbove(offsets[..|offsets| - 1], limit)
  }

  /** script.js:193-194 */
  function Unmark(e: Element): (r: Element)
    ensures !HasClass(r, "active") && !HasAttr(r, "aria-current")
    ensures r.classes - {"active"} == e.classes - {"active"}
    ensures r.attrs - {"aria-current"} == e.attrs - {"aria-current"}
  {
    RemoveAttr(RemoveClass(e, "active"), "aria-current")
  }

  /** script.js:196-197 */
  function Mark(e: Element): (r: Element)
    ensures HasClass(r, "active") && GetAttr(r, "aria-current") == Some("page")
    ensures r.classes - {"active"} == e.classes - {"active"}
    ensures r.attrs - {"aria-current"} == e.attrs - {"aria-current"}
  {
    SetAttr(AddClass(e, "active"), "aria-current", "page")
  }

  /** The links of the sections. */
  function SectionLinks(sections: seq<Section>): set<nat> {
    set k | 0 <= k < |sections| :: sections[k].link
  }

  predicate LinksInRange(sections: seq<Section>, n: nat) {
    forall k :: 0 <= k < |sections| ==> sections[k].link < n
  }

  /** The links after `updateActiveLink` with the page scrolled to
      `pageYOffset`, section tops at `offsets`. */
  function ActiveLinks(links: seq<Element>, sections: seq<Section>, offsets: seq<int>, pageYOffset: int): (r: seq<Element>)
    requires |offsets| == |sections|
    requires LinksInRange(sections, |links|)
    ensures |r| == |links|
    ensures forall i :: 0 <= i < |links| && i !in SectionLinks(sections) ==> r[i] == links[i]
  {
    match LastAtOrAbove(offsets, pageYOffset + ReadingLine)
    case None => links
    case Some(k) =>
      seq(|links|, i requires 0 <= i < |links| =>
        if i == sections[k].link then Mark(Unmark(links[i]))
        else if i in SectionLinks(sections) then Unmark(links[i])
        else links[i])
  }

  lemma SectionLinksStep(sections: seq<Section>, j: nat)
    requires j < |sections|
    ensures SectionLinks(sections[..j + 1]) == SectionLinks(sections[..j]) + {sections[j].link}
  {
    var a, b := sections[..j + 1], sections[..j];
    forall x | x in SectionLinks(a) ensures x in SectionLinks(b) + {sections[j].link} {
      var k :| 0 <= k < |a| && a[k].link == x;
      if k < j { assert b[k].link == x; }
    }
    forall x | x in SectionLinks(b) + {sections[j].link} ensures x in SectionLinks(a) {
      if x == sections[j].link {
        assert a[j].link == x;
      } else {
        var k :| 0 <= k < |b| && b[k].link == x;
        assert a[k].link == x;
      }
    }
  }

  lemma UnmarkTwice(e: Element)
    ensures Unmark(Unmark(e)) == Unmark(e)
  {
    assert Unmark(Unmark(e)).attrs == Unmark(e).attrs;
  }

  /** No two sections share a link, as `CollectSections` guarantees. */
  predicate DistinctLinks(sections: seq<Section>) {
    forall a, b :: 0 <= a < |sections| && 0 <= b < |sections| && a != b ==> sections[a].link != sections[b].link
  }

  lemma IncreasingIsDistinct(sections: seq<Section>)
    requires forall a, b :: 0 <= a < b < |sections| ==> sections[a].link < sections[b].link
    ensures DistinctLinks(sections)
  {
  }

  /** When some section is at or above the reading line, exactly one section
      link carries `active` and `aria-current="page"`, that of the last such
      section; the other section links carry neither. Other classes and
      attributes are kept. When no section qualifies, nothing changes. */
  lemma ExactlyOneActive(links: seq<Element>, sections: seq<Section>, offsets: seq<int>, pageYOffset: int)
    requires |offsets| == |sections|
    requires LinksInRange(sections, |links|)
    requires DistinctLinks(sections)
    ensures var r := ActiveLinks(links, sections, offsets, pageYOffset);
      match LastAtOrAbove(offsets, pageYOffset + ReadingLine)
      case None => r == links
      case Some(k) =>
        && offsets[k] <= pageYOffset + ReadingLine
        && (forall j :: k < j < |sections| ==> offsets[j] > pageYOffset + ReadingLine)
        && (forall j :: 0 <= j < |sections| ==>
             && (HasClass(r[sections[j].link], "active") <==> j == k)
             && (GetAttr(r[sections[j].link], "aria-current") == Some("page") <==> j == k)
             && (HasAttr(r[sections[j].link], "aria-current") <==> j == k)
             && r[sections[j].link].classes - {"active"} == links[sections[j].link].classes - {"active"}
             && r[sections[j].link].attrs - {"aria-current"} == links[sections[j].link].attrs - {"aria-current"})
  {
    var r := ActiveLinks(links, sections, offsets, pageYOffset);
    match LastAtOrAbove(offsets, pageYOffset + ReadingLine)
    case None =>
    case Some(k) =>
      forall j | 0 <= j < |sections|
        ensures (HasClass(r[sections[j].link], "active") <==> j == k)
        ensures (HasAttr(r[sections[j].link], "aria-current") <==> j == k)
        ensures r[sections[j].link].classes - {"active"} == links[sections[j].link].classes - {"active"}
        ensures r[sections[j].link].attrs - {"aria-current"} == links[sections[j].link].attrs - {"aria-current"}
      {
        var x := sections[j].link;
        assert x in SectionLinks(sections);
        if j == k {
          assert r[x] == Mark(Unmark(links[x]));
        } else {
          assert x != sections[k].link;
          assert r[x] == Unmark(links[x]);
        }
      }
  }

  /** A second update at the same scroll position changes nothing. */
  lemma ActiveLinksIdempotent(links: seq<Element>, sections: seq<Section>, offsets: seq<int>, pageYOffset: int)
    requires |offsets| == |sections|
    requires LinksInRange(sections, |links|)
    ensures var r := ActiveLinks(links, sections, offsets, pageYOffset);
      ActiveLinks(r, sections, offsets, pageYOffset) == r
  {
    var r := ActiveLinks(links, sections, offsets, pageYOffset);
    var r2 := ActiveLinks(r, sections, offsets, pageYOffset);
    match LastAtOrAbove(offsets, pageYOffset + ReadingLine)
    case None =>
    case Some(k) =>
      forall i | 0 <= i < |links| ensures r2[i] == r[i] {
        if i == sections[k].link {
          assert Mark(Unmark(Mark(Unmark(links[i])))).attrs == Mark(Unmark(links[i])).attrs;
        } else if i in SectionLinks(sections) {
          UnmarkTwice(links[i]);
        }
      }
  }

  /** `updateActiveLink` (script.js:186-201), performed in place on the
      page's nav links. */
  method UpdateActiveLink(links: array<Element>, sections: seq<Section>, offsets: seq<int>, pageYOffset: int)
    requires |offsets| == |sections|
    requires LinksInRange(sections, links.Length)
    modifies links
    ensures links[..] == ActiveLinks(old(links[..]), sections, offsets, pageYOffset)
  {
    var scrollPos := pageYOffset + ReadingLine;
    var i := |sections| - 1;
    while i >= 0
      invariant -1 <= i < |sections|
      invariant forall j :: i < j < |sections| ==> offsets[j] > scrollPos
      invariant links[..] == old(links[..])
    {
      if offsets[i] <= scrollPos {
        ghost var before := links[..];
        var j := 0;
        while j < |sections|
          invariant 0 <= j <= |sections|
          invariant forall x :: 0 <= x < links.Length ==>
            links[x] == if x in SectionLinks(sections[..j]) then Unmark(before[x]) else before[x]
        {
          SectionLinksStep(sections, j);
          UnmarkTwice(before[sections[j].link]);
          links[sections[j].link] := Unmark(links[sections[j].link]);
          j := j + 1;
        }
        assert sections[..j] == sections;
        var l := sections[i].link;
        links[l] := Mark(links[l]);
        assert LastAtOrAbove(offsets, scrollPos) == Some(i);
        assert links[..] == ActiveLinks(before, sections, offsets, pageYOffset);
        return;
      }
      i := i - 1;
    }
  }
}
