/**
 * Active-section highlighting of the panel navigation: the section the
 * reading anchor has reached last is the active one, and exactly the links
 * pointing at it carry the `active` class.
 */
module Nav {
  import opened Wrappers

  /** A page section a navigation link points at: its `id` and its `offsetTop` in pixels. */
  datatype Section = Section(id: string, offsetTop: int)

  /** The anchor, which lies below the top of the viewport, has reached the section. */
  predicate Reached(s: Section, anchor: real) {
    anchor >= s.offsetTop as real
  }

  /** The last of the first `n` sections the anchor has reached, if any. */
  function LastReached(sections: seq<Section>, anchor: real, n: nat): (r: Option<nat>)
    requires n <= |sections|
    ensures r.Some? ==> r.value < n && Reached(sections[r.value], anchor)
    ensures r.Some? ==> forall j | r.value < j < n :: !Reached(sections[j], anchor)
    ensures r.None? ==> forall j | 0 <= j < n :: !Reached(sections[j], anchor)
  {
    if n == 0 then None
    else if Reached(sections[n - 1], anchor) then Some(n - 1)
    else LastReached(sections, anchor, n - 1)
  }

  /** The id the active link must point at: the last section reached, or the first section. */
  function ActiveId(sections: seq<Section>, anchor: real): string
    requires sections != []
  {
    match LastReached(sections, anchor, |sections|)
    case Some(i) => sections[i].id
    case None => sections[0].id
  }

  /**
   * The active id is that of a section the anchor has reached with no later
   * section reached, or, when the anchor has reached none, the first
   * section's id.
   */
  lemma ActiveIdIsLastReached(sections: seq<Section>, anchor: real)
    requires sections != []
    ensures (forall j | 0 <= j < |sections| :: !Reached(sections[j], anchor)) ==> ActiveId(sections, anchor) == sections[0].id
    ensures forall i | 0 <= i < |sections| && Reached(sections[i], anchor) && (forall j | i < j < |sections| :: !Reached(sections[j], anchor)) ::
      ActiveId(sections, anchor) == sections[i].id
  {
    var r := LastReached(sections, anchor, |sections|);
    forall i | 0 <= i < |sections| && Reached(sections[i], anchor) && (forall j | i < j < |sections| :: !Reached(sections[j], anchor))
      ensures ActiveId(sections, anchor) == sections[i].id
    {
      assert r.Some?;
      assert !(r.value > i) && !(r.value < i);
    }
  }

  /** With sections in page order the anchor reaches a prefix of them; the active one is the last of that prefix. */
  lemma ActiveIdInPageOrder(sections: seq<Section>, anchor: real, i: nat)
    requires i < |sections|
    requires forall a, b | 0 <= a < b < |sections| :: sections[a].offsetTop <= sections[b].offsetTop
    requires Reached(sections[i], anchor) && (i + 1 == |sections| || !Reached(sections[i + 1], anchor))
    ensures ActiveId(sections, anchor) == sections[i].id
  {
    ActiveIdIsLastReached(sections, anchor);
    forall j | i < j < |sections| ensures !Reached(sections[j], anchor) {
      assert sections[i + 1].offsetTop <= sections[j].offsetTop;
    }
  }

  /** The selection loop of `markActiveNav`: the last reached section wins, the first is the default. */
  method SelectActive(sections: seq<Section>, anchor: real) returns (activeId: string)
    requires sections != []
    ensures activeId == ActiveId(sections, anchor)
  {
    activeId := sections[0].id;
    for k := 0 to |sections|
      invariant activeId == match LastReached(sections, anchor, k) case Some(i) => sections[i].id case None => sections[0].id
    {
      if Reached(sections[k], anchor) {
        activeId := sections[k].id;
      }
    }
  }

  /** The `href` a link must have to be the active one. */
  function ActiveHref(activeId: string): string {
    "#" + activeId
  }

  /** `link.getAttribute("href") === `#${activeId}``: a link without an `href` is never active. */
  predicate PointsAt(href: Option<string>, activeId: string) {
    href == Some(ActiveHref(activeId))
  }

  /** A link of the panel navigation and its class list. */
  class NavLink {
    const href: Option<string>
    var classes: set<string>

    constructor (href: Option<string>, classes: set<string>)
      ensures this.href == href && this.classes == classes
    {
      this.href := href;
      this.classes := classes;
    }

    /** `classList.toggle("active", on)`. */
    method ToggleActive(on: bool)
      modifies this
      ensures ("active" in classes) == on
      ensures classes - {"active"} == old(classes) - {"active"}
    {
      if on {
        classes := classes + {"active"};
      } else {
        classes := classes - {"active"};
      }
    }
  }

  /**
   * `markActiveNav` for the reading anchor `anchor` (`scrollY` plus 35% of
   * the viewport height): with no sections or no links nothing changes;
   * otherwise a link has the `active` class exactly when it points at the
   * active section, and its other classes are untouched.
   */
  method MarkActiveNav(sections: seq<Section>, links: seq<NavLink>, anchor: real)
    modifies set i | 0 <= i < |links| :: links[i]
    ensures sections == [] || links == [] ==> forall i | 0 <= i < |links| :: links[i].classes == old(links[i].classes)
    ensures sections != [] ==> forall i | 0 <= i < |links| :: ("active" in links[i].classes) == PointsAt(links[i].href, ActiveId(sections, anchor))
    ensures forall i | 0 <= i < |links| :: links[i].classes - {"active"} == old(links[i].classes) - {"active"}
  {
    if |sections| == 0 || |links| == 0 {
      return;
    }
    var activeId := SelectActive(sections, anchor);
    for k := 0 to |links|
      invariant forall i | 0 <= i < k :: ("active" in links[i].classes) == PointsAt(links[i].href, activeId)
      invariant forall i | 0 <= i < |links| :: links[i].classes - {"active"} == old(links[i].classes) - {"active"}
    {
      var isActive := PointsAt(links[k].href, activeId);
      links[k].ToggleActive(isActive);
    }
  }

  /**
   * `sections`: the elements that the links' `href`s select, in link order,
   * for the `href`s that start with `#`; `find` is `document.querySelector`
   * on such a selector, absent when no element matches.
   */
  function SectionsOf(hrefs: seq<Option<string>>, find: string -> Option<Section>): (r: seq<Section>)
    ensures |r| <= |hrefs|
    ensures forall s | s in r :: exists i | 0 <= i < |hrefs| :: IsFragment(hrefs[i]) && find(hrefs[i].value) == Some(s)
    ensures forall i | 0 <= i < |hrefs| && IsFragment(hrefs[i]) && find(hrefs[i].value).Some? :: find(hrefs[i].value).value in r
  {
    if hrefs == [] then []
    else
      var rest := SectionsOf(hrefs[1..], find);
      assert forall s | s in rest :: exists i | 1 <= i < |hrefs| :: IsFragment(hrefs[i]) && find(hrefs[i].value) == Some(s) by {
        forall s | s in rest ensures exists i | 1 <= i < |hrefs| :: IsFragment(hrefs[i]) && find(hrefs[i].value) == Some(s) {
          var j :| 0 <= j < |hrefs[1..]| && IsFragment(hrefs[1..][j]) && find(hrefs[1..][j].value) == Some(s);
          assert hrefs[j + 1] == hrefs[1..][j];
        }
      }
      assert forall i | 1 <= i < |hrefs| :: hrefs[i] == hrefs[1..][i - 1];
      if IsFragment(hrefs[0]) && find(hrefs[0].value).Some? then [find(hrefs[0].value).value] + rest else rest
  }

  /** The sections of one link: the element its `#` target selects, if there is one. */
  function LinkSection(href: Option<string>, find: string -> Option<Section>): seq<Section> {
    if IsFragment(href) && find(href.value).Some? then [find(href.value).value] else []
  }

  /** One link gives its own section or nothing. */
  lemma SectionsOfOne(href: Option<string>, find: string -> Option<Section>)
    ensures SectionsOf([href], find) == LinkSection(href, find)
  {
    assert [href][1..] == [];
  }

  /**
   * The sections follow the links: those of a list of links are those of
   * its first part followed by those of the rest, so each link contributes
   * at most its own section, in link order.
   */
  lemma {:induction false} SectionsOfAppend(a: seq<Option<string>>, b: seq<Option<string>>, find: string -> Option<Section>)
    ensures SectionsOf(a + b, find) == SectionsOf(a, find) + SectionsOf(b, find)
  {
    if a == [] {
      assert a + b == b;
    } else {
      assert (a + b)[0] == a[0];
      assert (a + b)[1..] == a[1..] + b;
      SectionsOfAppend(a[1..], b, find);
    }
  }

  /** `target && target.startsWith("#")`. */
  predicate IsFragment(href: Option<string>) {
    href.Some? && href.value != [] && href.value[0] == '#'
  }
}
