/**
 * The sidebar of the admin dashboard: its fixed navigation table, which
 * entry the current path makes active, and the links it renders.
 */
module Sidebar {
  import opened Wrappers
  import opened Text

  datatype NavItem = NavItem(name: string, href: string)

  const Navigation: seq<NavItem> := [
    NavItem("Dashboard", "/dashboard"),
    NavItem("Utilisateurs", "/utilisateurs"),
    NavItem("Rendez-vous", "/rendez-vous"),
    NavItem("Spécialités", "/specialites"),
    NavItem("Centres médicaux", "/centres-medicaux"),
    NavItem("Notifications", "/notifications"),
    NavItem("Statistiques", "/statistiques")
  ]

  /**
   * An entry is active when the path is its `href` or lies below it; when
   * the router gives no path, no entry is.
   */
  predicate IsActive(pathname: Option<string>, href: string) {
    pathname.Some? && (pathname.value == href || StartsWith(pathname.value, href + "/"))
  }

  /** A rendered link: the entry's name and target, and whether it is highlighted. */
  datatype NavLink = NavLink(name: string, href: string, active: bool)

  /** The links the sidebar renders: one per entry, in table order. */
  function RenderNav(pathname: Option<string>): (links: seq<NavLink>)
    ensures |links| == |Navigation|
    ensures forall i :: 0 <= i < |links| ==>
      && links[i].name == Navigation[i].name && links[i].href == Navigation[i].href
      && (links[i].active <==> IsActive(pathname, Navigation[i].href))
  {
    seq(|Navigation|, i requires 0 <= i < |Navigation| =>
      NavLink(Navigation[i].name, Navigation[i].href, IsActive(pathname, Navigation[i].href)))
  }

  predicate DistinctHrefs(nav: seq<NavItem>) {
    forall i, j :: 0 <= i < j < |nav| ==> nav[i].href != nav[j].href
  }

  /** No entry lies below another one. */
  predicate NoNestedHrefs(nav: seq<NavItem>) {
    forall i, j :: 0 <= i < |nav| && 0 <= j < |nav| && i != j ==> !StartsWith(nav[i].href, nav[j].href + "/")
  }

  /** A path of one segment: a slash, then no further slash. */
  predicate SingleSegment(href: string) {
    |href| >= 1 && href[0] == '/' && forall k :: 1 <= k < |href| ==> href[k] != '/'
  }

  /** A path below `g` has a slash right after `g`. */
  lemma SlashAfterPrefix(h: string, g: string)
    ensures StartsWith(h, g + "/") ==> h[|g|] == '/'
  {
    if StartsWith(h, g + "/") {
      assert h[|g|] == h[..|g + "/"|][|g|];
    }
  }

  /** A one-segment path lies below no other non-empty path. */
  lemma SingleSegmentNotNested(h: string, g: string)
    requires SingleSegment(h) && g != ""
    ensures !StartsWith(h, g + "/")
  {
    SlashAfterPrefix(h, g);
  }

  /** Every target in the table is a one-segment path. */
  lemma NavigationSingleSegments()
    ensures forall i :: 0 <= i < |Navigation| ==> SingleSegment(Navigation[i].href)
  {
  }

  /** The table has seven entries with distinct targets. */
  lemma NavigationDistinct()
    ensures |Navigation| == 7
    ensures DistinctHrefs(Navigation)
  {
  }

  /** The table has seven entries, with distinct one-segment targets, so none lies below another. */
  lemma NavigationWellFormed()
    ensures |Navigation| == 7
    ensures DistinctHrefs(Navigation)
    ensures NoNestedHrefs(Navigation)
  {
    NavigationDistinct();
    NavigationSingleSegments();
    forall i, j | 0 <= i < |Navigation| && 0 <= j < |Navigation| && i != j
      ensures !StartsWith(Navigation[i].href, Navigation[j].href + "/")
    {
      SingleSegmentNotNested(Navigation[i].href, Navigation[j].href);
    }
  }

  /** Of two prefixes of the same string, the shorter is a prefix of the longer. */
  lemma PrefixesAlign(s: string, a: string, b: string)
    requires StartsWith(s, a) && StartsWith(s, b) && |a| <= |b|
    ensures StartsWith(b, a)
  {
    assert b[..|a|] == s[..|b|][..|a|] == s[..|a|];
  }

  /** In a table with distinct targets, none below another, no path activates two entries. */
  lemma AtMostOneActiveIn(nav: seq<NavItem>, pathname: Option<string>)
    requires DistinctHrefs(nav) && NoNestedHrefs(nav)
    ensures forall i, j ::
      (0 <= i < |nav| && 0 <= j < |nav| && IsActive(pathname, nav[i].href) && IsActive(pathname, nav[j].href)) ==> i == j
  {
    forall i, j | 0 <= i < |nav| && 0 <= j < |nav| && IsActive(pathname, nav[i].href) && IsActive(pathname, nav[j].href)
      ensures i == j
    {
      if i != j {
        var p, hi, hj := pathname.value, nav[i].href, nav[j].href;
        assert hi != hj by {
          if i < j {} else {}
        }
        if p == hi || p == hj {
        } else if |hi| <= |hj| {
          PrefixesAlign(p, hi + "/", hj + "/");
          BelowOrEqual(hi, hj);
        } else {
          PrefixesAlign(p, hj + "/", hi + "/");
          BelowOrEqual(hj, hi);
        }
      }
    }
  }

  /** When `a + "/"` starts `b + "/"`, `b` is `a` or lies below it. */
  lemma BelowOrEqual(a: string, b: string)
    requires StartsWith(b + "/", a + "/")
    ensures a == b || StartsWith(b, a + "/")
  {
    if |a| == |b| {
      assert a == (a + "/")[..|a|] == (b + "/")[..|a|] == b;
    } else {
      assert (b + "/")[..|a| + 1] == b[..|a| + 1];
    }
  }

  /** For any path, at most one entry of the sidebar is active. */
  lemma AtMostOneActive(pathname: Option<string>)
    ensures forall i, j ::
      (0 <= i < |Navigation| && 0 <= j < |Navigation|
       && IsActive(pathname, Navigation[i].href) && IsActive(pathname, Navigation[j].href)) ==> i == j
  {
    NavigationWellFormed();
    AtMostOneActiveIn(Navigation, pathname);
  }

  /** A sub-page highlights its section; a path that merely begins with the same letters does not. */
  lemma ActiveExamples()
    ensures IsActive(Some("/dashboard"), "/dashboard")
    ensures IsActive(Some("/dashboard/x"), "/dashboard")
    ensures !IsActive(Some("/dashboardx"), "/dashboard")
    ensures forall href :: !IsActive(None, href)
  {
    assert "/dashboard/x"[..|"/dashboard" + "/"|] == "/dashboard/";
    assert "/dashboardx"[..|"/dashboard" + "/"|] == "/dashboardx";
  }
}
