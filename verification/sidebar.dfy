/**
 * The admin sidebar of dashboard/src/components/admin/Sidebar.tsx: the list of open
 * submenus and the toggle that edits it, and the two highlighting predicates.
 */
module Sidebar {
  import opened Wrappers
  import opened Lists

  /** A link of a submenu. */
  datatype SubItem = SubItem(name: string, href: Option<string>)

  /** An entry of the navigation: a link, or a group with a submenu. */
  datatype NavItem = NavItem(name: string, href: Option<string>, submenu: seq<SubItem>)

  /** The navigation the sidebar renders. */
  const Navigation: seq<NavItem> := [
    NavItem("Dashboard", Some("/admin"), []),
    NavItem("NGO Management", None, [
      SubItem("Add NGO", Some("/admin/register-ngo")),
      SubItem("View NGOs", Some("/admin/view-ngos")),
      SubItem("NGO Settings", Some("/admin/ngo-settings"))]),
    NavItem("User Management", None, [
      SubItem("Register User", Some("/admin/register-user")),
      SubItem("View Users", Some("/admin/user"))]),
    NavItem("Duty Pic", Some("/admin/duty-pic"), []),
    NavItem("Attendance", Some("/admin/attendance"), [])
  ]

  /**
   * `toggleSubmenu`: a name that is open is closed, every copy of it removed; a name that
   * is closed is opened at the end of the list.
   */
  function Toggle(open: seq<string>, name: string): (r: seq<string>)
    ensures name in r <==> name !in open
    ensures forall m | m != name :: m in r <==> m in open
    ensures Without(r, name) == Without(open, name)
  {
    if name in open then
      WithoutAbsent(Without(open, name), name);
      Without(open, name)
    else
      WithoutAppend(open, [name], name);
      WithoutAbsent(open, name);
      open + [name]
  }

  /** A closed name opens at the end. */
  lemma ToggleClosedAppends(open: seq<string>, name: string)
    requires name !in open
    ensures Toggle(open, name) == open + [name]
  {
  }

  /** Opening and closing a submenu gives the list back as it was. */
  lemma {:induction false} ToggleTwiceRestores(open: seq<string>, name: string)
    requires name !in open
    ensures Toggle(Toggle(open, name), name) == open
  {
    WithoutAppend(open, [name], name);
    WithoutAbsent(open, name);
  }

  /** Closing and reopening an open submenu moves it to the end. */
  lemma ToggleOpenTwiceMovesLast(open: seq<string>, name: string)
    requires name in open
    ensures Toggle(Toggle(open, name), name) == Without(open, name) + [name]
  {
  }

  /** A list without duplicates stays without duplicates. */
  lemma ToggleKeepsNoDuplicates(open: seq<string>, name: string)
    requires NoDuplicates(open)
    ensures NoDuplicates(Toggle(open, name))
  {
    if name in open {
      WithoutKeepsNoDuplicates(open, name);
    } else {
      var r := open + [name];
      forall i, j | 0 <= i < j < |r| ensures r[i] != r[j] {
        if j == |open| {
          assert r[i] == open[i];
        }
      }
    }
  }

  /** `isSubmenuOpen`. */
  predicate IsSubmenuOpen(open: seq<string>, item: NavItem) {
    item.name in open
  }

  /** `isActive`: the item's own link is exactly the current path. */
  predicate IsActive(item: NavItem, pathname: string) {
    item.href == Some(pathname)
  }

  /** `isSubmenuActive`: some link of the submenu is exactly the current path. */
  predicate IsSubmenuActive(item: NavItem, pathname: string) {
    exists i | 0 <= i < |item.submenu| :: item.submenu[i].href == Some(pathname)
  }

  /**
   * Whether `NavItem` renders an entry highlighted: a group (non-empty submenu) is drawn as
   * a button coloured by `isSubmenuActive`, any other entry as a link coloured by `isActive`.
   */
  predicate Lit(item: NavItem, pathname: string) {
    if |item.submenu| > 0 then IsSubmenuActive(item, pathname) else IsActive(item, pathname)
  }

  /** The entries of the navigation highlighted for a path, in navigation order. */
  function Highlighted(nav: seq<NavItem>, pathname: string): (names: seq<string>)
    ensures |names| <= |nav|
    ensures forall x :: x in names <==>
      exists i | 0 <= i < |nav| :: nav[i].name == x &&
        if |nav[i].submenu| > 0 then IsSubmenuActive(nav[i], pathname) else IsActive(nav[i], pathname)
  {
    if nav == [] then []
    else
      var rest := Highlighted(nav[1..], pathname);
      assert forall i | 1 <= i < |nav| :: nav[i] == nav[1..][i - 1];
      if Lit(nav[0], pathname) then [nav[0].name] + rest else rest
  }

  /** A group's own href plays no part: only its submenu links can highlight it. */
  lemma GroupIgnoresOwnHref(pathname: string)
    ensures var g := NavItem("Group", Some(pathname), [SubItem("Other", None)]);
      IsActive(g, pathname) && Highlighted([g], pathname) == []
  {
    var g := NavItem("Group", Some(pathname), [SubItem("Other", None)]);
    assert !IsSubmenuActive(g, pathname);
  }

  /**
   * Highlighting is exact: on "/admin/attendance" the "Dashboard" link ("/admin") is not
   * highlighted although its href is a prefix of the path.
   */
  lemma ExactMatchNotPrefix()
    ensures IsActive(Navigation[4], "/admin/attendance")
    ensures !IsActive(Navigation[0], "/admin/attendance")
  {
    assert "/admin" != "/admin/attendance" by {
      assert |"/admin"| != |"/admin/attendance"|;
    }
  }

  /** On "/admin/user" the "User Management" group is highlighted, the "NGO Management" group is not. */
  lemma SubmenuHighlight()
    ensures IsSubmenuActive(Navigation[2], "/admin/user")
    ensures !IsSubmenuActive(Navigation[1], "/admin/user")
  {
    assert Navigation[2].submenu[1].href == Some("/admin/user");
    var subs := Navigation[1].submenu;
    assert "/admin/user"[7] == 'u';
    assert subs[0].href.value[7] == 'r';
    assert subs[1].href.value[7] == 'v';
    assert subs[2].href.value[7] == 'n';
  }
}
