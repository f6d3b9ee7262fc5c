/** The side menu (src/components/Navbar/Navbar.js): the current path selects the highlighted
    menu item through `getMenuKey`. */
module Navbar {
  import opened Js

  /** A menu item: its key and the path its link leads to. */
  datatype MenuItem = MenuItem(key: string, path: string)

  /** The menu items in display order. */
  const MenuItems: seq<MenuItem> := [
    MenuItem("1", "/classes"), MenuItem("2", "/performance"), MenuItem("3", "/notify"),
    MenuItem("4", "/exam"), MenuItem("5", "/contact"), MenuItem("6", "/fees"),
    MenuItem("7", "/fee-structure"), MenuItem("8", "/subject"), MenuItem("9", "/stock"),
    MenuItem("10", "/educator"), MenuItem("11", "/student"), MenuItem("12", "/timetable"),
    MenuItem("13", "/calendar"), MenuItem("14", "/promote"), MenuItem("15", "/group"),
    MenuItem("logout", "/")
  ]

  /** The paths `getMenuKey` recognises. */
  const ListedPaths: set<string> := {
    "/classes", "/performance", "/notify", "/exam", "/contact", "/fees", "/fee-structure",
    "/subject", "/stock", "/educator", "/student", "/timetable", "/calendar", "/promote", "/group"
  }

  /** `getMenuKey` as written: the fee pages share the key "sub1", and any other path gives
      `null`. */
  function GetMenuKey(pathname: string): (key: Option<string>)
    ensures key.Some? <==> pathname in ListedPaths
    ensures key != Some("6") && key != Some("7")
    ensures key == Some("sub1") <==> pathname == "/fees" || pathname == "/fee-structure"
  {
    match pathname
    case "/classes" => Some("1")
    case "/performance" => Some("2")
    case "/notify" => Some("3")
    case "/exam" => Some("4")
    case "/contact" => Some("5")
    case "/fees" => Some("sub1")
    case "/fee-structure" => Some("sub1")
    case "/subject" => Some("8")
    case "/stock" => Some("9")
    case "/educator" => Some("10")
    case "/student" => Some("11")
    case "/timetable" => Some("12")
    case "/calendar" => Some("13")
    case "/promote" => Some("14")
    case "/group" => Some("15")
    case _ => None
  }

  /** The link path of the menu item with a given key, as a lookup. */
  function ItemPath(key: string): string
  {
    match key
    case "1" => "/classes"
    case "2" => "/performance"
    case "3" => "/notify"
    case "4" => "/exam"
    case "5" => "/contact"
    case "6" => "/fees"
    case "7" => "/fee-structure"
    case "8" => "/subject"
    case "9" => "/stock"
    case "10" => "/educator"
    case "11" => "/student"
    case "12" => "/timetable"
    case "13" => "/calendar"
    case "14" => "/promote"
    case "15" => "/group"
    case _ => "/"
  }

  /** The lookup agrees with the menu: each item's key leads to the item's own path. */
  lemma ItemPathOfMenuItems()
    ensures forall i :: 0 <= i < |MenuItems| ==> ItemPath(MenuItems[i].key) == MenuItems[i].path
  {
  }

  /** Apart from "sub1", the key `getMenuKey` gives is the key of the item linking to that
      very path. */
  lemma GetMenuKeyLeadsBack(pathname: string)
    ensures GetMenuKey(pathname).Some? && GetMenuKey(pathname) != Some("sub1") ==>
              ItemPath(GetMenuKey(pathname).value) == pathname
  {
  }

  /** Apart from the fee pair, distinct listed paths select distinct items. */
  lemma MenuKeysDistinct(p: string, q: string)
    requires p in ListedPaths && q in ListedPaths && p != q
    requires !({p, q} <= {"/fees", "/fee-structure"})
    ensures GetMenuKey(p) != GetMenuKey(q)
  {
    GetMenuKeyLeadsBack(p);
    GetMenuKeyLeadsBack(q);
  }

  /** As written, every page item other than the two fee items is highlighted on its own
      page, while on "/fees" and "/fee-structure" no item is highlighted at all, because no
      item has the key "sub1". */
  lemma FeeItemsNeverHighlighted()
    ensures forall i :: 0 <= i < |MenuItems| - 1 && i != 5 && i != 6 ==> GetMenuKey(MenuItems[i].path) == Some(MenuItems[i].key)
    ensures MenuItems[5].path == "/fees" && GetMenuKey("/fees") != Some(MenuItems[5].key)
    ensures MenuItems[6].path == "/fee-structure" && GetMenuKey("/fee-structure") != Some(MenuItems[6].key)
    ensures forall i :: 0 <= i < |MenuItems| ==> MenuItems[i].key != "sub1"
  {
  }

  /** The mapping with each fee page selecting its own item. */
  function MenuKey(pathname: string): (key: Option<string>)
    ensures key.Some? <==> pathname in ListedPaths
  {
    match pathname
    case "/fees" => Some("6")
    case "/fee-structure" => Some("7")
    case _ => GetMenuKey(pathname)
  }

  /** The key `MenuKey` gives is always the key of the item linking to that very path. */
  lemma MenuKeyLeadsBack(pathname: string)
    ensures MenuKey(pathname).Some? ==> ItemPath(MenuKey(pathname).value) == pathname
  {
  }

  /** Every page item is highlighted exactly on its own page. */
  lemma MenuKeyHighlightsEveryItem(pathname: string)
    ensures forall i :: 0 <= i < |MenuItems| - 1 ==> MenuKey(MenuItems[i].path) == Some(MenuItems[i].key)
    ensures forall i :: 0 <= i < |MenuItems| - 1 && MenuKey(pathname) == Some(MenuItems[i].key) ==> pathname == MenuItems[i].path
  {
    MenuKeyLeadsBack(pathname);
    ItemPathOfMenuItems();
  }
}
