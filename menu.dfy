/** The site's navigation model as the site-rendering tool hands it over:
    a decoration model holds ordered menus, a menu holds ordered items, and
    every item carries an href and its own ordered list of sub-items.
    A null item list behaves exactly like an empty one in the sitemap walk,
    so both are the empty sequence here. */
module Menus {

  datatype MenuItem = MenuItem(href: string, items: seq<MenuItem>)

  datatype Menu = Menu(name: string, items: seq<MenuItem>)

  datatype DecorationModel = DecorationModel(menus: seq<Menu>)

  /** The items of a forest, depth-first and in pre-order: each item comes
      before its sub-items, and siblings keep their list order. */
  function Flatten(items: seq<MenuItem>): seq<MenuItem>
    decreases items
  {
    if items == [] then [] else [items[0]] + Flatten(items[0].items) + Flatten(items[1..])
  }

  /** Number of items in a forest, counted tree by tree. */
  function NodeCount(items: seq<MenuItem>): nat
    decreases items
  {
    if items == [] then 0 else 1 + NodeCount(items[0].items) + NodeCount(items[1..])
  }

  /** `x` is one of the items of the forest, at any depth. */
  ghost predicate InForest(x: MenuItem, items: seq<MenuItem>)
    decreases items
  {
    exists i :: 0 <= i < |items| && (items[i] == x || InForest(x, items[i].items))
  }

  /** The top-level items of every menu, menu after menu. */
  function MenuItems(menus: seq<Menu>): seq<MenuItem>
  {
    if menus == [] then [] else menus[0].items + MenuItems(menus[1..])
  }

  /** Flattening distributes over concatenation: siblings keep list order. */
  lemma {:induction false} FlattenAppend(a: seq<MenuItem>, b: seq<MenuItem>)
    ensures Flatten(a + b) == Flatten(a) + Flatten(b)
    decreases |a|
  {
    if a == [] {
      assert a + b == b;
    } else {
      assert (a + b)[0] == a[0];
      assert (a + b)[1..] == a[1..] + b;
      FlattenAppend(a[1..], b);
    }
  }

  /** Pre-order around one top-level item: everything before it, then the
      item itself, then its whole subtree, then everything after it. */
  lemma FlattenAround(items: seq<MenuItem>, i: nat)
    requires i < |items|
    ensures Flatten(items) == Flatten(items[..i]) + [items[i]] + Flatten(items[i].items) + Flatten(items[i + 1..])
  {
    assert items == items[..i + 1] + items[i + 1..];
    FlattenAppend(items[..i + 1], items[i + 1..]);
    FlattenPrefix(items, i);
  }

  /** One item is flattened to itself followed by its subtree. */
  lemma FlattenPrefix(items: seq<MenuItem>, i: nat)
    requires i < |items|
    ensures Flatten(items[..i + 1]) == Flatten(items[..i]) + [items[i]] + Flatten(items[i].items)
  {
    assert items[..i + 1] == items[..i] + [items[i]];
    FlattenAppend(items[..i], [items[i]]);
    assert [items[i]][1..] == [];
  }

  /** Exactly one entry per item: the flattening is as long as the forest is large. */
  lemma {:induction false} FlattenLength(items: seq<MenuItem>)
    ensures |Flatten(items)| == NodeCount(items)
    decreases items
  {
    if items != [] {
      FlattenLength(items[0].items);
      FlattenLength(items[1..]);
    }
  }

  /** The flattening lists exactly the items of the forest: nothing is
      filtered out and nothing is added. */
  lemma {:induction false} FlattenMembers(x: MenuItem, items: seq<MenuItem>)
    ensures x in Flatten(items) <==> InForest(x, items)
    decreases items
  {
    if items == [] {
    } else {
      FlattenMembers(x, items[0].items);
      FlattenMembers(x, items[1..]);
      if InForest(x, items[1..]) {
        var j :| 0 <= j < |items[1..]| && (items[1..][j] == x || InForest(x, items[1..][j].items));
        assert items[j + 1] == items[1..][j];
      }
      if InForest(x, items) {
        var i :| 0 <= i < |items| && (items[i] == x || InForest(x, items[i].items));
        if i > 0 {
          assert items[1..][i - 1] == items[i];
          assert InForest(x, items[1..]);
        }
      }
    }
  }

  /** Walking the menus one after another is walking the single forest of
      all their top-level items. */
  lemma {:induction false} FlattenMenus(menus: seq<Menu>)
    ensures Flatten(MenuItems(menus)) == if menus == [] then [] else Flatten(menus[0].items) + Flatten(MenuItems(menus[1..]))
  {
    if menus != [] {
      FlattenAppend(menus[0].items, MenuItems(menus[1..]));
    }
  }

  /** The top-level items of consecutive groups of menus are consecutive. */
  lemma {:induction false} MenuItemsAppend(a: seq<Menu>, b: seq<Menu>)
    ensures MenuItems(a + b) == MenuItems(a) + MenuItems(b)
    decreases |a|
  {
    if a == [] {
      assert a + b == b;
    } else {
      assert (a + b)[0] == a[0];
      assert (a + b)[1..] == a[1..] + b;
      MenuItemsAppend(a[1..], b);
    }
  }
}
