/** `traverseNodes`, the depth-first walk both scripts run over a page to collect
    its icons (cli.js:169-187, cli-export.js:147-164).

    `Walk` states what the walk pushes, `Collector.TraverseNodes` is the walk
    itself, pushing into the array the closure shares, and `Below` is an
    independent description of the same result: list every strict descendant of
    the page in pre-order together with the names of its ancestors, keep the
    component and instance nodes, and describe each by its ancestors. */
module Traversal {
  import opened Document

  /** `parentCategory || node.name`: the category handed to every child. */
  function ChildCategory(parentCategory: string, node: Node): string
  {
    if parentCategory != "" then parentCategory else node.name
  }

  /** What `traverseNodes(node, parentCategory)` pushes, in order. */
  function Walk(node: Node, parentCategory: string, page: Option<string>): seq<Icon>
    decreases node, 1
  {
    WalkFrom(node, 0, ChildCategory(parentCategory, node), page)
  }

  /** What the `forEach` over `node.children` pushes from child `i` on. */
  function WalkFrom(node: Node, i: nat, category: string, page: Option<string>): seq<Icon>
    decreases node, 0, |Kids(node)| - i
  {
    match node.children
    case Absent => []
    case Present(kids) =>
      if i >= |kids| then []
      else
        var child := kids[i];
        (if IsIcon(child) then [Icon(child.id, child.name, node.name, category, page, None)] else [])
        + Walk(child, category, page)
        + WalkFrom(node, i + 1, category, page)
  }

  /** The closure of `getFigmaFile` / `getIconsFromPage`: `iconsArray` and the
      recursive `traverseNodes` that pushes into it. */
  class Collector {
    var iconsArray: seq<Icon>

    constructor ()
      ensures iconsArray == []
    {
      iconsArray := [];
    }

    method TraverseNodes(node: Node, parentCategory: string, page: Option<string>)
      modifies this
      ensures iconsArray == old(iconsArray) + Walk(node, parentCategory, page)
      decreases node
    {
      if node.children.Present? {
        var kids := node.children.nodes;
        var category := ChildCategory(parentCategory, node);
        var i := 0;
        while i < |kids|
          invariant 0 <= i <= |kids|
          invariant old(iconsArray) + Walk(node, parentCategory, page) == iconsArray + WalkFrom(node, i, category, page)
        {
          var child := kids[i];
          ghost var head := if IsIcon(child) then [Icon(child.id, child.name, node.name, category, page, None)] else [];
          WalkFromStep(node, i, category, page);
          ghost var before := iconsArray;
          if IsIcon(child) {
            iconsArray := iconsArray + [Icon(child.id, child.name, node.name, category, page, None)];
          }
          TraverseNodes(child, category, page);
          Reassociate(before, head, Walk(child, category, page), WalkFrom(node, i + 1, category, page));
          i := i + 1;
        }
      }
    }
  }

  /** One step of the `forEach`: child `i`'s descriptor, if it is an icon,
      then everything below child `i`, then the remaining children. */
  lemma WalkFromStep(node: Node, i: nat, category: string, page: Option<string>)
    requires i < |Kids(node)|
    ensures WalkFrom(node, i, category, page) ==
            (if IsIcon(Kids(node)[i]) then [Icon(Kids(node)[i].id, Kids(node)[i].name, node.name, category, page, None)] else [])
            + Walk(Kids(node)[i], category, page) + WalkFrom(node, i + 1, category, page)
  {
  }

  lemma Reassociate<T>(before: seq<T>, head: seq<T>, mid: seq<T>, tail: seq<T>)
    ensures before + head + mid + tail == before + (head + mid + tail)
  {
  }

  /** Collects the icons of one page: `traverseNodes(page)` on a fresh array. */
  method CollectIcons(page: Node, pageName: Option<string>) returns (icons: seq<Icon>)
    ensures icons == Walk(page, "", pageName)
  {
    var collector := new Collector();
    collector.TraverseNodes(page, "", pageName);
    icons := collector.iconsArray;
  }

  // ---------------------------------------------------------------------------
  // The reference description.

  /** A strict descendant of the page, with the names of its ancestors from the
      page down to its parent. */
  datatype Visit = Visit(ancestors: seq<string>, node: Node)

  /** The strict descendants of `node` in depth-first pre-order; `chain` holds the
      names from the page down to `node` itself. */
  function Below(node: Node, chain: seq<string>): seq<Visit>
    decreases node, 1
  {
    BelowFrom(node, chain, 0)
  }

  function BelowFrom(node: Node, chain: seq<string>, i: nat): seq<Visit>
    decreases node, 0, |Kids(node)| - i
  {
    match node.children
    case Absent => []
    case Present(kids) =>
      if i >= |kids| then []
      else [Visit(chain, kids[i])] + Below(kids[i], chain + [kids[i].name]) + BelowFrom(node, chain, i + 1)
  }

  /** The first non-empty name, or "" when there is none. */
  function FirstNonEmpty(names: seq<string>): (r: string)
    ensures r == "" <==> forall k :: 0 <= k < |names| ==> names[k] == ""
    ensures r != "" ==> exists k :: 0 <= k < |names| && names[k] == r &&
                                   forall j :: 0 <= j < k ==> names[j] == ""
  {
    if names == [] then ""
    else if names[0] != "" then names[0]
    else
      var r := FirstNonEmpty(names[1..]);
      assert r != "" ==> exists k :: 0 <= k < |names| && names[k] == r &&
                                    forall j :: 0 <= j < k ==> names[j] == "" by {
        if r != "" {
          var k :| 0 <= k < |names[1..]| && names[1..][k] == r && forall j :: 0 <= j < k ==> names[1..][j] == "";
          assert names[k + 1] == r;
          assert forall j :: 0 <= j < k + 1 ==> names[j] == "" by {
            forall j | 0 <= j < k + 1 ensures names[j] == "" {
              if j > 0 { assert names[j] == names[1..][j - 1]; }
            }
          }
        }
      }
      r
  }

  /** The descriptor the reference description gives a visited icon node: its
      parent's name as path, the first non-empty ancestor name as category. */
  function Describe(v: Visit, page: Option<string>): Icon
    requires v.ancestors != []
  {
    Icon(v.node.id, v.node.name, v.ancestors[|v.ancestors| - 1], FirstNonEmpty(v.ancestors), page, None)
  }

  predicate Rooted(vs: seq<Visit>) {
    forall k :: 0 <= k < |vs| ==> vs[k].ancestors != []
  }

  /** The descriptors of the component and instance visits, in order. */
  function IconsOf(vs: seq<Visit>, page: Option<string>): seq<Icon>
    requires Rooted(vs)
  {
    if vs == [] then []
    else (if IsIcon(vs[0].node) then [Describe(vs[0], page)] else []) + IconsOf(vs[1..], page)
  }

  lemma RootedAppend(a: seq<Visit>, b: seq<Visit>)
    requires Rooted(a) && Rooted(b)
    ensures Rooted(a + b)
  {
    forall k | 0 <= k < |a + b| ensures (a + b)[k].ancestors != [] {
      if k < |a| { assert (a + b)[k] == a[k]; } else { assert (a + b)[k] == b[k - |a|]; }
    }
  }

  lemma {:induction false} IconsOfAppend(a: seq<Visit>, b: seq<Visit>, page: Option<string>)
    requires Rooted(a) && Rooted(b)
    ensures Rooted(a + b)
    ensures IconsOf(a + b, page) == IconsOf(a, page) + IconsOf(b, page)
  {
    RootedAppend(a, b);
    if a == [] {
      assert a + b == b;
    } else {
      assert (a + b)[1..] == a[1..] + b;
      IconsOfAppend(a[1..], b, page);
    }
  }

  lemma {:induction false} FirstNonEmptyAppend(names: seq<string>, name: string)
    ensures FirstNonEmpty(names + [name]) == if FirstNonEmpty(names) != "" then FirstNonEmpty(names) else name
  {
    if names == [] {
      assert names + [name] == [name];
    } else {
      assert (names + [name])[1..] == names[1..] + [name];
      FirstNonEmptyAppend(names[1..], name);
    }
  }

  /** Every visit below `node` carries `chain` as the start of its ancestors. */
  lemma {:induction false} BelowFromExtendsChain(node: Node, chain: seq<string>, i: nat)
    requires chain != []
    ensures Rooted(BelowFrom(node, chain, i))
    ensures forall k :: 0 <= k < |BelowFrom(node, chain, i)| ==>
              |chain| <= |BelowFrom(node, chain, i)[k].ancestors| &&
              BelowFrom(node, chain, i)[k].ancestors[..|chain|] == chain
    decreases node, |Kids(node)| - i
  {
    match node.children
    case Absent =>
    case Present(kids) =>
      if i < |kids| {
        var child := kids[i];
        var longer := chain + [child.name];
        BelowFromExtendsChain(child, longer, 0);
        BelowFromExtendsChain(node, chain, i + 1);
        var head := [Visit(chain, child)];
        var mid := Below(child, longer);
        var tail := BelowFrom(node, chain, i + 1);
        assert BelowFrom(node, chain, i) == head + mid + tail;
        forall k | 0 <= k < |mid|
          ensures |chain| <= |mid[k].ancestors| && mid[k].ancestors[..|chain|] == chain
        {
          assert mid[k].ancestors[..|longer|] == longer;
          assert mid[k].ancestors[..|chain|] == longer[..|chain|];
        }
      }
  }

  /** The walk, with the category `FirstNonEmpty(chain)` it carries at `node`,
      pushes exactly the reference descriptors of the visits below `node`. */
  lemma {:induction false} WalkFromIsReference(node: Node, chain: seq<string>, i: nat, page: Option<string>)
    requires chain != [] && chain[|chain| - 1] == node.name
    ensures Rooted(BelowFrom(node, chain, i))
    ensures WalkFrom(node, i, FirstNonEmpty(chain), page) == IconsOf(BelowFrom(node, chain, i), page)
    decreases node, |Kids(node)| - i
  {
    BelowFromExtendsChain(node, chain, i);
    match node.children
    case Absent =>
    case Present(kids) =>
      if i < |kids| {
        var child := kids[i];
        var longer := chain + [child.name];
        var category := FirstNonEmpty(chain);
        FirstNonEmptyAppend(chain, child.name);
        assert ChildCategory(category, child) == FirstNonEmpty(longer);
        WalkFromIsReference(child, longer, 0, page);
        WalkFromIsReference(node, chain, i + 1, page);
        BelowFromExtendsChain(child, longer, 0);
        var head := [Visit(chain, child)];
        var mid := Below(child, longer);
        var tail := BelowFrom(node, chain, i + 1);
        assert IconsOf(head, page) == if IsIcon(child) then [Describe(Visit(chain, child), page)] else [] by {
          assert head[1..] == [];
        }
        IconsOfAppend(head, mid, page);
        IconsOfAppend(head + mid, tail, page);
      }
  }

  /** `traverseNodes(page)` pushes one descriptor per component or instance node
      strictly below the page, in depth-first pre-order; each records the node's
      id and name, its parent's name as `path`, and as `category` the first
      non-empty name on the chain of ancestors from the page down (or "" when
      all of them are empty). */
  lemma WalkIsReference(page: Node, pageName: Option<string>)
    ensures Rooted(Below(page, [page.name]))
    ensures Walk(page, "", pageName) == IconsOf(Below(page, [page.name]), pageName)
  {
    assert FirstNonEmpty([page.name]) == ChildCategory("", page);
    WalkFromIsReference(page, [page.name], 0, pageName);
  }

  /** Once a category is set it is handed down unchanged. */
  lemma {:induction false} WalkFromKeepsCategory(node: Node, i: nat, category: string, page: Option<string>)
    requires category != ""
    ensures forall k :: 0 <= k < |WalkFrom(node, i, category, page)| ==>
              WalkFrom(node, i, category, page)[k].category == category
    decreases node, |Kids(node)| - i
  {
    match node.children
    case Absent =>
    case Present(kids) =>
      if i < |kids| {
        var child := kids[i];
        WalkFromKeepsCategory(child, 0, category, page);
        WalkFromKeepsCategory(node, i + 1, category, page);
        var head := if IsIcon(child) then [Icon(child.id, child.name, node.name, category, page, None)] else [];
        var mid := Walk(child, category, page);
        var tail := WalkFrom(node, i + 1, category, page);
        assert mid == WalkFrom(child, 0, category, page);
        assert WalkFrom(node, i, category, page) == head + mid + tail;
      }
  }

  /** When the page has a name, every icon found on it has that name as its
      category, however deep it sits. */
  lemma PageNameIsCategory(page: Node, pageName: Option<string>)
    requires page.name != ""
    ensures forall k :: 0 <= k < |Walk(page, "", pageName)| ==> Walk(page, "", pageName)[k].category == page.name
  {
    WalkFromKeepsCategory(page, 0, page.name, pageName);
  }

  /** Every descriptor carries the page tag it was walked with and no URL yet. */
  lemma {:induction false} WalkFromTagsPage(node: Node, i: nat, category: string, page: Option<string>)
    ensures forall k :: 0 <= k < |WalkFrom(node, i, category, page)| ==>
              WalkFrom(node, i, category, page)[k].page == page &&
              WalkFrom(node, i, category, page)[k].image.None?
    decreases node, |Kids(node)| - i
  {
    match node.children
    case Absent =>
    case Present(kids) =>
      if i < |kids| {
        var child := kids[i];
        WalkFromTagsPage(child, 0, ChildCategory(category, child), page);
        WalkFromTagsPage(node, i + 1, category, page);
        var head := if IsIcon(child) then [Icon(child.id, child.name, node.name, category, page, None)] else [];
        assert WalkFrom(node, i, category, page) == head + Walk(child, category, page) + WalkFrom(node, i + 1, category, page);
      }
  }
}
