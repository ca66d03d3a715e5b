/**
 * The layer tree of a document and the search for a node by name
 * (find_mask_recursive of the transform mask positioner).
 *
 * A host node is reduced to what the search and the positioner look at: its
 * name, its type string ("grouplayer", "transformationmask", ...) and its
 * ordered child nodes. The search walks the children of a node left to right;
 * a child whose name matches is returned at once, otherwise a child that has
 * children of its own is searched recursively before the next sibling.
 */
module MaskSearch {
  import opened Wrappers

  datatype Node = Node(name: string, kind: string, children: seq<Node>)

  /** The nodes below parent.children[i..], in pre-order: each child, then
      everything below it, then the later siblings. This is the reference
      order the search is proved to follow. */
  function PreOrderFrom(parent: Node, i: nat): seq<Node>
    requires i <= |parent.children|
    decreases parent, |parent.children| - i
  {
    if i == |parent.children| then []
    else
      var child := parent.children[i];
      [child] + PreOrderFrom(child, 0) + PreOrderFrom(parent, i + 1)
  }

  /** Every node strictly below root, in pre-order; root itself is not listed. */
  function Descendants(root: Node): seq<Node> {
    PreOrderFrom(root, 0)
  }

  /** A child and all the nodes below it, in pre-order. */
  function Subtree(child: Node): seq<Node> {
    [child] + Descendants(child)
  }

  /** The first node of s whose name is name. */
  function FirstNamed(s: seq<Node>, name: string): (r: Option<Node>)
    ensures r.Some? ==> r.value.name == name && r.value in s
    ensures r.None? <==> forall d :: d in s ==> d.name != name
  {
    if s == [] then None
    else if s[0].name == name then Some(s[0])
    else
      var r := FirstNamed(s[1..], name);
      assert forall d :: d in s ==> d == s[0] || d in s[1..];
      r
  }

  /** What FirstNamed returns sits at an index of s before which no name matches. */
  lemma {:induction false} FirstNamedIsFirst(s: seq<Node>, name: string)
    requires FirstNamed(s, name).Some?
    ensures exists k :: 0 <= k < |s| && s[k] == FirstNamed(s, name).value &&
                        forall j :: 0 <= j < k ==> s[j].name != name
  {
    if s[0].name != name {
      FirstNamedIsFirst(s[1..], name);
      var k :| 0 <= k < |s[1..]| && s[1..][k] == FirstNamed(s, name).value &&
               forall j :: 0 <= j < k ==> s[1..][j].name != name;
      assert s[k + 1] == FirstNamed(s, name).value;
      assert forall j :: 1 <= j < k + 1 ==> s[j] == s[1..][j - 1];
    }
  }

  /** The loop of find_mask_recursive, resumed at child i of parent. */
  function FindFrom(parent: Node, i: nat, name: string): (r: Option<Node>)
    requires i <= |parent.children|
    ensures r.Some? ==> r.value.name == name && r.value in PreOrderFrom(parent, i)
    decreases parent, |parent.children| - i
  {
    if i == |parent.children| then None
    else
      var child := parent.children[i];
      if child.name == name then Some(child)
      else if |child.children| > 0 then
        match FindFrom(child, 0, name)
        case Some(found) => Some(found)
        case None => FindFrom(parent, i + 1, name)
      else FindFrom(parent, i + 1, name)
  }

  /** find_mask_recursive(root, name): the first descendant of root, in
      pre-order, whose name is name; None when no descendant has it. */
  function FindMask(root: Node, name: string): (r: Option<Node>)
    ensures r.Some? ==> r.value.name == name && r.value in Descendants(root)
  {
    FindFrom(root, 0, name)
  }

  /** The search returns the first pre-order match below root. */
  lemma FindMaskIsFirstPreOrderMatch(root: Node, name: string)
    ensures FindMask(root, name) == FirstNamed(Descendants(root), name)
  {
    FindFromIsFirstMatch(root, 0, name);
  }

  /** A found node sits in the pre-order listing below root, and no node
      listed before it carries the name. */
  lemma FindMaskFirstInPreOrder(root: Node, name: string)
    requires FindMask(root, name).Some?
    ensures exists k :: 0 <= k < |Descendants(root)| &&
                        Descendants(root)[k] == FindMask(root, name).value &&
                        forall j :: 0 <= j < k ==> Descendants(root)[j].name != name
  {
    FindMaskIsFirstPreOrderMatch(root, name);
    FirstNamedIsFirst(Descendants(root), name);
  }

  /** The search comes back empty exactly when no node at any depth below
      root carries the name. */
  lemma FindMaskNoneIffAbsent(root: Node, name: string)
    ensures FindMask(root, name).None? <==> forall d :: d in Descendants(root) ==> d.name != name
  {
    FindMaskIsFirstPreOrderMatch(root, name);
  }

  lemma {:induction false} FirstNamedAppend(a: seq<Node>, b: seq<Node>, name: string)
    ensures FirstNamed(a + b, name) ==
            if FirstNamed(a, name).Some? then FirstNamed(a, name) else FirstNamed(b, name)
  {
    if a != [] {
      assert (a + b)[1..] == a[1..] + b;
      FirstNamedAppend(a[1..], b, name);
    } else {
      assert a + b == b;
    }
  }

  /** The search and the pre-order reference agree on every tree and name. */
  lemma {:induction false} FindFromIsFirstMatch(parent: Node, i: nat, name: string)
    requires i <= |parent.children|
    ensures FindFrom(parent, i, name) == FirstNamed(PreOrderFrom(parent, i), name)
    decreases parent, |parent.children| - i
  {
    if i < |parent.children| {
      var child := parent.children[i];
      FindFromIsFirstMatch(child, 0, name);
      FindFromIsFirstMatch(parent, i + 1, name);
      FirstNamedAppend([child] + PreOrderFrom(child, 0), PreOrderFrom(parent, i + 1), name);
      FirstNamedAppend([child], PreOrderFrom(child, 0), name);
      if |child.children| == 0 {
        assert PreOrderFrom(child, 0) == [];
      }
    }
  }

  /** A node listed below parent.children[i..] has fewer descendants than
      that whole listing holds. */
  lemma {:induction false} DescendantsShrink(parent: Node, i: nat, d: Node)
    requires i <= |parent.children|
    requires d in PreOrderFrom(parent, i)
    ensures |Descendants(d)| < |PreOrderFrom(parent, i)|
    decreases parent, |parent.children| - i
  {
    var child := parent.children[i];
    if d != child {
      if d in PreOrderFrom(child, 0) {
        DescendantsShrink(child, 0, d);
      } else {
        DescendantsShrink(parent, i + 1, d);
      }
    }
  }

  /** The root handed to the search is never returned, even when its own
      name is the one searched for. */
  lemma RootNeverReturned(root: Node, name: string)
    ensures FindMask(root, name) != Some(root)
  {
    if root in Descendants(root) {
      DescendantsShrink(root, 0, root);
    }
  }

  lemma {:induction false} FindFromReadsOnlyChildren(p: Node, q: Node, i: nat, name: string)
    requires p.children == q.children
    requires i <= |p.children|
    ensures FindFrom(p, i, name) == FindFrom(q, i, name)
    decreases |p.children| - i
  {
    if i < |p.children| {
      FindFromReadsOnlyChildren(p, q, i + 1, name);
    }
  }

  /** The root's own name and type are never compared: two roots with the
      same children give the same answer. */
  lemma RootNameNeverCompared(root: Node, other: Node, name: string)
    requires root.children == other.children
    ensures FindMask(root, name) == FindMask(other, name)
  {
    FindFromReadsOnlyChildren(root, other, 0, name);
  }

  /** A child whose subtree holds no match hands the search on to the next sibling. */
  lemma SkipUnmatchedSibling(parent: Node, j: nat, name: string)
    requires j < |parent.children|
    requires FirstNamed(Subtree(parent.children[j]), name).None?
    ensures FindFrom(parent, j, name) == FindFrom(parent, j + 1, name)
  {
    var child := parent.children[j];
    assert child in Subtree(child);
    FindFromIsFirstMatch(child, 0, name);
    forall d | d in Descendants(child)
      ensures d.name != name
    {
      assert d in Subtree(child);
    }
  }

  lemma {:induction false} SkipUnmatchedSiblings(parent: Node, j: nat, i: nat, name: string)
    requires j <= i < |parent.children|
    requires forall k :: j <= k < i ==> FirstNamed(Subtree(parent.children[k]), name).None?
    ensures FindFrom(parent, j, name) == FindFrom(parent, i, name)
    decreases i - j
  {
    if j < i {
      SkipUnmatchedSibling(parent, j, name);
      SkipUnmatchedSiblings(parent, j + 1, i, name);
    }
  }

  /** When no earlier sibling's subtree holds the name, a match in child i's
      subtree wins over every later sibling, and a child whose own name
      matches is returned before anything below it is looked at. */
  lemma EarlierSubtreeWins(root: Node, i: nat, name: string)
    requires i < |root.children|
    requires forall k :: 0 <= k < i ==> FirstNamed(Subtree(root.children[k]), name).None?
    ensures FirstNamed(Subtree(root.children[i]), name).Some? ==>
              FindMask(root, name) == FirstNamed(Subtree(root.children[i]), name)
    ensures root.children[i].name == name ==> FindMask(root, name) == Some(root.children[i])
  {
    var child := root.children[i];
    var rest := PreOrderFrom(root, i + 1);
    SkipUnmatchedSiblings(root, 0, i, name);
    FindFromIsFirstMatch(root, i, name);
    assert PreOrderFrom(root, i) == Subtree(child) + rest;
    FirstNamedAppend(Subtree(child), rest, name);
    assert FindMask(root, name) == FindFrom(root, i, name);
    if child.name == name {
      assert Subtree(child)[0] == child;
      assert FirstNamed(Subtree(child), name) == Some(child);
    }
  }
}
