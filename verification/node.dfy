/**
 * The generic parse-tree node (BaseNode) and the leaf-node behaviour of tokens.
 *
 * Nodes live in an arena owned by a `Forest`; a node's identity is its index. A base node
 * keeps an ordered child list, a parent link, a named-child map that refuses duplicate names,
 * named child lists and a memoised token source. A token leaf has a parent link and its own
 * token source and no children: it refuses adding, replacing and removing a child, and
 * clearing its children does nothing.
 */
module Tree {
  import opened Text

  /** The identity of the lexer a node was read by. */
  type Source = nat

  datatype NodeRec =
    | Base(parent: Option<nat>, children: seq<nat>, named: map<string, Option<nat>>,
           lists: map<string, seq<Option<nat>>>, tokenSource: Option<Source>)
    | Leaf(parent: Option<nat>, source: Option<Source>)

  /** The outcome of an operation a token leaf refuses (UnsupportedOperationException), or of
      binding a name twice. */
  datatype Status = Done | Unsupported | Duplicate

  // ----- Child sequences -----

  /** `List.add(i, x)`. */
  function Insert(s: seq<nat>, i: nat, x: nat): (r: seq<nat>)
    requires i <= |s|
    ensures |r| == |s| + 1
  {
    s[..i] + [x] + s[i..]
  }

  /** `List.remove(i)`. */
  function RemoveAt(s: seq<nat>, i: nat): (r: seq<nat>)
    requires i < |s|
    ensures |r| == |s| - 1
  {
    s[..i] + s[i + 1..]
  }

  /** Inserting puts `x` at `i` and shifts every later element up by one. */
  lemma InsertShifts(s: seq<nat>, i: nat, x: nat)
    requires i <= |s|
    ensures Insert(s, i, x)[i] == x
    ensures forall j :: 0 <= j < i ==> Insert(s, i, x)[j] == s[j]
    ensures forall j :: i < j <= |s| ==> Insert(s, i, x)[j] == s[j - 1]
    ensures multiset(Insert(s, i, x)) == multiset(s) + multiset{x}
  {
    assert s == s[..i] + s[i..];
  }

  /** Inserting at the end is appending (addChild(n) is addChild(size, n)). */
  lemma InsertAtEnd(s: seq<nat>, x: nat)
    ensures Insert(s, |s|, x) == s + [x]
  {
    assert s[|s|..] == [];
  }

  /** Removing drops exactly element `i`, keeps the others in order, and undoes an insert. */
  lemma RemoveAtShifts(s: seq<nat>, i: nat)
    requires i < |s|
    ensures forall j :: 0 <= j < i ==> RemoveAt(s, i)[j] == s[j]
    ensures forall j :: i <= j < |s| - 1 ==> RemoveAt(s, i)[j] == s[j + 1]
    ensures multiset(RemoveAt(s, i)) + multiset{s[i]} == multiset(s)
  {
    assert s == s[..i] + [s[i]] + s[i + 1..];
  }

  lemma RemoveUndoesInsert(s: seq<nat>, i: nat, x: nat)
    requires i <= |s|
    ensures RemoveAt(Insert(s, i, x), i) == s
  {
    var t := Insert(s, i, x);
    assert t[..i] == s[..i];
    assert t[i + 1..] == s[i..];
    assert s == s[..i] + s[i..];
  }

  // ----- Arena-level effects -----

  predicate Ids(nodes: seq<NodeRec>, xs: seq<nat>)
  {
    forall j :: 0 <= j < |xs| ==> xs[j] < |nodes|
  }

  predicate IdOk(nodes: seq<NodeRec>, x: Option<nat>)
  {
    x.Some? ==> x.value < |nodes|
  }

  /** Every id a node mentions names a node of the arena. */
  predicate Closed(nodes: seq<NodeRec>)
  {
    forall k :: 0 <= k < |nodes| ==>
      IdOk(nodes, nodes[k].parent) &&
      (nodes[k].Base? ==>
        Ids(nodes, nodes[k].children) &&
        (forall name :: name in nodes[k].named ==> IdOk(nodes, nodes[k].named[name])) &&
        (forall name, j :: name in nodes[k].lists && 0 <= j < |nodes[k].lists[name]| ==>
          IdOk(nodes, nodes[k].lists[name][j])))
  }

  /** The number of children a node reports: a token leaf has none. */
  function ChildCount(nodes: seq<NodeRec>, p: nat): nat
    requires p < |nodes|
  {
    if nodes[p].Base? then |nodes[p].children| else 0
  }

  /** `setParent`: both kinds of node keep a parent link. */
  function Adopt(nodes: seq<NodeRec>, n: nat, p: nat): (r: seq<NodeRec>)
    requires n < |nodes|
    ensures |r| == |nodes| && r[n].parent == Some(p)
  {
    nodes[n := nodes[n].(parent := Some(p))]
  }

  /** The arena after `p`'s children become `cs` and `n` is adopted by `p`. */
  function Relinked(nodes: seq<NodeRec>, p: nat, cs: seq<nat>, n: nat): seq<NodeRec>
    requires p < |nodes| && n < |nodes| && nodes[p].Base?
  {
    Adopt(nodes[p := nodes[p].(children := cs)], n, p)
  }

  /** The effect of `addChild(i, n)` on a base node; `addChild(n)` is `i == size`. */
  function AddedChild(nodes: seq<NodeRec>, p: nat, i: nat, n: nat): seq<NodeRec>
    requires p < |nodes| && n < |nodes| && nodes[p].Base? && i <= |nodes[p].children|
  {
    Relinked(nodes, p, Insert(nodes[p].children, i, n), n)
  }

  /** The effect of `setChild(i, n)` on a base node. */
  function ReplacedChild(nodes: seq<NodeRec>, p: nat, i: nat, n: nat): seq<NodeRec>
    requires p < |nodes| && n < |nodes| && nodes[p].Base? && i < |nodes[p].children|
  {
    Relinked(nodes, p, nodes[p].children[i := n], n)
  }

  /** Adding a child: the count grows by one, `n` sits at `i` with `p` as its parent, the
      children before `i` stay and the ones from `i` on move up by one; no other node changes
      except for `n`'s parent link, and the arena stays closed. */
  lemma AddedChildEffect(nodes: seq<NodeRec>, p: nat, i: nat, n: nat)
    requires Closed(nodes) && p < |nodes| && n < |nodes| && nodes[p].Base? && i <= |nodes[p].children|
    ensures var r := AddedChild(nodes, p, i, n);
      |r| == |nodes| && Closed(r) &&
      ChildCount(r, p) == ChildCount(nodes, p) + 1 &&
      r[p].children[i] == n && r[n].parent == Some(p) &&
      (forall j :: 0 <= j < i ==> r[p].children[j] == nodes[p].children[j]) &&
      (forall j :: i < j < |r[p].children| ==> r[p].children[j] == nodes[p].children[j - 1]) &&
      (forall k :: 0 <= k < |nodes| && k != p && k != n ==> r[k] == nodes[k])
  {
    InsertShifts(nodes[p].children, i, n);
    var r := AddedChild(nodes, p, i, n);
    assert r[p].children == Insert(nodes[p].children, i, n);
    forall k | 0 <= k < |r|
      ensures IdOk(r, r[k].parent)
      ensures r[k].Base? ==> Ids(r, r[k].children)
    {
      if k == p {
        forall j | 0 <= j < |r[k].children| ensures r[k].children[j] < |r| {
          if j != i {
            assert r[k].children[j] in nodes[p].children;
          }
        }
      }
    }
  }

  /** Replacing a child keeps the count, puts `n` at `i`, keeps every other child and makes
      `p` the parent of `n`. */
  lemma ReplacedChildEffect(nodes: seq<NodeRec>, p: nat, i: nat, n: nat)
    requires Closed(nodes) && p < |nodes| && n < |nodes| && nodes[p].Base? && i < |nodes[p].children|
    ensures var r := ReplacedChild(nodes, p, i, n);
      |r| == |nodes| && Closed(r) &&
      ChildCount(r, p) == ChildCount(nodes, p) &&
      r[p].children[i] == n && r[n].parent == Some(p) &&
      (forall j :: 0 <= j < |r[p].children| && j != i ==> r[p].children[j] == nodes[p].children[j]) &&
      (forall k :: 0 <= k < |nodes| && k != p && k != n ==> r[k] == nodes[k])
  {
    var r := ReplacedChild(nodes, p, i, n);
    assert r[p].children == nodes[p].children[i := n];
    forall k | 0 <= k < |r|
      ensures IdOk(r, r[k].parent)
      ensures r[k].Base? ==> Ids(r, r[k].children)
    {
    }
  }

  /** `removeChild(i)`: the arena without child `i` of `p`; the removed node keeps its parent. */
  function RemovedChild(nodes: seq<NodeRec>, p: nat, i: nat): seq<NodeRec>
    requires p < |nodes| && nodes[p].Base? && i < |nodes[p].children|
  {
    nodes[p := nodes[p].(children := RemoveAt(nodes[p].children, i))]
  }

  /** Removing a child shrinks the count by one, keeps the other children in order, leaves
      every other node (the removed one's parent link included) as it was, and undoes an add
      at the same index. */
  lemma RemovedChildEffect(nodes: seq<NodeRec>, p: nat, i: nat)
    requires Closed(nodes) && p < |nodes| && nodes[p].Base? && i < |nodes[p].children|
    ensures var r := RemovedChild(nodes, p, i);
      |r| == |nodes| && Closed(r) &&
      ChildCount(r, p) == ChildCount(nodes, p) - 1 &&
      (forall j :: 0 <= j < i ==> r[p].children[j] == nodes[p].children[j]) &&
      (forall j :: i <= j < |r[p].children| ==> r[p].children[j] == nodes[p].children[j + 1]) &&
      (forall k :: 0 <= k < |nodes| && k != p ==> r[k] == nodes[k])
  {
    RemoveAtShifts(nodes[p].children, i);
    var r := RemovedChild(nodes, p, i);
    forall k | 0 <= k < |r|
      ensures r[k].Base? ==> Ids(r, r[k].children)
    {
      if k == p {
        forall j | 0 <= j < |r[k].children| ensures r[k].children[j] < |r| {
          if j < i {
            assert r[k].children[j] == nodes[p].children[j];
          } else {
            assert r[k].children[j] == nodes[p].children[j + 1];
          }
        }
      }
    }
  }

  lemma RemoveUndoesAdd(nodes: seq<NodeRec>, p: nat, i: nat, n: nat)
    requires p < |nodes| && n < |nodes| && nodes[p].Base? && i <= |nodes[p].children|
    ensures var r := AddedChild(nodes, p, i, n);
      r[p].Base? && i < |r[p].children| && RemovedChild(r, p, i)[p].children == nodes[p].children
  {
    RemoveUndoesInsert(nodes[p].children, i, n);
  }

  // ----- Named children -----

  /** `getNamedChild`: null for a name never bound, and also for a name bound to null. */
  function NamedChild(rec: NodeRec, name: string): (r: Option<nat>)
    requires rec.Base?
    ensures name !in rec.named ==> r.None?
  {
    if name in rec.named then rec.named[name] else None
  }

  /** `getNamedChildList`: null for a name never used. */
  function NamedChildList(rec: NodeRec, name: string): (r: Option<seq<Option<nat>>>)
    requires rec.Base?
    ensures r.Some? <==> name in rec.lists
  {
    if name in rec.lists then Some(rec.lists[name]) else None
  }

  /** `setNamedChild` refuses a name that is already bound (even to null); otherwise the name
      reads back as the bound node and every other name is unaffected. */
  lemma NamedChildBinding(rec: NodeRec, name: string, n: Option<nat>, other: string)
    requires rec.Base? && name !in rec.named && other != name
    ensures var r := rec.(named := rec.named[name := n]);
      NamedChild(r, name) == n && name in r.named &&
      NamedChild(r, other) == NamedChild(rec, other) && r.children == rec.children
  {
  }

  /** Appending to a named list extends that name's list by exactly the new node, creating
      it on first use, and leaves every other name's list alone. */
  function WithListed(rec: NodeRec, name: string, n: Option<nat>): NodeRec
    requires rec.Base?
  {
    var old_ := if name in rec.lists then rec.lists[name] else [];
    rec.(lists := rec.lists[name := old_ + [n]])
  }

  lemma WithListedEffect(rec: NodeRec, name: string, n: Option<nat>, other: string)
    requires rec.Base? && other != name
    ensures var r := WithListed(rec, name, n);
      r.Base? &&
      NamedChildList(r, name) == Some((if NamedChildList(rec, name).Some? then NamedChildList(rec, name).value else []) + [n]) &&
      NamedChildList(r, other) == NamedChildList(rec, other) &&
      r.children == rec.children && r.named == rec.named
  {
  }

  // ----- Token source -----

  /** The arena has no cycle through child lists: `rank` strictly decreases from a node to
      each of its children. getTokenSource overflows its stack when its search meets a cycle
      before it finds a memo or a source; the model excludes every cycle in the arena. */
  predicate Ranked(nodes: seq<NodeRec>, rank: seq<nat>)
  {
    |rank| == |nodes| &&
    forall k, j :: 0 <= k < |nodes| && nodes[k].Base? && 0 <= j < |nodes[k].children| ==>
      nodes[k].children[j] < |nodes| && rank[nodes[k].children[j]] < rank[k]
  }

  /** What getTokenSource returns: a token leaf's own source; for a base node its memo, or
      else the first non-null source among its children in child order. */
  function SourceOf(nodes: seq<NodeRec>, rank: seq<nat>, k: nat): Option<Source>
    requires Ranked(nodes, rank) && k < |nodes|
    decreases rank[k], 1
  {
    match nodes[k]
    case Leaf(_, s) => s
    case Base(_, _, _, _, memo) => if memo.Some? then memo else FirstSource(nodes, rank, k, 0)
  }

  function FirstSource(nodes: seq<NodeRec>, rank: seq<nat>, k: nat, j: nat): Option<Source>
    requires Ranked(nodes, rank) && k < |nodes| && nodes[k].Base? && j <= |nodes[k].children|
    decreases rank[k], 0, |nodes[k].children| - j
  {
    if j == |nodes[k].children| then None
    else
      var s := SourceOf(nodes, rank, nodes[k].children[j]);
      if s.Some? then s else FirstSource(nodes, rank, k, j + 1)
  }

  /** The first-found source really is the first: every child before the one that supplies
      it has no source, and when none is found no child from `j` on has one. */
  lemma {:induction false} FirstSourceIsFirst(nodes: seq<NodeRec>, rank: seq<nat>, k: nat, j: nat)
    requires Ranked(nodes, rank) && k < |nodes| && nodes[k].Base? && j <= |nodes[k].children|
    ensures var cs := nodes[k].children; var r := FirstSource(nodes, rank, k, j);
      (r.None? ==> forall m :: j <= m < |cs| ==> SourceOf(nodes, rank, cs[m]).None?) &&
      (r.Some? ==> exists m :: j <= m < |cs| && SourceOf(nodes, rank, cs[m]) == r &&
                     forall q :: j <= q < m ==> SourceOf(nodes, rank, cs[q]).None?)
    decreases |nodes[k].children| - j
  {
    var cs := nodes[k].children;
    if j < |cs| && SourceOf(nodes, rank, cs[j]).None? {
      FirstSourceIsFirst(nodes, rank, k, j + 1);
      var r := FirstSource(nodes, rank, k, j);
      if r.Some? {
        var m :| j + 1 <= m < |cs| && SourceOf(nodes, rank, cs[m]) == r &&
                 forall q :: j + 1 <= q < m ==> SourceOf(nodes, rank, cs[q]).None?;
        assert forall q :: j <= q < m ==> SourceOf(nodes, rank, cs[q]).None?;
      }
    }
  }

  /** A node as it is apart from its memoised token source. */
  function Forget(rec: NodeRec): NodeRec
  {
    if rec.Base? then rec.(tokenSource := None) else rec
  }

  /** `b` is `a` with some memos filled in, each with the value getTokenSource computes in `a`. */
  predicate MemoOnly(a: seq<NodeRec>, b: seq<NodeRec>, rank: seq<nat>)
    requires Ranked(a, rank)
  {
    |a| == |b| &&
    forall k :: 0 <= k < |a| ==>
      Forget(a[k]) == Forget(b[k]) &&
      (b[k] == a[k] || (a[k].Base? && a[k].tokenSource.None? && b[k].tokenSource == SourceOf(a, rank, k)))
  }

  lemma MemoOnlyRanked(a: seq<NodeRec>, b: seq<NodeRec>, rank: seq<nat>)
    requires Ranked(a, rank) && MemoOnly(a, b, rank)
    ensures Ranked(b, rank)
    ensures forall k :: 0 <= k < |a| ==> b[k].Base? == a[k].Base?
    ensures forall k :: 0 <= k < |a| && a[k].Base? ==> b[k].children == a[k].children
  {
    forall k | 0 <= k < |a|
      ensures b[k].Base? == a[k].Base?
      ensures a[k].Base? ==> b[k].children == a[k].children
    {
      assert Forget(a[k]) == Forget(b[k]);
    }
  }

  /** Memoising never changes what getTokenSource returns for any node. */
  lemma {:induction false} MemoKeepsSource(a: seq<NodeRec>, b: seq<NodeRec>, rank: seq<nat>, k: nat)
    requires Ranked(a, rank) && MemoOnly(a, b, rank) && k < |a|
    ensures Ranked(b, rank) && SourceOf(b, rank, k) == SourceOf(a, rank, k)
    decreases rank[k], 1
  {
    MemoOnlyRanked(a, b, rank);
    assert Forget(a[k]) == Forget(b[k]);
    if a[k].Base? {
      MemoKeepsFirst(a, b, rank, k, 0);
    }
  }

  lemma {:induction false} MemoKeepsFirst(a: seq<NodeRec>, b: seq<NodeRec>, rank: seq<nat>, k: nat, j: nat)
    requires Ranked(a, rank) && MemoOnly(a, b, rank) && k < |a| && a[k].Base? && j <= |a[k].children|
    ensures Ranked(b, rank) && b[k].Base? && b[k].children == a[k].children
    ensures FirstSource(b, rank, k, j) == FirstSource(a, rank, k, j)
    decreases rank[k], 0, |a[k].children| - j
  {
    MemoOnlyRanked(a, b, rank);
    if j < |a[k].children| {
      MemoKeepsSource(a, b, rank, a[k].children[j]);
      MemoKeepsFirst(a, b, rank, k, j + 1);
    }
  }

  lemma MemoOnlyTrans(a: seq<NodeRec>, b: seq<NodeRec>, c: seq<NodeRec>, rank: seq<nat>)
    requires Ranked(a, rank) && MemoOnly(a, b, rank)
    requires Ranked(b, rank) && MemoOnly(b, c, rank)
    ensures MemoOnly(a, c, rank)
  {
    forall k | 0 <= k < |a|
      ensures Forget(a[k]) == Forget(c[k])
      ensures c[k] == a[k] || (a[k].Base? && a[k].tokenSource.None? && c[k].tokenSource == SourceOf(a, rank, k))
    {
      MemoKeepsSource(a, b, rank, k);
    }
  }


  // ----- The arena of nodes -----

  class Forest {
    var nodes: seq<NodeRec>

    ghost predicate Valid()
      reads this`nodes
    {
      Closed(nodes)
    }

    constructor()
      ensures Valid() && nodes == []
    {
      nodes := [];
    }

    /** `new BaseNode()`: no parent, no children, no names, no token source yet. */
    method NewBaseNode() returns (id: nat)
      requires Valid()
      modifies this`nodes
      ensures Valid() && id == |old(nodes)|
      ensures nodes == old(nodes) + [Base(None, [], map[], map[], None)]
    {
      id := |nodes|;
      nodes := nodes + [Base(None, [], map[], map[], None)];
      assert forall k :: 0 <= k < id ==> nodes[k] == old(nodes)[k];
    }

    /** A token taking its place in the tree as a leaf read by `source`. */
    method NewLeaf(source: Option<Source>) returns (id: nat)
      requires Valid()
      modifies this`nodes
      ensures Valid() && id == |old(nodes)|
      ensures nodes == old(nodes) + [Leaf(None, source)]
    {
      id := |nodes|;
      nodes := nodes + [Leaf(None, source)];
      assert forall k :: 0 <= k < id ==> nodes[k] == old(nodes)[k];
    }

    function GetChildCount(p: nat): (r: nat)
      requires p < |nodes|
      reads this`nodes
      ensures nodes[p].Leaf? ==> r == 0
      ensures nodes[p].Base? ==> r == |nodes[p].children|
    {
      ChildCount(nodes, p)
    }

    /** `getChild(i)`: element `i` of a base node's children; a token leaf answers null. */
    function GetChild(p: nat, i: nat): (r: Option<nat>)
      requires p < |nodes|
      requires nodes[p].Base? ==> i < |nodes[p].children|
      reads this`nodes
      ensures nodes[p].Leaf? <==> r.None?
      ensures nodes[p].Base? ==> r == Some(nodes[p].children[i])
    {
      if nodes[p].Base? then Some(nodes[p].children[i]) else None
    }

    /** `children()`: a base node's child list; a token leaf answers the empty list. The list
        agrees with getChildCount and getChild slot by slot. */
    function Children(p: nat): (r: seq<nat>)
      requires p < |nodes|
      reads this`nodes
      ensures nodes[p].Leaf? ==> r == []
      ensures |r| == GetChildCount(p)
      ensures forall i :: 0 <= i < |r| ==> GetChild(p, i) == Some(r[i])
    {
      if nodes[p].Base? then nodes[p].children else []
    }

    /** A token leaf's `indexOf(n)`: no node is among its children, so the answer is -1. */
    function IndexOf(p: nat, n: nat): (r: int)
      requires p < |nodes| && nodes[p].Leaf?
      reads this`nodes
      ensures r == -1 && n !in Children(p)
    {
      -1
    }

    /** `addChild(n)`: append `n` and make this node its parent; a token leaf refuses. */
    method AddChild(p: nat, n: nat) returns (st: Status)
      requires Valid() && p < |nodes| && n < |nodes|
      modifies this`nodes
      ensures Valid()
      ensures st == (if old(nodes[p]).Base? then Done else Unsupported)
      ensures st == Done ==> nodes == AddedChild(old(nodes), p, |old(nodes[p]).children|, n)
      ensures st == Done ==> nodes[p].children == old(nodes[p]).children + [n]
      ensures st == Unsupported ==> nodes == old(nodes)
    {
      if nodes[p].Leaf? {
        return Unsupported;
      }
      InsertAtEnd(nodes[p].children, n);
      AddedChildEffect(nodes, p, |nodes[p].children|, n);
      nodes := AddedChild(nodes, p, |nodes[p].children|, n);
      st := Done;
    }

    /** `addChild(i, n)`: insert `n` at `i`, shifting later children; a token leaf refuses. */
    method AddChildAt(p: nat, i: nat, n: nat) returns (st: Status)
      requires Valid() && p < |nodes| && n < |nodes|
      requires nodes[p].Base? ==> i <= |nodes[p].children|
      modifies this`nodes
      ensures Valid()
      ensures st == (if old(nodes[p]).Base? then Done else Unsupported)
      ensures st == Done ==> nodes == AddedChild(old(nodes), p, i, n)
      ensures st == Unsupported ==> nodes == old(nodes)
    {
      if nodes[p].Leaf? {
        return Unsupported;
      }
      AddedChildEffect(nodes, p, i, n);
      nodes := AddedChild(nodes, p, i, n);
      st := Done;
    }

    /** `setChild(i, n)`: replace child `i` by `n` and make this node its parent. */
    method SetChild(p: nat, i: nat, n: nat) returns (st: Status)
      requires Valid() && p < |nodes| && n < |nodes|
      requires nodes[p].Base? ==> i < |nodes[p].children|
      modifies this`nodes
      ensures Valid()
      ensures st == (if old(nodes[p]).Base? then Done else Unsupported)
      ensures st == Done ==> nodes == ReplacedChild(old(nodes), p, i, n)
      ensures st == Unsupported ==> nodes == old(nodes)
    {
      if nodes[p].Leaf? {
        return Unsupported;
      }
      ReplacedChildEffect(nodes, p, i, n);
      nodes := ReplacedChild(nodes, p, i, n);
      st := Done;
    }

    /** `removeChild(i)`: take out and return child `i`; a token leaf refuses. */
    method RemoveChild(p: nat, i: nat) returns (st: Status, removed: Option<nat>)
      requires Valid() && p < |nodes|
      requires nodes[p].Base? ==> i < |nodes[p].children|
      modifies this`nodes
      ensures Valid()
      ensures st == (if old(nodes[p]).Base? then Done else Unsupported)
      ensures st == Done ==> removed == Some(old(nodes[p]).children[i]) && nodes == RemovedChild(old(nodes), p, i)
      ensures st == Unsupported ==> removed.None? && nodes == old(nodes)
    {
      if nodes[p].Leaf? {
        return Unsupported, None;
      }
      removed := Some(nodes[p].children[i]);
      RemovedChildEffect(nodes, p, i);
      nodes := RemovedChild(nodes, p, i);
      st := Done;
    }

    /** `clearChildren`: a base node loses all its children (their parent links stay); on a
        token leaf it does nothing. */
    method ClearChildren(p: nat)
      requires Valid() && p < |nodes|
      modifies this`nodes
      ensures Valid() && p < |nodes| && GetChildCount(p) == 0
      ensures old(nodes[p]).Base? ==> nodes == old(nodes)[p := old(nodes[p]).(children := [])]
      ensures old(nodes[p]).Leaf? ==> nodes == old(nodes)
    {
      if nodes[p].Base? {
        nodes := nodes[p := nodes[p].(children := [])];
      }
    }

    function GetNamedChild(p: nat, name: string): (r: Option<nat>)
      requires p < |nodes| && nodes[p].Base?
      reads this`nodes
      ensures name !in nodes[p].named ==> r.None?
      ensures name in nodes[p].named ==> r == nodes[p].named[name]
    {
      NamedChild(nodes[p], name)
    }

    /** `setNamedChild(name, n)`: bind `name`, refusing a name that is already bound. */
    method SetNamedChild(p: nat, name: string, n: Option<nat>) returns (st: Status)
      requires Valid() && p < |nodes| && nodes[p].Base? && IdOk(nodes, n)
      modifies this`nodes
      ensures Valid()
      ensures st == (if name in old(nodes[p]).named then Duplicate else Done)
      ensures st == Duplicate ==> nodes == old(nodes)
      ensures st == Done ==> nodes == old(nodes)[p := old(nodes[p]).(named := old(nodes[p]).named[name := n])]
      ensures st == Done ==> GetNamedChild(p, name) == n
    {
      if name in nodes[p].named {
        return Duplicate;
      }
      nodes := nodes[p := nodes[p].(named := nodes[p].named[name := n])];
      st := Done;
    }

    function GetNamedChildList(p: nat, name: string): (r: Option<seq<Option<nat>>>)
      requires p < |nodes| && nodes[p].Base?
      reads this`nodes
      ensures r.Some? <==> name in nodes[p].lists
      ensures r.Some? ==> r.value == nodes[p].lists[name]
    {
      NamedChildList(nodes[p], name)
    }

    /** `addToNamedChildList(name, n)`: append `n` to the list kept under `name`. */
    method AddToNamedChildList(p: nat, name: string, n: Option<nat>)
      requires Valid() && p < |nodes| && nodes[p].Base? && IdOk(nodes, n)
      modifies this`nodes
      ensures Valid()
      ensures nodes == old(nodes)[p := WithListed(old(nodes[p]), name, n)]
      ensures GetNamedChildList(p, name) ==
        Some((if name in old(nodes[p]).lists then old(nodes[p]).lists[name] else []) + [n])
    {
      var list := if name in nodes[p].lists then nodes[p].lists[name] else [];
      list := list + [n];
      nodes := nodes[p := nodes[p].(lists := nodes[p].lists[name := list])];
    }

    /** `setTokenSource`: a base node's memo or a token's own source. */
    method SetTokenSource(p: nat, s: Option<Source>)
      requires Valid() && p < |nodes|
      modifies this`nodes
      ensures Valid()
      ensures nodes == old(nodes)[p := if old(nodes[p]).Base? then old(nodes[p]).(tokenSource := s)
                                       else old(nodes[p]).(source := s)]
    {
      if nodes[p].Base? {
        nodes := nodes[p := nodes[p].(tokenSource := s)];
      } else {
        nodes := nodes[p := nodes[p].(source := s)];
      }
    }

    /** `getTokenSource`: a token's own source; for a base node the memo if set, otherwise the
        first non-null source among the children in order, which is then memoised. Every base
        node visited on the way keeps what it found, and no answer changes by it. */
    method GetTokenSource(p: nat, ghost rank: seq<nat>) returns (r: Option<Source>)
      requires Ranked(nodes, rank) && p < |nodes|
      modifies this`nodes
      decreases rank[p]
      ensures Ranked(old(nodes), rank) && r == SourceOf(old(nodes), rank, p)
      ensures MemoOnly(old(nodes), nodes, rank)
      ensures nodes[p].Base? ==> nodes[p].tokenSource == r
      ensures old(nodes[p]).Leaf? || old(nodes[p]).tokenSource.Some? ==> nodes == old(nodes)
    {
      ghost var start := nodes;
      if nodes[p].Leaf? || nodes[p].tokenSource.Some? {
        r := if nodes[p].Leaf? then nodes[p].source else nodes[p].tokenSource;
        return;
      }
      var cs := nodes[p].children;
      var j := 0;
      r := None;
      while j < |cs| && r.None?
        invariant 0 <= j <= |cs|
        invariant Ranked(nodes, rank) && MemoOnly(start, nodes, rank)
        invariant nodes[p].Base? && nodes[p].children == cs && nodes[p].tokenSource == r
        invariant r.None? ==> FirstSource(start, rank, p, 0) == FirstSource(start, rank, p, j)
        invariant r.Some? ==> FirstSource(start, rank, p, 0) == r
        decreases |cs| - j
      {
        ghost var before := nodes;
        var s := GetTokenSource(cs[j], rank);
        MemoKeepsSource(start, before, rank, cs[j]);
        MemoOnlyTrans(start, before, nodes, rank);
        MemoOnlyRanked(start, nodes, rank);
        ghost var mid := nodes;
        nodes := nodes[p := nodes[p].(tokenSource := s)];
        assert s.Some? ==> s == SourceOf(start, rank, p);
        assert MemoOnly(start, nodes, rank) by {
          forall k | 0 <= k < |start|
            ensures Forget(start[k]) == Forget(nodes[k])
            ensures nodes[k] == start[k] || (start[k].Base? && start[k].tokenSource.None? && nodes[k].tokenSource == SourceOf(start, rank, k))
          {
            if k == p {
              assert Forget(mid[p]) == Forget(start[p]);
            }
          }
        }
        r := s;
        j := j + 1;
      }
    }
  }
}
