/**
 * The part of the layout tree an `ItemContainer` talks to: content items with
 * a kind (row, column, root or anything else), a parent pointer, ordered
 * children and a config holding their width and height shares in percent.
 * The tree itself is an external collaborator; calls the container makes on
 * it are recorded, not executed.
 */
module Layout {

  datatype NodeKind = Row | Column | Root | Other {
    predicate IsRowOrColumn() { this == Row || this == Column }
  }

  /** The config key a resize acts on: "width" or "height". */
  datatype Axis = Width | Height

  /** A column resizes its children vertically, anything else horizontally. */
  function AxisOf(kind: NodeKind): Axis
  {
    if kind == Column then Height else Width
  }

  function Across(a: Axis): Axis
  {
    if a == Width then Height else Width
  }

  /** The size keys of a content item's config, as percentage shares. */
  datatype ItemConfig = ItemConfig(width: real, height: real) {
    function Get(a: Axis): real
    {
      match a
      case Width => width
      case Height => height
    }

    function With(a: Axis, v: real): (c: ItemConfig)
      ensures c.Get(a) == v && c.Get(Across(a)) == Get(Across(a))
    {
      match a
      case Width => this.(width := v)
      case Height => this.(height := v)
    }
  }

  /** A call a container makes on a node of the tree; the node's behaviour is not modelled. */
  datatype Call =
    | CloseItem                 // parent.close()
    | SetTitle(title: string)   // parent.setTitle(title)
    | Bubble(event: string)     // parent.emitBubblingEvent(event)
    | CallDownwards(name: string)

  class LayoutNode {
    const kind: NodeKind
    var parent: LayoutNode?
    var contentItems: seq<LayoutNode>
    var config: ItemConfig

    constructor (kind: NodeKind, config: ItemConfig)
      ensures this.kind == kind && this.config == config
      ensures parent == null && contentItems == []
    {
      this.kind := kind;
      this.config := config;
      parent := null;
      contentItems := [];
    }
  }

  /** How the upward search for a row or column ends. */
  datatype WalkOutcome =
    | FoundAt(index: nat)   // the ancestor at this index is the row or column
    | ReachedRoot           // `setSize` returns false
    | Detached              // stepped past a node whose parent is null

  /**
   * The search loop of `setSize`, standing on the ancestor at index k: stop at
   * a row or column; otherwise step to the parent, and stop if that is the
   * root. The node the search starts on is never tested for being the root.
   */
  function WalkFrom(kinds: seq<NodeKind>, k: nat): (r: WalkOutcome)
    requires k < |kinds|
    ensures r.FoundAt? ==> k <= r.index < |kinds| && kinds[r.index].IsRowOrColumn()
    decreases |kinds| - k
  {
    if kinds[k].IsRowOrColumn() then FoundAt(k)
    else if k + 1 == |kinds| then Detached
    else if kinds[k + 1] == Root then ReachedRoot
    else WalkFrom(kinds, k + 1)
  }

  /** The search started on the container's parent, kinds[0]. */
  function FindRowOrColumn(kinds: seq<NodeKind>): (r: WalkOutcome)
    ensures r.FoundAt? ==> r.index < |kinds| && kinds[r.index].IsRowOrColumn()
  {
    if kinds == [] then Detached else WalkFrom(kinds, 0)
  }

  /**
   * The search passes every ancestor from index k up to, not including, m: none
   * is a row or column, and none but the first is the root.
   */
  ghost predicate PassesBetween(kinds: seq<NodeKind>, k: nat, m: nat)
    requires m <= |kinds|
  {
    forall j :: k <= j < m ==> !kinds[j].IsRowOrColumn() && (j == k || kinds[j] != Root)
  }

  lemma {:induction false} WalkFromFound(kinds: seq<NodeKind>, k: nat, m: nat)
    requires k < |kinds|
    ensures WalkFrom(kinds, k) == FoundAt(m)
            <==> k <= m < |kinds| && PassesBetween(kinds, k, m) && kinds[m].IsRowOrColumn()
    decreases |kinds| - k
  {
    if !kinds[k].IsRowOrColumn() && k + 1 < |kinds| && kinds[k + 1] != Root {
      WalkFromFound(kinds, k + 1, m);
    }
  }

  lemma {:induction false} WalkFromRoot(kinds: seq<NodeKind>, k: nat)
    requires k < |kinds|
    ensures WalkFrom(kinds, k) == ReachedRoot
            <==> exists r :: k < r < |kinds| && PassesBetween(kinds, k, r) && kinds[r] == Root
    decreases |kinds| - k
  {
    if kinds[k].IsRowOrColumn() || k + 1 == |kinds| {
    } else if kinds[k + 1] == Root {
      assert PassesBetween(kinds, k, k + 1);
    } else {
      WalkFromRoot(kinds, k + 1);
      if exists r :: k < r < |kinds| && PassesBetween(kinds, k, r) && kinds[r] == Root {
        var r :| k < r < |kinds| && PassesBetween(kinds, k, r) && kinds[r] == Root;
        assert PassesBetween(kinds, k + 1, r);
      }
      if WalkFrom(kinds, k + 1) == ReachedRoot {
        var r :| k + 1 < r < |kinds| && PassesBetween(kinds, k + 1, r) && kinds[r] == Root;
        assert PassesBetween(kinds, k, r);
      }
    }
  }

  lemma {:induction false} WalkFromDetached(kinds: seq<NodeKind>, k: nat)
    requires k < |kinds|
    ensures WalkFrom(kinds, k) == Detached <==> PassesBetween(kinds, k, |kinds|)
    decreases |kinds| - k
  {
    if kinds[k].IsRowOrColumn() || k + 1 == |kinds| {
    } else if kinds[k + 1] == Root {
    } else {
      WalkFromDetached(kinds, k + 1);
    }
  }

  /**
   * `setSize` resizes along the ancestor at m exactly when m is the first row or
   * column above the container and no root lies strictly between them.
   */
  lemma FindRowOrColumnFound(kinds: seq<NodeKind>, m: nat)
    ensures FindRowOrColumn(kinds) == FoundAt(m)
            <==> m < |kinds| && PassesBetween(kinds, 0, m) && kinds[m].IsRowOrColumn()
  {
    if kinds != [] {
      WalkFromFound(kinds, 0, m);
    }
  }

  /**
   * `setSize` returns false exactly when, stepping up past the parent, it meets
   * the root before any row or column.
   */
  lemma FindRowOrColumnRoot(kinds: seq<NodeKind>)
    ensures FindRowOrColumn(kinds) == ReachedRoot
            <==> exists r :: 0 < r < |kinds| && PassesBetween(kinds, 0, r) && kinds[r] == Root
  {
    if kinds != [] {
      WalkFromRoot(kinds, 0);
    }
  }

  /** The search runs off the top exactly when the whole chain passes. */
  lemma FindRowOrColumnDetached(kinds: seq<NodeKind>)
    ensures FindRowOrColumn(kinds) == Detached <==> PassesBetween(kinds, 0, |kinds|)
  {
    if kinds != [] {
      WalkFromDetached(kinds, 0);
    }
  }

  /** The kinds of a chain of nodes. */
  function KindsOf(nodes: seq<LayoutNode>): (r: seq<NodeKind>)
    ensures |r| == |nodes| && forall i {:trigger r[i]} :: 0 <= i < |nodes| ==> r[i] == nodes[i].kind
  {
    seq(|nodes|, i requires 0 <= i < |nodes| => nodes[i].kind)
  }

  /** `anc` lists `start` and then its ancestors, following parent pointers to a null. */
  ghost predicate IsParentChain(start: LayoutNode, anc: seq<LayoutNode>)
    reads anc
  {
    && anc != []
    && anc[0] == start
    && (forall i :: 0 <= i < |anc| - 1 ==> anc[i].parent == anc[i + 1])
    && anc[|anc| - 1].parent == null
  }

  ghost predicate Distinct(items: seq<LayoutNode>)
  {
    forall a, b :: 0 <= a < b < |items| ==> items[a] != items[b]
  }

  /** Each node of the chain is among its parent's children, which are distinct. */
  ghost predicate IsOwnedChain(anc: seq<LayoutNode>)
    reads anc
  {
    && (forall i :: 0 <= i < |anc| - 1 ==> anc[i] in anc[i + 1].contentItems)
    && (forall i :: 0 <= i < |anc| ==> Distinct(anc[i].contentItems))
  }

  /** The shares of `items` along `a`, in order. */
  ghost function Shares(items: seq<LayoutNode>, a: Axis): (r: seq<real>)
    reads items
    ensures |r| == |items| && forall i {:trigger r[i]} :: 0 <= i < |items| ==> r[i] == items[i].config.Get(a)
  {
    seq(|items|, j requires 0 <= j < |items| reads items => items[j].config.Get(a))
  }

  function IndexOf(items: seq<LayoutNode>, x: LayoutNode): (i: nat)
    requires x in items
    ensures i < |items| && items[i] == x
  {
    if items[0] == x then 0 else 1 + IndexOf(items[1..], x)
  }

  /** The nodes whose config `setSize` may rewrite: the children of the row or column it finds. */
  ghost function ResizeFrame(anc: seq<LayoutNode>): set<LayoutNode>
    reads anc
  {
    match FindRowOrColumn(KindsOf(anc))
    case FoundAt(k) => if k == 0 then {} else set c | c in anc[k].contentItems
    case _ => {}
  }
}
