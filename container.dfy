/**
 * The leaf pane of the docking layout: an `ItemContainer` holds its pixel
 * size, a hidden flag, its component config, and a reference to the content
 * item above it. Events it emits to its subscribers and calls it makes on
 * nodes of the tree are recorded, in the order they happen, in `trace`.
 */
module Container {
  import opened Wrappers
  import opened Layout
  import opened Redistribution

  /** Events emitted to the container's own subscribers. */
  datatype Event = Hide | Show | Shown | Resize | Close

  /** A call made on a node of the layout tree. */
  datatype Request = Request(target: LayoutNode, call: Call)

  /** One observable effect of the container: an event emitted, or a call made on the tree. */
  datatype Effect = Emitted(event: Event) | Requested(request: Request)

  /** The component config the container is built from. */
  datatype ContainerConfig<S> = ContainerConfig(componentName: string, isClosable: bool, componentState: S)

  /** How `setSize` ends: it returns a boolean, or throws a TypeError. */
  datatype SetSizeOutcome = Returned(resized: bool) | Threw

  class ItemContainer<S> {
    /** Pixel size; null until the host first sizes the container. */
    var width: Option<int>
    var height: Option<int>
    var title: string
    const parent: LayoutNode
    var isHidden: bool
    var config: ContainerConfig<S>
    ghost var trace: seq<Effect>

    constructor (config: ContainerConfig<S>, parent: LayoutNode)
      ensures width == None && height == None
      ensures title == config.componentName
      ensures this.parent == parent && !isHidden && this.config == config
      ensures trace == []
    {
      width := None;
      height := None;
      title := config.componentName;
      this.parent := parent;
      isHidden := false;
      this.config := config;
      trace := [];
    }

    /** The container's size counts as usable unless both height and width are 0 (null is not 0). */
    predicate HasUsableSize()
      reads `width, `height
    {
      height != Some(0) || width != Some(0)
    }

    /** Emits `hide`, then marks the container hidden; no guard against a repeat. */
    method Hide()
      modifies `isHidden, `trace
      ensures isHidden
      ensures trace == old(trace) + [Emitted(Event.Hide)]
    {
      trace := trace + [Emitted(Event.Hide)];
      isHidden := true;
    }

    /** Emits `show`, marks the container visible, then emits `shown` if it has a usable size. */
    method Show()
      modifies `isHidden, `trace
      ensures !isHidden
      ensures trace == old(trace) + [Emitted(Event.Show)] + (if HasUsableSize() then [Emitted(Shown)] else [])
    {
      trace := trace + [Emitted(Event.Show)];
      isHidden := false;
      if height != Some(0) || width != Some(0) {
        trace := trace + [Emitted(Shown)];
      }
    }

    /**
     * Emits `close` and asks the parent to close, but only when the config
     * marks the container closable; otherwise does nothing.
     */
    method Close()
      modifies `trace
      ensures config.isClosable ==> trace == old(trace) + [Emitted(Event.Close), Requested(Request(parent, CloseItem))]
      ensures !config.isClosable ==> trace == old(trace)
    {
      if config.isClosable {
        trace := trace + [Emitted(Event.Close)];
        trace := trace + [Requested(Request(parent, CloseItem))];
      }
    }

    /** The component state last stored. */
    method GetState() returns (state: S)
      ensures state == config.componentState
    {
      state := config.componentState;
    }

    /** Replaces the component state and bubbles one `stateChanged` from the parent. */
    method SetState(state: S)
      modifies `config, `trace
      ensures config == old(config).(componentState := state)
      ensures trace == old(trace) + [Requested(Request(parent, Bubble("stateChanged")))]
    {
      config := config.(componentState := state);
      trace := trace + [Requested(Request(parent, Bubble("stateChanged")))];
    }

    /**
     * Merges `partial` into the current state and stores the result through
     * `SetState`. The deep merge is a library routine and is a parameter here.
     */
    method ExtendState(partial: S, merge: (S, S) -> S)
      modifies `config, `trace
      ensures config == old(config).(componentState := merge(old(config.componentState), partial))
      ensures trace == old(trace) + [Requested(Request(parent, Bubble("stateChanged")))]
    {
      var current := GetState();
      SetState(merge(current, partial));
    }

    /** Asks the parent to change the title; the container's own `title` is not updated. */
    method SetTitle(title: string)
      modifies `trace
      ensures trace == old(trace) + [Requested(Request(parent, Layout.SetTitle(title)))]
    {
      trace := trace + [Requested(Request(parent, Layout.SetTitle(title)))];
    }

    /**
     * `_$setSize`, the host-driven resize: does nothing when both dimensions are
     * unchanged; otherwise stores both and then emits exactly one `resize`.
     */
    method SetSizeFromHost(newWidth: int, newHeight: int)
      modifies `width, `height, `trace
      ensures width == Some(newWidth) && height == Some(newHeight)
      ensures trace == old(trace) +
                if old(width) == Some(newWidth) && old(height) == Some(newHeight) then [] else [Emitted(Event.Resize)]
    {
      if Some(newWidth) != width || Some(newHeight) != height {
        width := Some(newWidth);
        height := Some(newHeight);
        trace := trace + [Emitted(Event.Resize)];
      }
    }

    /** The container's own pixel size along an axis. */
    function OwnSize(a: Axis): Option<int>
      reads `width, `height
    {
      if a == Height then height else width
    }

    /**
     * The arithmetic of `setSize` is defined: when a row or column is found
     * above the container's parent, the container has a non-zero pixel size
     * along its axis (a zero share of the on-path child is defined: it stays 0).
     */
    ghost predicate ResizeDefined(anc: seq<LayoutNode>)
      reads this, anc
    {
      match FindRowOrColumn(KindsOf(anc))
      case FoundAt(k) =>
        k == 0 ||
        (var a := AxisOf(anc[k].kind); OwnSize(a).Some? && OwnSize(a).value != 0)
      case _ => true
    }

    /**
     * The upward search of `setSize`: from the parent, step to the next parent
     * until a row or column is found, giving up when the step lands on the
     * root. `child` is the node passed on the way (null for the container itself).
     */
    method WalkUp(ghost ancestors: seq<LayoutNode>)
      returns (walk: WalkOutcome, rowOrColumn: LayoutNode, child: LayoutNode?)
      requires IsParentChain(parent, ancestors)
      ensures walk == FindRowOrColumn(KindsOf(ancestors))
      ensures walk.FoundAt? ==>
                && rowOrColumn == ancestors[walk.index]
                && child == if walk.index == 0 then null else ancestors[walk.index - 1]
    {
      rowOrColumn := parent;
      child := null;
      ghost var kinds := KindsOf(ancestors);
      var k := 0;  // how far the search has climbed
      while !rowOrColumn.kind.IsRowOrColumn()
        invariant 0 <= k < |ancestors| && rowOrColumn == ancestors[k]
        invariant child == if k == 0 then null else ancestors[k - 1]
        invariant WalkFrom(kinds, k) == FindRowOrColumn(kinds)
        decreases |ancestors| - k
      {
        child := rowOrColumn;
        if rowOrColumn.parent == null {
          return Detached, rowOrColumn, child;
        }
        rowOrColumn := rowOrColumn.parent;
        k := k + 1;
        if rowOrColumn.kind == Root {
          return ReachedRoot, rowOrColumn, child;
        }
      }
      walk := FoundAt(k);
    }

    /**
     * Resizes the container from within by changing the shares of the children
     * of the nearest row or column above it. `ancestors` is the container's
     * parent followed by that node's ancestors.
     */
    method SetSize(newWidth: int, newHeight: int, ghost ancestors: seq<LayoutNode>)
      returns (r: SetSizeOutcome)
      requires IsParentChain(parent, ancestors) && IsOwnedChain(ancestors)
      requires ResizeDefined(ancestors)
      modifies ResizeFrame(ancestors)`config, `trace
      ensures r != Returned(true) ==> trace == old(trace)
      ensures r != Returned(true) ==>
                forall i, c :: 0 <= i < |ancestors| && c in old(ancestors[i].contentItems) ==> c.config == old(c.config)
      ensures match FindRowOrColumn(KindsOf(ancestors))
        case ReachedRoot => r == Returned(false)
        case Detached => r == Threw
        case FoundAt(k) =>
          if k == 0 then r == Threw
          else
            var rc, child := ancestors[k], ancestors[k - 1];
            var a := AxisOf(rc.kind);
            var items := old(rc.contentItems);
            var before := old(Shares(items, a));
            var idx := IndexOf(items, child);
            var newSize := if a == Height then newHeight else newWidth;
            && r == Returned(true)
            && rc.contentItems == items
            && Shares(items, a) == Redistribute(before, idx, NewShare(old(OwnSize(a)).value, before[idx], newSize))
            && Shares(items, Across(a)) == old(Shares(items, Across(a)))
            && trace == old(trace) + [Requested(Request(rc, CallDownwards("setSize")))]
    {
      var walk, rowOrColumn, child := WalkUp(ancestors);
      if walk == ReachedRoot {
        return Returned(false);
      } else if walk == Detached {
        return Threw;  // reads `isRoot` of a null parent
      } else if child == null {
        return Threw;  // the container itself has no `config` to read a share from
      }

      ghost var k := walk.index;
      assert FindRowOrColumn(KindsOf(ancestors)) == FoundAt(k) && k > 0;
      assert ancestors[k] == rowOrColumn && ancestors[k - 1] == child;
      assert forall c :: c in rowOrColumn.contentItems ==> c in ResizeFrame(ancestors);
      ResizeWithin(rowOrColumn, child, newWidth, newHeight);
      r := Returned(true);
    }

    /**
     * The second half of `setSize`, once `rowOrColumn` is found with `child` on
     * the path to the container: give `child` its new share along the
     * row's or column's axis, spread the difference over the other children,
     * then ask the row or column to resize its subtree.
     */
    method ResizeWithin(rowOrColumn: LayoutNode, child: LayoutNode, newWidth: int, newHeight: int)
      requires rowOrColumn.kind.IsRowOrColumn()
      requires child in rowOrColumn.contentItems && Distinct(rowOrColumn.contentItems)
      requires OwnSize(AxisOf(rowOrColumn.kind)).Some? && OwnSize(AxisOf(rowOrColumn.kind)).value != 0
      modifies (set c | c in rowOrColumn.contentItems)`config, `trace
      ensures
        var a := AxisOf(rowOrColumn.kind);
        var items := old(rowOrColumn.contentItems);
        var before := old(Shares(items, a));
        var idx := IndexOf(items, child);
        var newSize := if a == Height then newHeight else newWidth;
        && rowOrColumn.contentItems == items
        && Shares(items, a) == Redistribute(before, idx, NewShare(OwnSize(a).value, before[idx], newSize))
        && Shares(items, Across(a)) == old(Shares(items, Across(a)))
        && trace == old(trace) + [Requested(Request(rowOrColumn, CallDownwards("setSize")))]
    {
      var direction := AxisOf(rowOrColumn.kind);
      var newSize := if direction == Height then newHeight else newWidth;
      var oldShare := child.config.Get(direction);
      var percentage := NewShare(OwnSize(direction).value, oldShare, newSize);
      var items := rowOrColumn.contentItems;
      var n := |items|;
      var delta := if n > 1 then (oldShare - percentage) / (n - 1) as real else 0.0;
      ghost var idx := IndexOf(items, child);
      ghost var before, across := Shares(items, direction), Shares(items, Across(direction));
      assert oldShare == before[idx];
      RewriteShares(items, child, direction, percentage, delta, idx, before, across);
      ghost var after, acrossAfter := Shares(items, direction), Shares(items, Across(direction));
      assert forall j :: 0 <= j < n ==> after[j] == Redistribute(before, idx, percentage)[j];
      assert after == Redistribute(before, idx, percentage);
      assert forall j :: 0 <= j < n ==> acrossAfter[j] == across[j];
      assert acrossAfter == across;
      trace := trace + [Requested(Request(rowOrColumn, CallDownwards("setSize")))];
      assert Shares(items, direction) == after && Shares(items, Across(direction)) == across;
    }
  }
  /**
   * The loop of `setSize` over a row's or column's children: the on-path child
   * (at idx) gets `share` along axis `a`, every other child gains `delta`; the
   * other axis is left alone. `before` and `across` are the children's shares
   * along and across `a` on entry.
   */
  method RewriteShares(items: seq<LayoutNode>, child: LayoutNode, a: Axis, share: real, delta: real,
                       ghost idx: nat, ghost before: seq<real>, ghost across: seq<real>)
    requires Distinct(items) && idx < |items| && items[idx] == child
    requires |before| == |across| == |items|
    requires forall j :: 0 <= j < |items| ==> items[j].config.Get(a) == before[j]
    requires forall j :: 0 <= j < |items| ==> items[j].config.Get(Across(a)) == across[j]
    requires delta == Delta(before, idx, share)
    modifies items`config
    ensures forall j :: 0 <= j < |items| ==> items[j].config.Get(a) == Redistribute(before, idx, share)[j]
    ensures forall j :: 0 <= j < |items| ==> items[j].config.Get(Across(a)) == across[j]
    ensures forall j :: 0 <= j < |items| ==> items[j].contentItems == old(items[j].contentItems)
  {
    ghost var expected := Redistribute(before, idx, share);
    for i := 0 to |items|
      invariant forall j :: 0 <= j < i ==> items[j].config.Get(a) == expected[j]
      invariant forall j :: i <= j < |items| ==> items[j].config.Get(a) == before[j]
      invariant forall j :: 0 <= j < |items| ==> items[j].config.Get(Across(a)) == across[j]
      invariant forall j :: 0 <= j < |items| ==> items[j].contentItems == old(items[j].contentItems)
    {
      var item := items[i];
      assert forall j :: 0 <= j < |items| && j != i ==> items[j] != item;
      var value := if item == child then share else item.config.Get(a) + delta;
      item.config := item.config.With(a, value);
    }
  }

  /** A second host resize to the same size emits nothing more. */
  method SetSizeFromHostTwice<S>(c: ItemContainer<S>, w: int, h: int)
    modifies c`width, c`height, c`trace
    ensures c.width == Some(w) && c.height == Some(h)
    ensures c.trace == old(c.trace) +
              if old(c.width) == Some(w) && old(c.height) == Some(h) then [] else [Emitted(Event.Resize)]
  {
    c.SetSizeFromHost(w, h);
    c.SetSizeFromHost(w, h);
  }

  /** Hiding and then showing leaves the container visible and emits hide, show, then maybe shown. */
  method HideThenShow<S>(c: ItemContainer<S>)
    modifies c`isHidden, c`trace
    ensures !c.isHidden
    ensures c.trace == old(c.trace) + [Emitted(Event.Hide), Emitted(Event.Show)] + (if c.HasUsableSize() then [Emitted(Shown)] else [])
  {
    c.Hide();
    c.Show();
  }

  /**
   * `setSize` rewrites only the children's configs: afterwards the container
   * sits in the same chain of nodes, which can be resized again.
   */
  method SetSizeKeepsChain<S>(c: ItemContainer<S>, w: int, h: int, ghost ancestors: seq<LayoutNode>)
    returns (r: SetSizeOutcome)
    requires IsParentChain(c.parent, ancestors) && IsOwnedChain(ancestors)
    requires c.ResizeDefined(ancestors)
    modifies ResizeFrame(ancestors)`config, c`trace
    ensures IsParentChain(c.parent, ancestors) && IsOwnedChain(ancestors)
    ensures c.ResizeDefined(ancestors)
  {
    r := c.SetSize(w, h, ancestors);
  }
}
