/**
 The mutable range-state tree. Nodes are slots of two fixed pools; a slot is either in the tree or on
 one of two intrusive free lists that reuse its address word. Every operation is proved against the
 value-level tree of module RangeTree.
 */
module MemoryStates {
  import opened Pages
  import opened RangeTree
  import TagShape

  const INITIAL_ENTRIES: nat := 4096

  // The one machine word of a leaf slot: a free-list link, or an address whose low bits hold the state.
  datatype NodeWord = Link(next: Node?) | Tagged(address: nat, state: RangeState)

  class Node {
    // Only slots of the branch pool have room for the fields below the address word.
    const wide: bool
    var word: NodeWord
    var left: Node?
    var right: Node?
    var remaining: nat
    var largest: nat

    constructor (wide: bool)
      ensures this.wide == wide && word == Tagged(0, Free)
    {
      this.wide := wide;
      word := Tagged(0, Free);
      left, right, remaining, largest := null, null, 0, 0;
    }

    // Overwrites the whole word, so the state bits become Free.
    method SetAddress(a: nat)
      modifies this`word
      ensures word == Tagged(PageMask(a), Free)
    {
      word := Tagged(PageMask(a), Free);
    }

    method SetState(s: RangeState)
      requires word.Tagged?
      modifies this`word
      ensures word == old(word).(state := s)
    {
      word := word.(state := s);
    }
  }

  // Which slot represents which part of the tree.
  datatype Placed =
    | AtLeaf(node: Node, state: RangeState)
    | AtFork(node: Node, mid: nat, left: Placed, right: Placed)

  ghost function Shape(p: Placed): Tree {
    match p
    case AtLeaf(_, s) => Leaf(s)
    case AtFork(_, mid, l, r) => Fork(mid, Shape(l), Shape(r))
  }

  ghost function Nodes(p: Placed): set<Node> {
    match p
    case AtLeaf(n, _) => {n}
    case AtFork(n, _, l, r) => {n} + Nodes(l) + Nodes(r)
  }

  // The slots of p hold exactly the tree Shape(p) over [lo, hi), with correct cached measures.
  ghost predicate Holds(p: Placed, lo: nat, hi: nat)
    reads Nodes(p)
  {
    match p
    case AtLeaf(n, s) => n.word == Tagged(hi, s)
    case AtFork(n, mid, l, r) =>
      && n.wide && n.word == Tagged(mid, Branch)
      && n.left == l.node && n.right == r.node
      && n.largest == LargestFree(Shape(p), lo, hi)
      && n.remaining == RemainingFree(Shape(p), lo, hi)
      && n !in Nodes(l) && n !in Nodes(r) && Nodes(l) !! Nodes(r)
      && Holds(l, lo, mid) && Holds(r, mid, hi)
  }

  // The state bits of a slot tell what it represents.
  lemma LeafOrFork(p: Placed, lo: nat, hi: nat)
    requires Holds(p, lo, hi) && Spans(Shape(p), lo, hi)
    ensures p.node in Nodes(p) && p.node.word.Tagged?
    ensures p.AtFork? <==> p.node.word.state == Branch
    ensures p.AtFork? ==> Shape(p).Fork? && p.node.word.address == p.mid
    ensures p.AtLeaf? ==> Shape(p) == Leaf(p.node.word.state) && Nodes(p) == {p.node} && p.node.word.address == hi
  {
  }

  lemma {:induction false} NodesAllocated(p: Placed)
    ensures forall n :: n in Nodes(p) ==> allocated(n)
  {
    if p.AtFork? {
      NodesAllocated(p.left);
      NodesAllocated(p.right);
    }
  }

  // head starts an intrusive list through exactly the slots s.
  ghost predicate Chain(head: Node?, s: seq<Node>)
    reads s
  {
    if s == [] then head == null
    else
      && head == s[0] && s[0] !in s[1..] && s[0].word.Link? && Chain(s[0].word.next, s[1..])
  }

  ghost function Elems(s: seq<Node>): set<Node> {
    set n | n in s
  }

  // Fills one of the two entry tables, linking the slots from the last to the first.
  method LinkEntries(wide: bool) returns (head: Node?, ghost list: seq<Node>)
    ensures Chain(head, list) && |list| == INITIAL_ENTRIES
    ensures forall n :: n in list ==> fresh(n) && n.wide == wide
  {
    head, list := null, [];
    var i := INITIAL_ENTRIES;
    while i > 0
      invariant 0 <= i <= INITIAL_ENTRIES && |list| == INITIAL_ENTRIES - i
      invariant Chain(head, list)
      invariant forall n :: n in list ==> fresh(n) && n.wide == wide
    {
      i := i - 1;
      var entry := new Node(wide);
      entry.word := Link(head);
      assert Chain(head, list);
      list := [entry] + list;
      head := entry;
    }
  }

  class MemoryState {
    var root: Node?
    var leafHead: Node?
    var branchHead: Node?
    var highest: nat
    var usedBranches: int
    var usedLeaves: int

    ghost var placed: Placed
    ghost var leafFree: seq<Node>
    ghost var branchFree: seq<Node>
    ghost var slots: set<Node>

    ghost predicate Pools()
      reads this`leafHead, this`leafFree, this`branchHead, this`branchFree, leafFree, branchFree
    {
      && Chain(leafHead, leafFree) && Chain(branchHead, branchFree)
      && Elems(leafFree) !! Elems(branchFree)
      && forall n :: n in branchFree ==> n.wide
    }

    ghost predicate Apart(p: Placed)
      reads this`leafFree, this`branchFree
    {
      Nodes(p) !! Elems(leafFree) && Nodes(p) !! Elems(branchFree)
    }

    ghost function Slots(p: Placed): set<Node>
      reads this`leafFree, this`branchFree
    {
      Nodes(p) + Elems(leafFree) + Elems(branchFree)
    }

    // Every slot is in exactly one place: the tree p, the leaf list or the branch list. The root leaf comes
    // from the branch pool, which is why the branch counter stays one ahead of the leaf counter.
    ghost predicate Keeps(p: Placed)
      reads this`highest, this`slots, slots
      reads this`leafHead, this`leafFree, this`usedLeaves, this`branchHead, this`branchFree, this`usedBranches
    {
      && Apart(p) && slots == Slots(p)
      && 0 < highest <= PAGE_MASK
      && Pools() && Holds(p, 0, highest)
      && Spans(Shape(p), 0, highest) && Canonical(Shape(p))
      && usedLeaves == Leaves(Shape(p)) - 1 && usedBranches == usedLeaves + 1
      && |leafFree| + usedLeaves == INITIAL_ENTRIES
      && |branchFree| + usedBranches == INITIAL_ENTRIES
    }

    ghost predicate Valid()
      reads this, slots
    {
      root == placed.node && Keeps(placed)
    }

    ghost function Tree(): Tree
      reads this
    {
      Shape(placed)
    }

    // Init
    constructor (highestAddress: nat)
      requires 0 < highestAddress <= PAGE_MASK && Aligned(highestAddress)
      ensures Valid() && fresh(slots)
      ensures Tree() == Leaf(Free) && highest == highestAddress
      ensures |leafFree| == INITIAL_ENTRIES && |branchFree| == INITIAL_ENTRIES - 1
    {
      var leaves, leafList := LinkEntries(false);
      var branches, branchList := LinkEntries(true);
      root, leafHead, branchHead := null, leaves, branches;
      highest, usedBranches, usedLeaves := highestAddress, 0, 0;
      leafFree, branchFree, slots := leafList, branchList, {};
      placed := AtLeaf(branchList[0], Free);
      new;
      assert forall n :: n in branchFree ==> fresh(n);
      SetRootToFirstEntry();
    }

    method SetRootToFirstEntry()
      requires Pools() && |leafFree| == |branchFree| == INITIAL_ENTRIES
      requires usedBranches == usedLeaves == 0
      requires 0 < highest <= PAGE_MASK && Aligned(highest)
      modifies this, Elems(branchFree)
      ensures Valid() && slots == old(Elems(leafFree) + Elems(branchFree))
      ensures Tree() == Leaf(Free) && highest == old(highest)
      ensures |leafFree| == INITIAL_ENTRIES && |branchFree| == INITIAL_ENTRIES - 1
    {
      var first := GetFreeBranchState();
      first.SetAddress(highest);
      first.SetState(Free);
      MaskIdentity(highest);
      root := first;
      placed := AtLeaf(first, Free);
      slots := Slots(placed);
    }

    // ---------------------------------------------------------------------
    // Free lists

    method GetFreeBranchState() returns (result: Node)
      requires Pools() && branchFree != []
      modifies this`branchHead, this`branchFree, this`usedBranches
      ensures Pools()
      ensures result == old(branchFree)[0] && branchFree == old(branchFree)[1..]
      ensures Elems(branchFree) == old(Elems(branchFree)) - {result}
      ensures result in old(Elems(branchFree))
      ensures usedBranches == old(usedBranches) + 1
    {
      result := branchHead;
      assert branchFree == [result] + branchFree[1..];
      branchHead := branchHead.word.next;
      branchFree := branchFree[1..];
      usedBranches := usedBranches + 1;
    }

    method GetFreeLeafState() returns (result: Node)
      requires Pools() && leafFree != []
      modifies this`leafHead, this`leafFree, this`usedLeaves
      ensures Pools()
      ensures result == old(leafFree)[0] && leafFree == old(leafFree)[1..]
      ensures Elems(leafFree) == old(Elems(leafFree)) - {result}
      ensures result in old(Elems(leafFree))
      ensures usedLeaves == old(usedLeaves) + 1
    {
      result := leafHead;
      assert leafFree == [result] + leafFree[1..];
      leafHead := leafHead.word.next;
      leafFree := leafFree[1..];
      usedLeaves := usedLeaves + 1;
    }

    method FreeStateBranch(node: Node)
      requires Pools() && node !in Elems(leafFree) && node !in Elems(branchFree) && node.wide
      modifies node, this`branchHead, this`branchFree, this`usedBranches
      ensures Pools()
      ensures branchFree == [node] + old(branchFree) && Elems(branchFree) == old(Elems(branchFree)) + {node}
      ensures usedBranches == old(usedBranches) - 1
    {
      node.word := Tagged(0, Free);
      node.left, node.right, node.remaining, node.largest := null, null, 0, 0;
      node.word := Link(branchHead);
      branchHead := node;
      branchFree := [node] + branchFree;
      usedBranches := usedBranches - 1;
      assert branchFree[1..] == old(branchFree);
    }

    // Clears and relinks one word only: leaf slots have no more.
    method FreeLeafState(node: Node)
      requires Pools() && node !in Elems(leafFree) && node !in Elems(branchFree)
      modifies node`word, this`leafHead, this`leafFree, this`usedLeaves
      ensures Pools()
      ensures leafFree == [node] + old(leafFree) && Elems(leafFree) == old(Elems(leafFree)) + {node}
      ensures usedLeaves == old(usedLeaves) - 1
    {
      node.word := Tagged(0, Free);
      node.word := Link(leafHead);
      leafHead := node;
      leafFree := [node] + leafFree;
      usedLeaves := usedLeaves - 1;
      assert leafFree[1..] == old(leafFree);
    }

    // ---------------------------------------------------------------------
    // Tagging. Each `assert` below whose comment quotes a message is a runtime assertion of the kernel.

    function GetRemaining(node: Node, lo: nat, hi: nat, ghost p: Placed): (remaining: nat)
      requires p.node == node && Holds(p, lo, hi) && Spans(Shape(p), lo, hi)
      reads Nodes(p)
      ensures remaining == RemainingFree(Shape(p), lo, hi)
    {
      SpansOrder(Shape(p), lo, hi);
      if node.word.state == Branch then node.remaining
      else if node.word.state == Free then
        assert hi - lo > 0; // "Found empty node"
        hi - lo
      else 0
    }

    function GetLargestFree(node: Node, lo: nat, hi: nat, ghost p: Placed): (largest: nat)
      requires p.node == node && Holds(p, lo, hi) && Spans(Shape(p), lo, hi)
      reads Nodes(p)
      ensures largest == LargestFree(Shape(p), lo, hi)
    {
      SpansOrder(Shape(p), lo, hi);
      if node.word.state == Branch then node.largest
      else if node.word.state == Free then
        assert hi - lo > 0; // "Found empty node"
        hi - lo
      else 0
    }

    // What a tagging step promises about pools, counters and slots, in terms of the tree it replaces.
    twostate predicate Conserves(p: Placed, new q: Placed)
      reads this
    {
      && Slots(q) == old(Slots(p))
      && |leafFree| + Leaves(Shape(q)) == old(|leafFree|) + Leaves(Shape(p))
      && |branchFree| + Leaves(Shape(q)) == old(|branchFree|) + Leaves(Shape(p))
      && usedLeaves + |leafFree| == old(usedLeaves + |leafFree|)
      && usedBranches + |branchFree| == old(usedBranches + |branchFree|)
    }

    // A fork conserves what its retagged child conserves.
    twostate lemma ForkConserves(p: Placed, new q: Placed)
      requires p.AtFork? && q.AtFork? && q.node == p.node
      requires (q.right == p.right && Conserves(p.left, q.left)) || (q.left == p.left && Conserves(p.right, q.right))
      ensures Conserves(p, q)
    {
    }

    // p is a fork whose children are in place; its own caches may be stale.
    ghost predicate ChildrenHold(p: Placed, lo: nat, hi: nat)
      reads Nodes(p)
    {
      && p.AtFork? && p.node.wide && p.node.word == Tagged(p.mid, Branch)
      && p.node.left == p.left.node && p.node.right == p.right.node
      && p.node !in Nodes(p.left) && p.node !in Nodes(p.right) && Nodes(p.left) !! Nodes(p.right)
      && Holds(p.left, lo, p.mid) && Holds(p.right, p.mid, hi)
      && Spans(Shape(p), lo, hi)
    }

    // Replaces a fork over two equal leaves by one fresh leaf.
    method MergeChildren(node: Node, left: Node, right: Node, hi: nat) returns (result: Node)
      requires Pools() && leafFree != [] && node.wide
      requires node != left && node != right && left != right && left.word.Tagged?
      requires {node, left, right} !! Elems(leafFree) && {node, left, right} !! Elems(branchFree)
      requires Aligned(hi) && hi <= PAGE_MASK
      modifies node, left`word, right`word, Elems(leafFree)
      modifies this`leafHead, this`leafFree, this`usedLeaves, this`branchHead, this`branchFree, this`usedBranches
      ensures Pools() && result.word == Tagged(hi, old(left.word.state))
      ensures result in old(Elems(leafFree)) && branchFree == [node] + old(branchFree)
      ensures leafFree == [right, left] + old(leafFree)[1..]
      ensures Elems(leafFree) == old(Elems(leafFree)) - {result} + {left, right}
      ensures Elems(branchFree) == old(Elems(branchFree)) + {node}
      ensures usedLeaves == old(usedLeaves) - 1 && usedBranches == old(usedBranches) - 1
    {
      result := MakeLeaf(hi, left.word.state);
      FreeStateBranch(node);
      FreeLeafState(left);
      FreeLeafState(right);
    }

    // Recomputes the caches of a fork from its children.
    method RefreshCaches(node: Node, lo: nat, hi: nat, ghost p: Placed)
      requires p.node == node && ChildrenHold(p, lo, hi)
      modifies node`largest, node`remaining
      ensures Holds(p, lo, hi)
    {
      var mid := node.word.address;
      var largestLeft := GetLargestFree(node.left, lo, mid, p.left);
      var largestRight := GetLargestFree(node.right, mid, hi, p.right);
      SpansOrder(Shape(p), lo, hi);
      assert hi - lo > 0; // "Encountered empty block"
      var remainingLeft := GetRemaining(node.left, lo, mid, p.left);
      var remainingRight := GetRemaining(node.right, mid, hi, p.right);
      node.largest := if largestLeft > largestRight then largestLeft else largestRight;
      node.remaining := remainingLeft + remainingRight;
      assert Holds(p.left, lo, p.mid) && Holds(p.right, p.mid, hi);
    }

    method UpdateNode(node: Node, lo: nat, hi: nat, ghost p: Placed) returns (result: Node, ghost q: Placed)
      requires p.node == node && ChildrenHold(p, lo, hi) && hi <= PAGE_MASK
      requires Pools() && Apart(p) && leafFree != []
      modifies Nodes(p), Elems(leafFree)
      modifies this`leafHead, this`leafFree, this`usedLeaves, this`branchHead, this`branchFree, this`usedBranches
      ensures Pools() && Apart(q) && q.node == result && Holds(q, lo, hi)
      ensures Shape(q) == Merge(p.mid, Shape(p.left), Shape(p.right))
      ensures q.AtFork? ==> result == node
      ensures Conserves(p, q)
    {
      LeafOrFork(p.left, lo, p.mid);
      LeafOrFork(p.right, p.mid, hi);
      if node.right.word.state != Branch && node.left.word.state == node.right.word.state {
        q := AtLeaf(node, node.left.word.state);
        result := MergeChildren(node, node.left, node.right, hi);
        q := AtLeaf(result, q.state);
      } else {
        RefreshCaches(node, lo, hi, p);
        result, q := node, p;
      }
    }

    method TagRangeInternal(current: Node, low: nat, high: nat, state: RangeState, outerLow: nat, outerHigh: nat,
                            ghost p: Placed)
      returns (result: Node, ghost q: Placed)
      requires p.node == current && Holds(p, outerLow, outerHigh)
      requires Spans(Shape(p), outerLow, outerHigh) && outerHigh <= PAGE_MASK
      requires Request(outerLow, outerHigh, low, high, state)
      requires Pools() && Apart(p)
      requires |leafFree| > NewEnds(outerLow, outerHigh, low, high)
      requires |branchFree| >= NewEnds(outerLow, outerHigh, low, high)
      modifies Nodes(p), Elems(leafFree), Elems(branchFree)
      modifies this`leafHead, this`leafFree, this`usedLeaves, this`branchHead, this`branchFree, this`usedBranches
      ensures Pools() && Apart(q) && q.node == result && Holds(q, outerLow, outerHigh)
      ensures Shape(q) == Tag(Shape(p), outerLow, outerHigh, low, high, state)
      ensures Conserves(p, q)
      decreases Leaves(Shape(p)), NewEnds(outerLow, outerHigh, low, high), 2
    {
      assert outerHigh - outerLow > 0; // "About to create an empty block"
      assert outerLow <= low && high <= outerHigh; // "Requested address is out of range"
      LeafOrFork(p, outerLow, outerHigh);
      if current.word.state == Branch {
        result, q := TagBranch(current, low, high, state, outerLow, outerHigh, p);
      } else {
        result, q := TagLeaf(current, low, high, state, outerLow, outerHigh, p);
      }
    }

    method TagBranch(current: Node, low: nat, high: nat, state: RangeState, outerLow: nat, outerHigh: nat,
                     ghost p: Placed)
      returns (result: Node, ghost q: Placed)
      requires p.AtFork?
      requires p.node == current && Holds(p, outerLow, outerHigh)
      requires Spans(Shape(p), outerLow, outerHigh) && outerHigh <= PAGE_MASK
      requires Request(outerLow, outerHigh, low, high, state)
      requires Pools() && Apart(p)
      requires |leafFree| > NewEnds(outerLow, outerHigh, low, high)
      requires |branchFree| >= NewEnds(outerLow, outerHigh, low, high)
      modifies Nodes(p), Elems(leafFree), Elems(branchFree)
      modifies this`leafHead, this`leafFree, this`usedLeaves, this`branchHead, this`branchFree, this`usedBranches
      ensures Pools() && Apart(q) && q.node == result && Holds(q, outerLow, outerHigh)
      ensures Shape(q) == Tag(Shape(p), outerLow, outerHigh, low, high, state)
      ensures Conserves(p, q)
      decreases Leaves(Shape(p)), NewEnds(outerLow, outerHigh, low, high), 0
    {
      var address := current.word.address;
      SpansOrder(Shape(p.left), outerLow, address);
      SpansOrder(Shape(p.right), address, outerHigh);
      assert outerLow <= address < outerHigh; // "Requested address is out of range"
      ghost var mixed := p;
      if low < address && high <= address {
        mixed := TagLeftChild(current, low, high, state, outerLow, outerHigh, mixed);
      } else if low >= address {
        mixed := TagRightChild(current, low, high, state, outerLow, outerHigh, mixed);
      } else {
        mixed := TagLeftChild(current, low, address, state, outerLow, outerHigh, mixed);
        mixed := TagRightChild(current, address, high, state, outerLow, outerHigh, mixed);
      }
      result, q := UpdateNode(current, outerLow, outerHigh, mixed);
    }

    // Hangs a retagged subtree below a fork.
    method SetLeft(node: Node, child: Node, lo: nat, hi: nat, ghost p: Placed, ghost c: Placed)
      returns (ghost q: Placed)
      requires p.AtFork? && p.node == node && node.wide && node.word == Tagged(p.mid, Branch)
      requires node.right == p.right.node && node !in Nodes(p.right)
      requires Holds(p.right, p.mid, hi) && Spans(Shape(p.right), p.mid, hi)
      requires c.node == child && Holds(c, lo, p.mid) && Spans(Shape(c), lo, p.mid)
      requires node !in Nodes(c) && Nodes(c) !! Nodes(p.right) && lo < hi
      requires Pools() && Apart(p.right) && Apart(c) && node !in Elems(leafFree) && node !in Elems(branchFree)
      modifies node`left
      ensures q == AtFork(node, p.mid, c, p.right) && ChildrenHold(q, lo, hi) && Pools() && Apart(q)
    {
      node.left := child;
      q := AtFork(node, p.mid, c, p.right);
      assert Holds(p.right, p.mid, hi) && Holds(c, lo, p.mid);
    }

    method SetRight(node: Node, child: Node, lo: nat, hi: nat, ghost p: Placed, ghost c: Placed)
      returns (ghost q: Placed)
      requires p.AtFork? && p.node == node && node.wide && node.word == Tagged(p.mid, Branch)
      requires node.left == p.left.node && node !in Nodes(p.left)
      requires Holds(p.left, lo, p.mid) && Spans(Shape(p.left), lo, p.mid)
      requires c.node == child && Holds(c, p.mid, hi) && Spans(Shape(c), p.mid, hi)
      requires node !in Nodes(c) && Nodes(c) !! Nodes(p.left) && lo < hi
      requires Pools() && Apart(p.left) && Apart(c) && node !in Elems(leafFree) && node !in Elems(branchFree)
      modifies node`right
      ensures q == AtFork(node, p.mid, p.left, c) && ChildrenHold(q, lo, hi) && Pools() && Apart(q)
    {
      node.right := child;
      q := AtFork(node, p.mid, p.left, c);
      assert Holds(p.left, lo, p.mid) && Holds(c, p.mid, hi);
    }

    // Retags one child of a fork in place; the caches of the fork go stale.
    method TagLeftChild(node: Node, low: nat, high: nat, state: RangeState, outerLow: nat, outerHigh: nat,
                        ghost p: Placed)
      returns (ghost q: Placed)
      requires p.node == node && ChildrenHold(p, outerLow, outerHigh) && p.mid <= PAGE_MASK
      requires Request(outerLow, p.mid, low, high, state)
      requires Pools() && Apart(p)
      requires |leafFree| > NewEnds(outerLow, p.mid, low, high) && |branchFree| >= NewEnds(outerLow, p.mid, low, high)
      modifies node`left, Nodes(p.left), Elems(leafFree), Elems(branchFree)
      modifies this`leafHead, this`leafFree, this`usedLeaves, this`branchHead, this`branchFree, this`usedBranches
      ensures Pools() && Apart(q) && q.node == node && ChildrenHold(q, outerLow, outerHigh)
      ensures q.mid == p.mid && q.right == p.right
      ensures Shape(q.left) == Tag(Shape(p.left), outerLow, p.mid, low, high, state)
      ensures Conserves(p, q) && Leaves(Shape(q)) <= Leaves(Shape(p)) + NewEnds(outerLow, p.mid, low, high)
      decreases Leaves(Shape(p.left)), NewEnds(outerLow, p.mid, low, high), 3
    {
      ghost var mid := p.mid;
      NodesAllocated(p.right);
      var child, c := TagRangeInternal(node.left, low, high, state, outerLow, node.word.address, p.left);
      TagFits(Shape(p.left), outerLow, mid, low, high, state);
      assert Holds(p.right, mid, outerHigh);
      q := SetLeft(node, child, outerLow, outerHigh, p, c);
      ForkConserves(p, q);
    }

    // Retags one child of a fork in place; the caches of the fork go stale.
    method TagRightChild(node: Node, low: nat, high: nat, state: RangeState, outerLow: nat, outerHigh: nat,
                         ghost p: Placed)
      returns (ghost q: Placed)
      requires p.node == node && ChildrenHold(p, outerLow, outerHigh) && outerHigh <= PAGE_MASK
      requires Request(p.mid, outerHigh, low, high, state)
      requires Pools() && Apart(p)
      requires |leafFree| > NewEnds(p.mid, outerHigh, low, high) && |branchFree| >= NewEnds(p.mid, outerHigh, low, high)
      modifies node`right, Nodes(p.right), Elems(leafFree), Elems(branchFree)
      modifies this`leafHead, this`leafFree, this`usedLeaves, this`branchHead, this`branchFree, this`usedBranches
      ensures Pools() && Apart(q) && q.node == node && ChildrenHold(q, outerLow, outerHigh)
      ensures q.mid == p.mid && q.left == p.left
      ensures Shape(q.right) == Tag(Shape(p.right), p.mid, outerHigh, low, high, state)
      ensures Conserves(p, q) && Leaves(Shape(q)) <= Leaves(Shape(p)) + NewEnds(p.mid, outerHigh, low, high)
      decreases Leaves(Shape(p.right)), NewEnds(p.mid, outerHigh, low, high), 3
    {
      ghost var mid := p.mid;
      NodesAllocated(p.left);
      var child, c := TagRangeInternal(node.right, low, high, state, node.word.address, outerHigh, p.right);
      TagFits(Shape(p.right), mid, outerHigh, low, high, state);
      assert Holds(p.left, outerLow, mid);
      q := SetRight(node, child, outerLow, outerHigh, p, c);
      ForkConserves(p, q);
    }

    method TagLeaf(current: Node, low: nat, high: nat, state: RangeState, outerLow: nat, outerHigh: nat,
                   ghost p: Placed)
      returns (result: Node, ghost q: Placed)
      requires p.AtLeaf?
      requires p.node == current && Holds(p, outerLow, outerHigh)
      requires Spans(Shape(p), outerLow, outerHigh) && outerHigh <= PAGE_MASK
      requires Request(outerLow, outerHigh, low, high, state)
      requires Pools() && Apart(p)
      requires |leafFree| > NewEnds(outerLow, outerHigh, low, high)
      requires |branchFree| >= NewEnds(outerLow, outerHigh, low, high)
      modifies Nodes(p), Elems(leafFree), Elems(branchFree)
      modifies this`leafHead, this`leafFree, this`usedLeaves, this`branchHead, this`branchFree, this`usedBranches
      ensures Pools() && Apart(q) && q.node == result && Holds(q, outerLow, outerHigh)
      ensures Shape(q) == Tag(Shape(p), outerLow, outerHigh, low, high, state)
      ensures Conserves(p, q)
      decreases Leaves(Shape(p)), NewEnds(outerLow, outerHigh, low, high), 1
    {
      var address, old_ := current.word.address, current.word.state;
      assert address >= low && address >= high; // "Address out of bounds"
      var target := old_;
      if old_ != Reserved {
        target := state;
      }
      if !(low == outerLow && high == address) {
        if low >= outerLow && high <= address && old_ == target {
          return current, p;
        }
        result, q := SplitAndTag(current, low, high, target, outerLow, outerHigh, p);
      } else {
        assert low == outerLow || high == outerHigh; // "Expected ranges to match."
        current.SetState(target);
        result, q := current, AtLeaf(current, target);
      }
    }

    // The part of the leaf case that splits: only the piece inside the request is tagged again.
    method SplitAndTag(current: Node, low: nat, high: nat, target: RangeState, outerLow: nat, outerHigh: nat,
                       ghost p: Placed)
      returns (result: Node, ghost q: Placed)
      requires p.AtLeaf? && p.node == current && Holds(p, outerLow, outerHigh)
      requires Spans(Shape(p), outerLow, outerHigh) && outerHigh <= PAGE_MASK
      requires Request(outerLow, outerHigh, low, high, target) && !(low == outerLow && high == outerHigh)
      requires p.state != target && p.state != Reserved
      requires Pools() && Apart(p)
      requires |leafFree| > NewEnds(outerLow, outerHigh, low, high)
      requires |branchFree| >= NewEnds(outerLow, outerHigh, low, high)
      modifies Nodes(p), Elems(leafFree), Elems(branchFree)
      modifies this`leafHead, this`leafFree, this`usedLeaves, this`branchHead, this`branchFree, this`usedBranches
      ensures Pools() && Apart(q) && q.node == result && Holds(q, outerLow, outerHigh)
      ensures Shape(q) == Tag(Shape(p), outerLow, outerHigh, low, high, target)
      ensures Conserves(p, q)
      decreases Leaves(Shape(p)), NewEnds(outerLow, outerHigh, low, high), 0
    {
      var address := current.word.address;
      var midPoint := if low == outerLow then high else low;
      assert outerLow < midPoint; // "About to create zero block"
      assert address == outerHigh; // "Right block should touch the outer bound"
      var newBranch, split := SplitLeaf(current, midPoint, outerLow, outerHigh, p);
      if low < midPoint && high <= midPoint {
        TagChangesLeaf(p.state, outerLow, midPoint, low, high, target);
        split := TagLeftChild(newBranch, low, high, target, outerLow, outerHigh, split);
      } else if low >= midPoint && high > midPoint {
        assert midPoint < address; // "About to create zero block"
        TagChangesLeaf(p.state, midPoint, outerHigh, low, high, target);
        split := TagRightChild(newBranch, low, high, target, outerLow, outerHigh, split);
      } else {
        assert false; // "Incorrect branch state"
      }
      assert !Mergeable(Shape(split.left), Shape(split.right));
      LeafOrFork(split.left, outerLow, midPoint);
      LeafOrFork(split.right, midPoint, outerHigh);
      // "About to perform unexpected state merge"
      assert !(newBranch.right.word.state != Branch && newBranch.left.word.state == newBranch.right.word.state);
      result, q := UpdateNode(newBranch, outerLow, outerHigh, split);
      assert result == newBranch; // "Unexpected node merge"
    }

    // Turns a leaf into a fork over two leaves of its colour; the old slot goes to the leaf list.
    method SplitLeaf(current: Node, midPoint: nat, outerLow: nat, outerHigh: nat, ghost p: Placed)
      returns (newBranch: Node, ghost q: Placed)
      requires p.AtLeaf? && p.node == current && Holds(p, outerLow, outerHigh)
      requires Spans(Shape(p), outerLow, outerHigh) && outerHigh <= PAGE_MASK
      requires outerLow < midPoint < outerHigh && Aligned(midPoint)
      requires Pools() && Apart(p) && |leafFree| >= 2 && |branchFree| >= 1
      modifies current`word, Elems(leafFree), Elems(branchFree)
      modifies this`leafHead, this`leafFree, this`usedLeaves, this`branchHead, this`branchFree, this`usedBranches
      ensures Pools() && Apart(q) && ChildrenHold(q, outerLow, outerHigh) && q.node == newBranch
      ensures q.mid == midPoint && q.left.AtLeaf? && q.right.AtLeaf? && q.left.state == q.right.state == p.state
      ensures Conserves(p, q) && |leafFree| == old(|leafFree|) - 1 && |branchFree| == old(|branchFree|) - 1
    {
      var state := current.word.state;
      var left, right;
      newBranch, left, right := MakeFork(midPoint, current.word.address, state);
      FreeLeafState(current);
      q := AtFork(newBranch, midPoint, AtLeaf(left, state), AtLeaf(right, state));
    }

    // Takes a fork and its two leaves from the pools.
    method MakeFork(midPoint: nat, high: nat, state: RangeState) returns (newBranch: Node, left: Node, right: Node)
      requires Pools() && |leafFree| >= 2 && |branchFree| >= 1
      requires Aligned(midPoint) && Aligned(high) && midPoint <= high <= PAGE_MASK
      modifies Elems(leafFree), Elems(branchFree)
      modifies this`leafHead, this`leafFree, this`usedLeaves, this`branchHead, this`branchFree, this`usedBranches
      ensures Pools() && newBranch.wide && left != right
      ensures newBranch in old(Elems(branchFree)) && {left, right} <= old(Elems(leafFree))
      ensures newBranch.word == Tagged(midPoint, Branch) && newBranch.left == left && newBranch.right == right
      ensures left.word == Tagged(midPoint, state) && right.word == Tagged(high, state)
      ensures |branchFree| == old(|branchFree|) - 1 && Elems(branchFree) == old(Elems(branchFree)) - {newBranch}
      ensures |leafFree| == old(|leafFree|) - 2 && Elems(leafFree) == old(Elems(leafFree)) - {left, right}
      ensures usedLeaves == old(usedLeaves) + 2 && usedBranches == old(usedBranches) + 1
    {
      newBranch := GetFreeBranchState();
      newBranch.SetAddress(midPoint);
      MaskIdentity(midPoint);
      newBranch.SetState(Branch);
      left, right := MakeLeaves(midPoint, high, state);
      assert newBranch !in Elems(branchFree) && newBranch !in Elems(leafFree);
      newBranch.left, newBranch.right := left, right;
    }

    method MakeLeaves(midPoint: nat, high: nat, state: RangeState) returns (left: Node, right: Node)
      requires Pools() && |leafFree| >= 2
      requires Aligned(midPoint) && Aligned(high) && midPoint <= high <= PAGE_MASK
      modifies Elems(leafFree), this`leafHead, this`leafFree, this`usedLeaves
      ensures Pools() && left != right && {left, right} <= old(Elems(leafFree))
      ensures left.word == Tagged(midPoint, state) && right.word == Tagged(high, state)
      ensures |leafFree| == old(|leafFree|) - 2 && Elems(leafFree) == old(Elems(leafFree)) - {left, right}
      ensures usedLeaves == old(usedLeaves) + 2
    {
      left := MakeLeaf(midPoint, state);
      assert midPoint == left.word.address; // "Mismatch on expected block bounds"
      right := MakeLeaf(high, state);
    }

    // Takes a leaf from the pool and labels it.
    method MakeLeaf(address: nat, state: RangeState) returns (leaf: Node)
      requires Pools() && leafFree != [] && Aligned(address) && address <= PAGE_MASK
      modifies Elems(leafFree), this`leafHead, this`leafFree, this`usedLeaves
      ensures Pools() && leaf.word == Tagged(address, state)
      ensures leaf == old(leafFree)[0] && leafFree == old(leafFree)[1..] && leaf in old(Elems(leafFree))
      ensures Elems(leafFree) == old(Elems(leafFree)) - {leaf}
      ensures forall n :: n in leafFree ==> n.word == old(n.word)
      ensures usedLeaves == old(usedLeaves) + 1
    {
      leaf := GetFreeLeafState();
      leaf.SetAddress(address);
      MaskIdentity(address);
      leaf.SetState(state);
    }

    // At most two leaves and two forks are gained, and one more leaf slot is borrowed for a merge.
    method TagRange(low: nat, high: nat, state: RangeState)
      requires Valid() && Request(0, highest, low, high, state)
      requires |leafFree| >= 3 && |branchFree| >= 2
      modifies this, slots
      ensures Valid() && slots == old(slots) && highest == old(highest)
      ensures Tree() == Tag(old(Tree()), 0, highest, low, high, state)
      ensures Tree() == TagShape.Collapse(TagShape.CutAndPaint(old(Tree()), 0, highest, low, high, state))
      ensures |leafFree| >= old(|leafFree|) - 2 && |branchFree| >= old(|branchFree|) - 2
    {
      TagSummary(Shape(placed), 0, highest, low, high, state);
      TagShape.TagIsCutPaintCollapse(Shape(placed), 0, highest, low, high, state);
      var newRoot, q := TagRangeInternal(root, low, high, state, 0, highest, placed);
      SetRoot(newRoot, q);
    }

    method SetRoot(newRoot: Node, ghost q: Placed)
      requires newRoot == q.node && Keeps(q)
      modifies this`root, this`placed
      ensures Valid() && placed == q
    {
      root, placed := newRoot, q;
    }

    // ---------------------------------------------------------------------
    // Read-only walks

    function GetPageState(address: nat): (state: RangeState)
      requires Valid()
      reads this, slots
      ensures state == StateAt(Tree(), address)
    {
      GetPageStateInternal(root, address, placed, 0, highest)
    }

    function GetPageStateInternal(current: Node, address: nat, ghost p: Placed, ghost lo: nat, ghost hi: nat)
      : (state: RangeState)
      requires p.node == current && Holds(p, lo, hi) && Spans(Shape(p), lo, hi)
      reads Nodes(p)
      ensures state == StateAt(Shape(p), address)
      decreases p
    {
      LeafOrFork(p, lo, hi);
      if current.word.state == Branch then
        var mid := current.word.address;
        if address < mid then GetPageStateInternal(current.left, address, p.left, lo, mid)
        else GetPageStateInternal(current.right, address, p.right, mid, hi)
      else
        current.word.state
    }

    function FindMinimumSizeFreeBlock(minSize: nat): (start: nat)
      requires Valid()
      reads this, slots
      ensures start == FirstFit(Runs(Tree(), 0, highest), minSize)
    {
      FindMinimumSizeFreeBlockInternal(root, minSize, 0, highest, placed)
    }

    function FindMinimumSizeFreeBlockInternal(current: Node, minSize: nat, outerLow: nat, outerHigh: nat,
                                              ghost p: Placed)
      : (start: nat)
      requires p.node == current && Holds(p, outerLow, outerHigh) && Spans(Shape(p), outerLow, outerHigh)
      reads Nodes(p)
      ensures start == FirstFit(Runs(Shape(p), outerLow, outerHigh), minSize)
      decreases p
    {
      LeafOrFork(p, outerLow, outerHigh);
      var address := current.word.address;
      if current.word.state == Branch then
        FirstFitFork(Shape(p), outerLow, outerHigh, minSize);
        var largestLeft := GetLargestFree(current.left, outerLow, address, p.left);
        var largestRight := GetLargestFree(current.right, address, outerHigh, p.right);
        var inLeft := if largestLeft >= minSize
                      then FindMinimumSizeFreeBlockInternal(current.left, minSize, outerLow, address, p.left) else 0;
        if inLeft != 0 then inLeft
        else if largestRight >= minSize
        then FindMinimumSizeFreeBlockInternal(current.right, minSize, address, outerHigh, p.right)
        else 0
      else if current.word.state == Free && GetLargestFree(current, outerLow, address, p) >= minSize then
        outerLow
      else
        0
    }
  }
}
