/**
 The range-state tree as a value. A leaf colours its whole interval; a fork splits its interval
 at `mid`. `Tag` is the functional specification of one TagRange call, and the lemmas relate it to
 the plain map from addresses to states.
 */
module RangeTree {
  import opened Pages

  datatype RangeState = Free | Reserved | Used | Branch

  datatype Tree =
    | Leaf(state: RangeState)
    | Fork(mid: nat, left: Tree, right: Tree)

  // One leaf together with the interval it colours.
  datatype Run = Run(lo: nat, hi: nat, state: RangeState)

  // t divides [lo, hi) into non-empty page-aligned pieces; no leaf carries the Branch mark.
  ghost predicate Spans(t: Tree, lo: nat, hi: nat) {
    && lo < hi && Aligned(lo) && Aligned(hi)
    && match t
       case Leaf(s) => s != Branch
       case Fork(mid, l, r) => Spans(l, lo, mid) && Spans(r, mid, hi)
  }

  // No fork has two leaf children of equal state.
  ghost predicate Canonical(t: Tree) {
    t.Fork? ==> Canonical(t.left) && Canonical(t.right) && !Mergeable(t.left, t.right)
  }

  predicate Mergeable(l: Tree, r: Tree) {
    r.Leaf? && l == r
  }

  function StateAt(t: Tree, a: nat): RangeState {
    match t
    case Leaf(s) => s
    case Fork(mid, l, r) => if a < mid then StateAt(l, a) else StateAt(r, a)
  }

  function Leaves(t: Tree): (n: nat)
    ensures n >= 1
  {
    match t
    case Leaf(_) => 1
    case Fork(_, l, r) => Leaves(l) + Leaves(r)
  }

  // The leaves from left to right.
  function Runs(t: Tree, lo: nat, hi: nat): seq<Run> {
    match t
    case Leaf(s) => [Run(lo, hi, s)]
    case Fork(mid, l, r) => Runs(l, lo, mid) + Runs(r, mid, hi)
  }

  // -------------------------------------------------------------------------
  // The cached measures

  function LargestFree(t: Tree, lo: nat, hi: nat): nat {
    match t
    case Leaf(s) => if s == Free && lo < hi then hi - lo else 0
    case Fork(mid, l, r) =>
      var a, b := LargestFree(l, lo, mid), LargestFree(r, mid, hi);
      if a > b then a else b
  }

  function RemainingFree(t: Tree, lo: nat, hi: nat): nat {
    match t
    case Leaf(s) => if s == Free && lo < hi then hi - lo else 0
    case Fork(mid, l, r) => RemainingFree(l, lo, mid) + RemainingFree(r, mid, hi)
  }

  ghost predicate FreeRun(run: Run, n: nat) {
    run.state == Free && run.lo + n <= run.hi
  }

  // Largest is the size of a biggest free leaf, and 0 exactly when no leaf is free.
  lemma {:induction false} LargestIsMaximum(t: Tree, lo: nat, hi: nat)
    requires Spans(t, lo, hi)
    ensures forall run :: run in Runs(t, lo, hi) && run.state == Free ==> run.hi - run.lo <= LargestFree(t, lo, hi)
    ensures LargestFree(t, lo, hi) == 0 <==> forall run :: run in Runs(t, lo, hi) ==> run.state != Free
    ensures LargestFree(t, lo, hi) > 0 ==>
              exists run :: run in Runs(t, lo, hi) && run.state == Free && run.hi - run.lo == LargestFree(t, lo, hi)
  {
    match t
    case Leaf(s) =>
      assert Run(lo, hi, s) in Runs(t, lo, hi);
    case Fork(mid, l, r) =>
      LargestIsMaximum(l, lo, mid);
      LargestIsMaximum(r, mid, hi);
  }

  ghost function FreeAddresses(t: Tree, lo: nat, hi: nat): set<nat> {
    set a: nat | lo <= a < hi && StateAt(t, a) == Free
  }

  // Remaining counts the addresses that the plain map calls Free.
  lemma {:induction false} RemainingCountsFree(t: Tree, lo: nat, hi: nat)
    requires Spans(t, lo, hi)
    ensures |FreeAddresses(t, lo, hi)| == RemainingFree(t, lo, hi)
  {
    match t
    case Leaf(s) =>
      if s == Free {
        FreeLeafSize(lo, hi);
      } else {
        assert FreeAddresses(t, lo, hi) == {};
      }
    case Fork(mid, l, r) =>
      SpansOrder(l, lo, mid);
      SpansOrder(r, mid, hi);
      RemainingCountsFree(l, lo, mid);
      RemainingCountsFree(r, mid, hi);
      var fl, fr := FreeAddresses(l, lo, mid), FreeAddresses(r, mid, hi);
      assert FreeAddresses(t, lo, hi) == fl + fr;
      assert fl !! fr;
  }

  lemma {:induction false} FreeLeafSize(lo: nat, hi: nat)
    requires lo <= hi
    ensures |FreeAddresses(Leaf(Free), lo, hi)| == hi - lo
    decreases hi - lo
  {
    if lo == hi {
      assert FreeAddresses(Leaf(Free), lo, hi) == {};
    } else {
      FreeLeafSize(lo + 1, hi);
      assert FreeAddresses(Leaf(Free), lo, hi) == {lo} + FreeAddresses(Leaf(Free), lo + 1, hi);
    }
  }

  lemma SpansOrder(t: Tree, lo: nat, hi: nat)
    requires Spans(t, lo, hi)
    ensures lo < hi
  {
  }

  // -------------------------------------------------------------------------
  // Tagging a range

  function Merge(mid: nat, l: Tree, r: Tree): Tree {
    if Mergeable(l, r) then r else Fork(mid, l, r)
  }

  // Reserved is never overwritten.
  function Recolour(old_: RangeState, s: RangeState): RangeState {
    if old_ == Reserved then Reserved else s
  }

  function Tag(t: Tree, lo: nat, hi: nat, low: nat, high: nat, s: RangeState): Tree {
    match t
    case Fork(mid, l, r) =>
      if low < mid && high <= mid then Merge(mid, Tag(l, lo, mid, low, high, s), r)
      else if low >= mid then Merge(mid, l, Tag(r, mid, hi, low, high, s))
      else Merge(mid, Tag(l, lo, mid, low, mid, s), Tag(r, mid, hi, mid, high, s))
    case Leaf(old_) =>
      var target := Recolour(old_, s);
      if low == lo && high == hi then Leaf(target)
      else if old_ == target then t
      else if low == lo then Fork(high, Leaf(target), t)
      else if high == hi then Fork(low, t, Leaf(target))
      else Fork(low, t, Fork(high, Leaf(target), t))
  }

  ghost predicate Request(lo: nat, hi: nat, low: nat, high: nat, s: RangeState) {
    lo <= low < high <= hi && Aligned(low) && Aligned(high) && s != Branch
  }

  // Tagging keeps the tree well formed and fully merged.
  lemma {:induction false} TagKeepsShape(t: Tree, lo: nat, hi: nat, low: nat, high: nat, s: RangeState)
    requires Spans(t, lo, hi) && Request(lo, hi, low, high, s)
    ensures Spans(Tag(t, lo, hi, low, high, s), lo, hi)
    ensures Canonical(t) ==> Canonical(Tag(t, lo, hi, low, high, s))
  {
    match t
    case Leaf(_) =>
    case Fork(mid, l, r) =>
      if low < mid && high <= mid {
        TagKeepsShape(l, lo, mid, low, high, s);
      } else if low >= mid {
        TagKeepsShape(r, mid, hi, low, high, s);
      } else {
        TagKeepsShape(l, lo, mid, low, mid, s);
        TagKeepsShape(r, mid, hi, mid, high, s);
      }
  }

  // Tagging is a point update of the plain map in which Reserved absorbs every later colour.
  lemma {:induction false} TagIsPointUpdate(t: Tree, lo: nat, hi: nat, low: nat, high: nat, s: RangeState, a: nat)
    requires Spans(t, lo, hi) && Request(lo, hi, low, high, s) && lo <= a < hi
    ensures StateAt(Tag(t, lo, hi, low, high, s), a)
         == if low <= a < high && StateAt(t, a) != Reserved then s else StateAt(t, a)
  {
    match t
    case Leaf(_) =>
      var tagged := Tag(t, lo, hi, low, high, s);
      if tagged.Fork? && a >= tagged.mid && tagged.right.Fork? {
        assert StateAt(tagged.right, a) == if a < high then Recolour(t.state, s) else t.state;
      }
    case Fork(mid, l, r) =>
      if low < mid && high <= mid {
        if a < mid { TagIsPointUpdate(l, lo, mid, low, high, s, a); }
      } else if low >= mid {
        if mid <= a { TagIsPointUpdate(r, mid, hi, low, high, s, a); }
      } else if a < mid {
        TagIsPointUpdate(l, lo, mid, low, mid, s, a);
      } else {
        TagIsPointUpdate(r, mid, hi, mid, high, s, a);
      }
  }

  // Tagging part of a leaf with another colour never gives the leaf back.
  lemma TagChangesLeaf(old_: RangeState, lo: nat, hi: nat, low: nat, high: nat, s: RangeState)
    requires Request(lo, hi, low, high, s) && old_ != s && old_ != Reserved
    ensures Tag(Leaf(old_), lo, hi, low, high, s) != Leaf(old_)
  {
  }

  // Addresses past the end are answered with the state of the last tracked address.
  lemma {:induction false} StatePastEnd(t: Tree, lo: nat, hi: nat, a: nat)
    requires Spans(t, lo, hi) && hi <= a
    ensures StateAt(t, a) == StateAt(t, hi - 1)
  {
    if t.Fork? {
      SpansOrder(t.left, lo, t.mid);
      SpansOrder(t.right, t.mid, hi);
      StatePastEnd(t.right, t.mid, hi, a);
    }
  }

  // -------------------------------------------------------------------------
  // How many nodes one tag can cost

  // Each end of the request that is not an end of the interval can split one leaf.
  function NewEnds(lo: nat, hi: nat, low: nat, high: nat): (n: nat)
    ensures n <= 2
  {
    (if low == lo then 0 else 1) + (if high == hi then 0 else 1)
  }

  lemma {:induction false} TagLeafGrowth(t: Tree, lo: nat, hi: nat, low: nat, high: nat, s: RangeState)
    requires Spans(t, lo, hi) && Request(lo, hi, low, high, s)
    ensures Leaves(Tag(t, lo, hi, low, high, s)) <= Leaves(t) + NewEnds(lo, hi, low, high)
  {
    match t
    case Leaf(_) =>
      var tagged := Tag(t, lo, hi, low, high, s);
      if tagged.Fork? {
        assert Leaves(tagged) == Leaves(tagged.left) + Leaves(tagged.right);
      }
    case Fork(mid, l, r) =>
      SpansOrder(l, lo, mid);
      SpansOrder(r, mid, hi);
      if low < mid && high <= mid {
        TagLeafGrowth(l, lo, mid, low, high, s);
      } else if low >= mid {
        TagLeafGrowth(r, mid, hi, low, high, s);
      } else {
        TagLeafGrowth(l, lo, mid, low, mid, s);
        TagLeafGrowth(r, mid, hi, mid, high, s);
      }
  }

  lemma TagFits(t: Tree, lo: nat, hi: nat, low: nat, high: nat, s: RangeState)
    requires Spans(t, lo, hi) && Request(lo, hi, low, high, s)
    ensures var t' := Tag(t, lo, hi, low, high, s);
            Spans(t', lo, hi) && Leaves(t') <= Leaves(t) + NewEnds(lo, hi, low, high)
  {
    TagKeepsShape(t, lo, hi, low, high, s);
    TagLeafGrowth(t, lo, hi, low, high, s);
  }

  lemma TagSummary(t: Tree, lo: nat, hi: nat, low: nat, high: nat, s: RangeState)
    requires Spans(t, lo, hi) && Canonical(t) && Request(lo, hi, low, high, s)
    ensures var t' := Tag(t, lo, hi, low, high, s);
            Spans(t', lo, hi) && Canonical(t') && Leaves(t') <= Leaves(t) + 2
  {
    TagFits(t, lo, hi, low, high, s);
    TagKeepsShape(t, lo, hi, low, high, s);
  }

  // -------------------------------------------------------------------------
  // Sequences of tags

  datatype TagOp = TagOp(low: nat, high: nat, state: RangeState)

  ghost predicate AllRequests(lo: nat, hi: nat, ops: seq<TagOp>) {
    forall op :: op in ops ==> Request(lo, hi, op.low, op.high, op.state)
  }

  function TagAll(t: Tree, lo: nat, hi: nat, ops: seq<TagOp>): Tree
    decreases |ops|
  {
    if ops == [] then t
    else
      var op := ops[0];
      TagAll(Tag(t, lo, hi, op.low, op.high, op.state), lo, hi, ops[1..])
  }

  // The plain map after the same operations: the last covering tag wins until Reserved is seen.
  function Painted(before: RangeState, ops: seq<TagOp>, a: nat): RangeState
    decreases |ops|
  {
    if ops == [] then before
    else
      var now := if ops[0].low <= a < ops[0].high then Recolour(before, ops[0].state) else before;
      Painted(now, ops[1..], a)
  }

  // Any run of tags agrees with the plain map everywhere and keeps the invariant.
  lemma {:induction false} TagAllRefinesMap(t: Tree, lo: nat, hi: nat, ops: seq<TagOp>, a: nat)
    requires Spans(t, lo, hi) && Canonical(t) && AllRequests(lo, hi, ops) && lo <= a < hi
    ensures Spans(TagAll(t, lo, hi, ops), lo, hi) && Canonical(TagAll(t, lo, hi, ops))
    ensures StateAt(TagAll(t, lo, hi, ops), a) == Painted(StateAt(t, a), ops, a)
    decreases |ops|
  {
    if ops != [] {
      var op := ops[0];
      assert op in ops && Request(lo, hi, op.low, op.high, op.state);
      TagKeepsShape(t, lo, hi, op.low, op.high, op.state);
      TagIsPointUpdate(t, lo, hi, op.low, op.high, op.state, a);
      TagAllRefinesMap(Tag(t, lo, hi, op.low, op.high, op.state), lo, hi, ops[1..], a);
    }
  }

  // An address is Reserved after a run exactly when it was before or some tag reserved it.
  lemma {:induction false} ReservedAbsorbs(before: RangeState, ops: seq<TagOp>, a: nat)
    ensures Painted(before, ops, a) == Reserved
       <==> before == Reserved
            || exists i :: 0 <= i < |ops| && ops[i].low <= a < ops[i].high && ops[i].state == Reserved
    decreases |ops|
  {
    if ops != [] {
      var now := if ops[0].low <= a < ops[0].high then Recolour(before, ops[0].state) else before;
      ReservedAbsorbs(now, ops[1..], a);
      forall i | 0 <= i < |ops| - 1 ensures ops[1..][i] == ops[i + 1] {}
      if i :| 0 <= i < |ops| && ops[i].low <= a < ops[i].high && ops[i].state == Reserved {
        assert i == 0 || ops[1..][i - 1] == ops[i];
      }
    }
  }

  // -------------------------------------------------------------------------
  // First fit

  // Linear scan of the leaves for the first free one of at least n bytes that does not start at 0.
  function FirstFit(runs: seq<Run>, n: nat): nat {
    if runs == [] then 0
    else if runs[0].state == Free && runs[0].lo + n <= runs[0].hi && runs[0].lo != 0 then runs[0].lo
    else FirstFit(runs[1..], n)
  }

  lemma {:induction false} FirstFitAppend(a: seq<Run>, b: seq<Run>, n: nat)
    ensures FirstFit(a + b, n) == if FirstFit(a, n) != 0 then FirstFit(a, n) else FirstFit(b, n)
  {
    if a == [] {
      assert a + b == b;
    } else {
      assert (a + b)[1..] == a[1..] + b;
      FirstFitAppend(a[1..], b, n);
    }
  }

  lemma {:induction false} FirstFitNone(runs: seq<Run>, n: nat)
    requires forall run :: run in runs ==> !FreeRun(run, n)
    ensures FirstFit(runs, n) == 0
  {
    if runs != [] {
      assert runs[0] in runs;
      FirstFitNone(runs[1..], n);
    }
  }

  // A subtree whose cached maximum is too small holds no fit, so skipping it loses nothing.
  lemma PruningIsSafe(t: Tree, lo: nat, hi: nat, n: nat)
    requires Spans(t, lo, hi) && LargestFree(t, lo, hi) < n
    ensures FirstFit(Runs(t, lo, hi), n) == 0
  {
    LargestIsMaximum(t, lo, hi);
    FirstFitNone(Runs(t, lo, hi), n);
  }

  // First fit of a fork from its children, consulting only the children whose cached maximum is large enough.
  lemma FirstFitFork(t: Tree, lo: nat, hi: nat, n: nat)
    requires t.Fork? && Spans(t, lo, hi)
    ensures var inLeft := if LargestFree(t.left, lo, t.mid) >= n then FirstFit(Runs(t.left, lo, t.mid), n) else 0;
            var inRight := if LargestFree(t.right, t.mid, hi) >= n then FirstFit(Runs(t.right, t.mid, hi), n) else 0;
            FirstFit(Runs(t, lo, hi), n) == if inLeft != 0 then inLeft else inRight
  {
    FirstFitAppend(Runs(t.left, lo, t.mid), Runs(t.right, t.mid, hi), n);
    if LargestFree(t.left, lo, t.mid) < n { PruningIsSafe(t.left, lo, t.mid, n); }
    if LargestFree(t.right, t.mid, hi) < n { PruningIsSafe(t.right, t.mid, hi, n); }
  }

  // The scan finds a fit exactly when there is one, and then the earliest one in the list.
  lemma {:induction false} FirstFitExact(runs: seq<Run>, n: nat)
    ensures FirstFit(runs, n) != 0 ==> exists i ::
              && 0 <= i < |runs| && FreeRun(runs[i], n) && runs[i].lo == FirstFit(runs, n)
              && forall j :: 0 <= j < i ==> !(FreeRun(runs[j], n) && runs[j].lo != 0)
    ensures FirstFit(runs, n) == 0 <==> forall run :: run in runs ==> !(FreeRun(run, n) && run.lo != 0)
  {
    if runs != [] {
      if FreeRun(runs[0], n) && runs[0].lo != 0 {
        assert runs[0] in runs;
      } else {
        FirstFitExact(runs[1..], n);
        assert runs == [runs[0]] + runs[1..];
        if FirstFit(runs[1..], n) != 0 {
          var i :| 0 <= i < |runs[1..]| && FreeRun(runs[1..][i], n) && runs[1..][i].lo == FirstFit(runs[1..], n)
            && forall j :: 0 <= j < i ==> !(FreeRun(runs[1..][j], n) && runs[1..][j].lo != 0);
          forall j | 0 <= j < i + 1 ensures !(FreeRun(runs[j], n) && runs[j].lo != 0) {
            assert j == 0 || runs[j] == runs[1..][j - 1];
          }
          assert runs[i + 1] == runs[1..][i];
        }
      }
    }
  }

  // Non-empty aligned intervals, each starting where the one before it ends.
  ghost predicate Tiles(rs: seq<Run>, lo: nat, hi: nat) {
    && |rs| > 0 && rs[0].lo == lo && rs[|rs| - 1].hi == hi
    && (forall i :: 0 <= i < |rs| ==> rs[i].lo < rs[i].hi && Aligned(rs[i].lo))
    && (forall i :: 0 <= i < |rs| - 1 ==> rs[i].hi == rs[i + 1].lo)
  }

  lemma TilesAppend(a: seq<Run>, b: seq<Run>, lo: nat, mid: nat, hi: nat)
    requires Tiles(a, lo, mid) && Tiles(b, mid, hi)
    ensures Tiles(a + b, lo, hi)
  {
  }

  lemma {:induction false} RunsTile(t: Tree, lo: nat, hi: nat)
    requires Spans(t, lo, hi)
    ensures Tiles(Runs(t, lo, hi), lo, hi) && |Runs(t, lo, hi)| == Leaves(t)
  {
    if t.Fork? {
      RunsTile(t.left, lo, t.mid);
      RunsTile(t.right, t.mid, hi);
      TilesAppend(Runs(t.left, lo, t.mid), Runs(t.right, t.mid, hi), lo, t.mid, hi);
    }
  }

  lemma {:induction false} RunsAscend(rs: seq<Run>, lo: nat, hi: nat, i: nat, j: nat)
    requires Tiles(rs, lo, hi) && i <= j < |rs|
    ensures rs[i].lo <= rs[j].lo && (i < j ==> rs[i].hi <= rs[j].lo)
    decreases j - i
  {
    if i < j {
      RunsAscend(rs, lo, hi, i + 1, j);
    }
  }

  // Every address of a leaf has the state of the leaf.
  lemma {:induction false} RunGivesState(t: Tree, lo: nat, hi: nat, run: Run, a: nat)
    requires Spans(t, lo, hi) && run in Runs(t, lo, hi) && run.lo <= a < run.hi
    ensures lo <= run.lo && run.hi <= hi && StateAt(t, a) == run.state
  {
    if t.Fork? {
      SpansOrder(t.left, lo, t.mid);
      SpansOrder(t.right, t.mid, hi);
      if run in Runs(t.left, lo, t.mid) {
        RunGivesState(t.left, lo, t.mid, run, a);
      } else {
        RunGivesState(t.right, t.mid, hi, run, a);
      }
    }
  }

  // No address is ever looked up as Branch.
  lemma {:induction false} NeverBranch(t: Tree, lo: nat, hi: nat, a: nat)
    requires Spans(t, lo, hi)
    ensures StateAt(t, a) != Branch
  {
    if t.Fork? {
      if a < t.mid {
        NeverBranch(t.left, lo, t.mid, a);
      } else {
        NeverBranch(t.right, t.mid, hi, a);
      }
    }
  }

  // The leaf an address lies in.
  lemma {:induction false} LeafAt(t: Tree, lo: nat, hi: nat, a: nat) returns (run: Run)
    requires Spans(t, lo, hi) && lo <= a < hi
    ensures run in Runs(t, lo, hi) && run.lo <= a < run.hi && run.state == StateAt(t, a)
    ensures Aligned(run.lo) && Aligned(run.hi)
  {
    match t
    case Leaf(s) => run := Run(lo, hi, s);
    case Fork(mid, l, r) =>
      if a < mid {
        run := LeafAt(l, lo, mid, a);
      } else {
        run := LeafAt(r, mid, hi, a);
      }
  }

  // When address 0 is not Free, any Free address makes a fit for one page.
  lemma OnePageFit(t: Tree, hi: nat, a: nat)
    requires Spans(t, 0, hi) && StateAt(t, 0) != Free && a < hi && StateAt(t, a) == Free
    ensures FirstFit(Runs(t, 0, hi), PAGE_SIZE) != 0
  {
    var run := LeafAt(t, 0, hi, a);
    if run.lo == 0 {
      RunGivesState(t, 0, hi, run, 0);
    }
    AlignedGap(run.lo, run.hi);
    FitIsLowest(t, 0, hi, PAGE_SIZE);
  }

  lemma AlignedGap(lo: nat, hi: nat)
    requires Aligned(lo) && Aligned(hi) && lo < hi
    ensures lo + PAGE_SIZE <= hi
  {
  }

  // Exact first fit on the tree: the result is the lowest start, other than 0, of a free leaf of at least
  // n bytes, and 0 means that there is no such leaf.
  lemma FitIsLowest(t: Tree, lo: nat, hi: nat, n: nat)
    requires Spans(t, lo, hi)
    ensures var r := FirstFit(Runs(t, lo, hi), n);
            && (r != 0 ==> exists run :: run in Runs(t, lo, hi) && FreeRun(run, n) && run.lo == r)
            && (forall run :: run in Runs(t, lo, hi) && FreeRun(run, n) && run.lo != 0 ==> 0 < r <= run.lo)
  {
    var rs := Runs(t, lo, hi);
    FirstFitExact(rs, n);
    RunsTile(t, lo, hi);
    if FirstFit(rs, n) != 0 {
      EarliestIsLowest(rs, lo, hi, n);
    }
  }

  // In a tiling the first fitting leaf of the list is the lowest one.
  lemma EarliestIsLowest(rs: seq<Run>, lo: nat, hi: nat, n: nat)
    requires Tiles(rs, lo, hi) && FirstFit(rs, n) != 0
    ensures exists run :: run in rs && FreeRun(run, n) && run.lo == FirstFit(rs, n)
    ensures forall run :: run in rs && FreeRun(run, n) && run.lo != 0 ==> FirstFit(rs, n) <= run.lo
  {
    FirstFitExact(rs, n);
    var i :| 0 <= i < |rs| && FreeRun(rs[i], n) && rs[i].lo == FirstFit(rs, n)
      && forall j :: 0 <= j < i ==> !(FreeRun(rs[j], n) && rs[j].lo != 0);
    forall j | 0 <= j < |rs| && FreeRun(rs[j], n) && rs[j].lo != 0 ensures rs[i].lo <= rs[j].lo {
      RunsAscend(rs, lo, hi, i, j);
    }
  }

  // A non-zero result is an aligned block inside [lo, hi) whose bytes are all Free.
  lemma FitIsFree(t: Tree, lo: nat, hi: nat, n: nat)
    requires Spans(t, lo, hi) && n > 0
    ensures var r := FirstFit(Runs(t, lo, hi), n);
            r != 0 ==> lo <= r && r + n <= hi && Aligned(r) && forall a :: r <= a < r + n ==> StateAt(t, a) == Free
  {
    var r := FirstFit(Runs(t, lo, hi), n);
    FitIsLowest(t, lo, hi, n);
    RunsTile(t, lo, hi);
    if r != 0 {
      var run :| run in Runs(t, lo, hi) && FreeRun(run, n) && run.lo == r;
      RunGivesState(t, lo, hi, run, r);
      forall a | r <= a < r + n ensures StateAt(t, a) == Free {
        RunGivesState(t, lo, hi, run, a);
      }
    }
  }
}
