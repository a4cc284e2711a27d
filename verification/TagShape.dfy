/**
 The tree that a tag leaves behind, not only its colours: later searches see the leaves, so where a leaf is cut and
 which leaves merge again decides what they find.
 */
module TagShape {
  import opened Pages
  import opened RangeTree

  // -------------------------------------------------------------------------
  // A tag in three plain steps

  // Splits the leaf that has x inside into two of its colour.
  function Cut(t: Tree, lo: nat, hi: nat, x: nat): Tree {
    match t
    case Leaf(_) => if lo < x < hi then Fork(x, t, t) else t
    case Fork(mid, l, r) => if x < mid then Fork(mid, Cut(l, lo, mid, x), r) else Fork(mid, l, Cut(r, mid, hi, x))
  }

  // Recolours the leaves inside [low, high), except the Reserved ones.
  function Paint(t: Tree, lo: nat, hi: nat, low: nat, high: nat, s: RangeState): Tree {
    match t
    case Leaf(old_) => if low <= lo && hi <= high && old_ != Reserved then Leaf(s) else t
    case Fork(mid, l, r) => Fork(mid, Paint(l, lo, mid, low, high, s), Paint(r, mid, hi, low, high, s))
  }

  // Merges equal sibling leaves from the bottom up.
  function Collapse(t: Tree): Tree {
    match t
    case Leaf(_) => t
    case Fork(mid, l, r) =>
      var l', r' := Collapse(l), Collapse(r);
      if l'.Leaf? && l' == r' then l' else Fork(mid, l', r')
  }

  lemma {:induction false} CollapseCanonical(t: Tree)
    requires Canonical(t)
    ensures Collapse(t) == t
  {
    if t.Fork? {
      CollapseCanonical(t.left);
      CollapseCanonical(t.right);
    }
  }

  lemma {:induction false} CutOutside(t: Tree, lo: nat, hi: nat, x: nat)
    requires Spans(t, lo, hi) && (x <= lo || hi <= x)
    ensures Cut(t, lo, hi, x) == t
  {
    if t.Fork? {
      SpansOrder(t.left, lo, t.mid);
      SpansOrder(t.right, t.mid, hi);
      if x < t.mid {
        CutOutside(t.left, lo, t.mid, x);
      } else {
        CutOutside(t.right, t.mid, hi, x);
      }
    }
  }

  lemma {:induction false} CutKeepsSpans(t: Tree, lo: nat, hi: nat, x: nat)
    requires Spans(t, lo, hi) && Aligned(x)
    ensures Spans(Cut(t, lo, hi, x), lo, hi)
  {
    if t.Fork? {
      if x < t.mid {
        CutKeepsSpans(t.left, lo, t.mid, x);
      } else {
        CutKeepsSpans(t.right, t.mid, hi, x);
      }
    }
  }

  lemma {:induction false} PaintOutside(t: Tree, lo: nat, hi: nat, low: nat, high: nat, s: RangeState)
    requires Spans(t, lo, hi) && (high <= lo || hi <= low)
    ensures Paint(t, lo, hi, low, high, s) == t
  {
    if t.Fork? {
      SpansOrder(t.left, lo, t.mid);
      SpansOrder(t.right, t.mid, hi);
      PaintOutside(t.left, lo, t.mid, low, high, s);
      PaintOutside(t.right, t.mid, hi, low, high, s);
    }
  }

  // Only the part of the request inside the interval matters.
  lemma {:induction false} PaintClipped(t: Tree, lo: nat, hi: nat, low: nat, high: nat, low': nat, high': nat,
                                        s: RangeState)
    requires Spans(t, lo, hi)
    requires low' == low || (low <= lo && low' <= lo)
    requires high' == high || (hi <= high && hi <= high')
    ensures Paint(t, lo, hi, low, high, s) == Paint(t, lo, hi, low', high', s)
  {
    if t.Fork? {
      SpansOrder(t.left, lo, t.mid);
      SpansOrder(t.right, t.mid, hi);
      PaintClipped(t.left, lo, t.mid, low, high, low', high', s);
      PaintClipped(t.right, t.mid, hi, low, high, low', high', s);
    }
  }

  ghost function CutAndPaint(t: Tree, lo: nat, hi: nat, low: nat, high: nat, s: RangeState): Tree {
    Paint(Cut(Cut(t, lo, hi, low), lo, hi, high), lo, hi, low, high, s)
  }

  // Tagging a fully merged tree is this and nothing else: cut at the lower end, then at the upper end, recolour the
  // leaves between them, and merge what has become equal.
  lemma {:induction false} TagIsCutPaintCollapse(t: Tree, lo: nat, hi: nat, low: nat, high: nat, s: RangeState)
    requires Spans(t, lo, hi) && Canonical(t) && Request(lo, hi, low, high, s)
    ensures Tag(t, lo, hi, low, high, s) == Collapse(CutAndPaint(t, lo, hi, low, high, s))
  {
    match t
    case Leaf(old_) =>
      LeafIsCutPaintCollapse(old_, lo, hi, low, high, s);
    case Fork(mid, l, r) =>
      SpansOrder(l, lo, mid);
      SpansOrder(r, mid, hi);
      if low < mid && high <= mid {
        TagIsCutPaintCollapse(l, lo, mid, low, high, s);
        CutOutside(r, mid, hi, mid);
        PaintOutside(r, mid, hi, low, high, s);
        CollapseCanonical(r);
        CutKeepsSpans(l, lo, mid, low);
        CutOutside(Cut(l, lo, mid, low), lo, mid, mid);
      } else if low >= mid {
        TagIsCutPaintCollapse(r, mid, hi, low, high, s);
        PaintOutside(l, lo, mid, low, high, s);
        CollapseCanonical(l);
      } else {
        SplitIsCutPaintCollapse(mid, l, r, lo, hi, low, high, s);
        TagIsCutPaintCollapse(l, lo, mid, low, mid, s);
        TagIsCutPaintCollapse(r, mid, hi, mid, high, s);
      }
  }

  // A request over both children is one on each of them.
  lemma SplitIsCutPaintCollapse(mid: nat, l: Tree, r: Tree, lo: nat, hi: nat, low: nat, high: nat, s: RangeState)
    requires Spans(l, lo, mid) && Spans(r, mid, hi) && Request(lo, hi, low, high, s) && low < mid < high
    ensures CutAndPaint(Fork(mid, l, r), lo, hi, low, high, s)
         == Fork(mid, CutAndPaint(l, lo, mid, low, mid, s), CutAndPaint(r, mid, hi, mid, high, s))
  {
    CutKeepsSpans(l, lo, mid, low);
    CutOutside(Cut(l, lo, mid, low), lo, mid, mid);
    CutOutside(r, mid, hi, mid);
    CutKeepsSpans(r, mid, hi, high);
    PaintClipped(Cut(l, lo, mid, low), lo, mid, low, high, low, mid, s);
    PaintClipped(Cut(r, mid, hi, high), mid, hi, low, high, mid, high, s);
  }

  lemma LeafIsCutPaintCollapse(old_: RangeState, lo: nat, hi: nat, low: nat, high: nat, s: RangeState)
    requires Request(lo, hi, low, high, s)
    ensures Tag(Leaf(old_), lo, hi, low, high, s) == Collapse(CutAndPaint(Leaf(old_), lo, hi, low, high, s))
  {
    var t, target := Leaf(old_), if old_ == Reserved then Leaf(old_) else Leaf(s);
    var cut := Cut(Cut(t, lo, hi, low), lo, hi, high);
    if low == lo && high == hi {
      assert cut == t;
    } else if low == lo {
      assert cut == Fork(high, t, t) && Paint(cut, lo, hi, low, high, s) == Fork(high, target, t);
    } else if high == hi {
      assert Cut(t, lo, hi, low) == Fork(low, t, t) && Cut(t, low, hi, high) == t;
      assert cut == Fork(low, t, t) && Paint(cut, lo, hi, low, high, s) == Fork(low, t, target);
    } else {
      var upper := Fork(high, t, t);
      assert Cut(t, lo, hi, low) == Fork(low, t, t) && Cut(t, low, hi, high) == upper && cut == Fork(low, t, upper);
      assert Paint(upper, low, hi, low, high, s) == Fork(high, target, t);
      assert Paint(cut, lo, hi, low, high, s) == Fork(low, t, Fork(high, target, t));
      assert Collapse(Fork(high, target, t)) == if target == t then t else Fork(high, target, t);
    }
  }

  // -------------------------------------------------------------------------
  // A piece that is taken and given back

  // [x, y) lies in one leaf.
  ghost predicate OneLeaf(t: Tree, lo: nat, hi: nat, x: nat, y: nat) {
    match t
    case Leaf(_) => lo <= x && y <= hi
    case Fork(mid, l, r) => (y <= mid && OneLeaf(l, lo, mid, x, y)) || (mid <= x && OneLeaf(r, mid, hi, x, y))
  }

  lemma {:induction false} OneLeafIsRun(t: Tree, lo: nat, hi: nat, x: nat, y: nat) returns (run: Run)
    requires OneLeaf(t, lo, hi, x, y) && x < y
    ensures run in Runs(t, lo, hi) && run.lo <= x && y <= run.hi && run.state == StateAt(t, x)
  {
    match t
    case Leaf(s) =>
      run := Run(lo, hi, s);
    case Fork(mid, l, r) =>
      if y <= mid {
        run := OneLeafIsRun(l, lo, mid, x, y);
      } else {
        run := OneLeafIsRun(r, mid, hi, x, y);
      }
  }

  // A tag that stays out of [x, y), or covers all of it, does not cut it.
  lemma {:induction false} TagKeepsOneLeaf(t: Tree, lo: nat, hi: nat, low: nat, high: nat, s: RangeState, x: nat,
                                           y: nat)
    requires Spans(t, lo, hi) && Request(lo, hi, low, high, s) && lo <= x < y <= hi && OneLeaf(t, lo, hi, x, y)
    requires high <= x || y <= low || (low <= x && y <= high)
    ensures OneLeaf(Tag(t, lo, hi, low, high, s), lo, hi, x, y)
  {
    if t.Fork? {
      var mid := t.mid;
      SpansOrder(t.left, lo, mid);
      SpansOrder(t.right, mid, hi);
      if low < mid && high <= mid {
        if y <= mid { TagKeepsOneLeaf(t.left, lo, mid, low, high, s, x, y); }
      } else if low >= mid {
        if y > mid { TagKeepsOneLeaf(t.right, mid, hi, low, high, s, x, y); }
      } else if y <= mid {
        TagKeepsOneLeaf(t.left, lo, mid, low, mid, s, x, y);
      } else {
        TagKeepsOneLeaf(t.right, mid, hi, mid, high, s, x, y);
      }
    }
  }

  // The fork over [low, end) holds a Used leaf [low, high) and a Free rest.
  ghost predicate Lent(t: Tree, lo: nat, hi: nat, low: nat, high: nat, end: nat) {
    && t.Fork?
    && (|| (lo == low && hi == end && t == Fork(high, Leaf(Used), Leaf(Free)))
        || (end <= t.mid && Lent(t.left, lo, t.mid, low, high, end))
        || (t.mid <= low && Lent(t.right, t.mid, hi, low, high, end)))
  }

  lemma {:induction false} TagKeepsLent(t: Tree, lo: nat, hi: nat, low: nat, high: nat, end: nat, op: TagOp)
    requires Spans(t, lo, hi) && lo <= low < high < end <= hi && Lent(t, lo, hi, low, high, end)
    requires Request(lo, hi, op.low, op.high, op.state) && (op.high <= low || end <= op.low)
    ensures Lent(Tag(t, lo, hi, op.low, op.high, op.state), lo, hi, low, high, end)
  {
    var mid := t.mid;
    SpansOrder(t.left, lo, mid);
    SpansOrder(t.right, mid, hi);
    if !(lo == low && hi == end) {
      if end <= mid && Lent(t.left, lo, mid, low, high, end) {
        if op.low < mid {
          var top := if op.high <= mid then op.high else mid;
          TagKeepsLent(t.left, lo, mid, low, high, end, TagOp(op.low, top, op.state));
        }
      } else if mid < op.high {
        var bottom := if op.low >= mid then op.low else mid;
        TagKeepsLent(t.right, mid, hi, low, high, end, TagOp(bottom, op.high, op.state));
      }
    }
  }

  lemma {:induction false} TakePiece(t: Tree, lo: nat, hi: nat, run: Run, low: nat, high: nat)
    requires Spans(t, lo, hi) && run in Runs(t, lo, hi) && run.state == Free
    requires run.lo <= low < high <= run.hi && Aligned(low) && Aligned(high)
    ensures var t' := Tag(t, lo, hi, low, high, Used);
            if high < run.hi then Lent(t', lo, hi, low, high, run.hi)
            else OneLeaf(t', lo, hi, low, high) && StateAt(t', low) == Used
  {
    RunGivesState(t, lo, hi, run, low);
    if t.Fork? {
      SpansOrder(t.left, lo, t.mid);
      SpansOrder(t.right, t.mid, hi);
      if run in Runs(t.left, lo, t.mid) {
        RunGivesState(t.left, lo, t.mid, run, low);
        TakePiece(t.left, lo, t.mid, run, low, high);
      } else {
        RunGivesState(t.right, t.mid, hi, run, low);
        TakePiece(t.right, t.mid, hi, run, low, high);
      }
    }
  }

  lemma {:induction false} GivePieceBack(t: Tree, lo: nat, hi: nat, low: nat, high: nat, end: nat)
    requires Spans(t, lo, hi) && lo <= low < high < end <= hi && Lent(t, lo, hi, low, high, end) && Aligned(low)
    requires Aligned(high)
    ensures var t' := Tag(t, lo, hi, low, high, Free); OneLeaf(t', lo, hi, low, end) && StateAt(t', low) == Free
  {
    SpansOrder(t.left, lo, t.mid);
    SpansOrder(t.right, t.mid, hi);
    if !(lo == low && hi == end && t == Fork(high, Leaf(Used), Leaf(Free))) {
      if end <= t.mid && Lent(t.left, lo, t.mid, low, high, end) {
        GivePieceBack(t.left, lo, t.mid, low, high, end);
      } else {
        GivePieceBack(t.right, t.mid, hi, low, high, end);
      }
    }
  }

  // None of the tags reaches into [x, y).
  ghost predicate AllOutside(ops: seq<TagOp>, x: nat, y: nat) {
    forall op :: op in ops ==> op.high <= x || y <= op.low
  }

  // What is true of a piece while it is in use, whatever is tagged around it.
  ghost predicate InUse(t: Tree, lo: nat, hi: nat, low: nat, high: nat, end: nat) {
    if high < end then Lent(t, lo, hi, low, high, end)
    else OneLeaf(t, lo, hi, low, high) && StateAt(t, low) == Used
  }

  lemma {:induction false} StaysInUse(t: Tree, lo: nat, hi: nat, low: nat, high: nat, end: nat, ops: seq<TagOp>)
    requires Spans(t, lo, hi) && lo <= low < high <= end <= hi && InUse(t, lo, hi, low, high, end)
    requires AllRequests(lo, hi, ops) && AllOutside(ops, low, end)
    ensures InUse(TagAll(t, lo, hi, ops), lo, hi, low, high, end)
    decreases |ops|
  {
    if ops != [] {
      var op := ops[0];
      assert op in ops && Request(lo, hi, op.low, op.high, op.state);
      TagKeepsShape(t, lo, hi, op.low, op.high, op.state);
      if high < end {
        TagKeepsLent(t, lo, hi, low, high, end, op);
      } else {
        TagKeepsOneLeaf(t, lo, hi, op.low, op.high, op.state, low, high);
        TagIsPointUpdate(t, lo, hi, op.low, op.high, op.state, low);
      }
      StaysInUse(Tag(t, lo, hi, op.low, op.high, op.state), lo, hi, low, high, end, ops[1..]);
    }
  }

  // The tree after a piece of a Free leaf was taken, other tags came and went around it, and it was freed.
  ghost function TakenAndFreed(t: Tree, lo: nat, hi: nat, low: nat, high: nat, ops: seq<TagOp>): Tree {
    Tag(TagAll(Tag(t, lo, hi, low, high, Used), lo, hi, ops), lo, hi, low, high, Free)
  }

  // A piece [low, high) taken out of a Free leaf and freed again is one Free leaf with the rest of that leaf above
  // it, after any sequence of tags that stay out of both: in the middle of a leaf, the upper cut is the inner one.
  lemma FreedPieceRejoins(t: Tree, lo: nat, hi: nat, run: Run, low: nat, high: nat, ops: seq<TagOp>)
    requires Spans(t, lo, hi) && run in Runs(t, lo, hi) && run.state == Free
    requires run.lo <= low < high <= run.hi && Aligned(low) && Aligned(high)
    requires AllRequests(lo, hi, ops) && AllOutside(ops, low, run.hi)
    ensures exists r :: r in Runs(TakenAndFreed(t, lo, hi, low, high, ops), lo, hi)
                        && r.state == Free && r.lo <= low && run.hi <= r.hi
  {
    RunGivesState(t, lo, hi, run, low);
    TagKeepsShape(t, lo, hi, low, high, Used);
    TakePiece(t, lo, hi, run, low, high);
    StaysInUse(Tag(t, lo, hi, low, high, Used), lo, hi, low, high, run.hi, ops);
    TagAllSpans(Tag(t, lo, hi, low, high, Used), lo, hi, ops);
    var now := TagAll(Tag(t, lo, hi, low, high, Used), lo, hi, ops);
    if high < run.hi {
      GivePieceBack(now, lo, hi, low, high, run.hi);
    } else {
      TagKeepsOneLeaf(now, lo, hi, low, high, Free, low, high);
      TagIsPointUpdate(now, lo, hi, low, high, Free, low);
    }
    var r := OneLeafIsRun(TakenAndFreed(t, lo, hi, low, high, ops), lo, hi, low, run.hi);
  }

  // So a later search for at most that much succeeds, unless the joined leaf reaches down to address 0.
  lemma FreedPieceIsFound(t: Tree, lo: nat, hi: nat, run: Run, low: nat, high: nat, ops: seq<TagOp>, n: nat)
    requires Spans(t, lo, hi) && run in Runs(t, lo, hi) && run.state == Free
    requires run.lo <= low < high <= run.hi && Aligned(low) && Aligned(high)
    requires AllRequests(lo, hi, ops) && AllOutside(ops, low, run.hi)
    requires n <= run.hi - low
    ensures var t' := TakenAndFreed(t, lo, hi, low, high, ops);
            StateAt(t', 0) != Free || lo > 0 ==> 0 < FirstFit(Runs(t', lo, hi), n) <= low
  {
    var t' := TakenAndFreed(t, lo, hi, low, high, ops);
    RunGivesState(t, lo, hi, run, low);
    FreedPieceRejoins(t, lo, hi, run, low, high, ops);
    var r :| r in Runs(t', lo, hi) && r.state == Free && r.lo <= low && run.hi <= r.hi;
    TakenAndFreedSpans(t, lo, hi, low, high, ops);
    RunGivesState(t', lo, hi, r, r.lo);
    FitIsLowest(t', lo, hi, n);
  }

  lemma TakenAndFreedSpans(t: Tree, lo: nat, hi: nat, low: nat, high: nat, ops: seq<TagOp>)
    requires Spans(t, lo, hi) && AllRequests(lo, hi, ops)
    requires Request(lo, hi, low, high, Used)
    ensures Spans(TakenAndFreed(t, lo, hi, low, high, ops), lo, hi)
  {
    TagKeepsShape(t, lo, hi, low, high, Used);
    TagAllSpans(Tag(t, lo, hi, low, high, Used), lo, hi, ops);
    TagKeepsShape(TagAll(Tag(t, lo, hi, low, high, Used), lo, hi, ops), lo, hi, low, high, Free);
  }

  lemma {:induction false} TagAllSpans(t: Tree, lo: nat, hi: nat, ops: seq<TagOp>)
    requires Spans(t, lo, hi) && AllRequests(lo, hi, ops)
    ensures Spans(TagAll(t, lo, hi, ops), lo, hi)
    decreases |ops|
  {
    if ops != [] {
      var op := ops[0];
      assert op in ops && Request(lo, hi, op.low, op.high, op.state);
      TagKeepsShape(t, lo, hi, op.low, op.high, op.state);
      TagAllSpans(Tag(t, lo, hi, op.low, op.high, op.state), lo, hi, ops[1..]);
    }
  }
}
