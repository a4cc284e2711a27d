/** The fixed-size ring buffer, as a refinement of a bounded first-in-first-out sequence. */
module Ring {

  // -------------------------------------------------------------------------
  // The sequence behind the buffer

  function Last<T>(s: seq<T>, n: nat): seq<T> {
    if |s| <= n then s else s[|s| - n..]
  }

  // One Push: refused when full, or pushing out the oldest item.
  function Pushed<T>(s: seq<T>, item: T, size: nat, dropOnFull: bool): seq<T>
    requires size > 0
  {
    if |s| < size then s + [item]
    else if dropOnFull then s[1..] + [item]
    else s
  }

  function PushedAll<T>(s: seq<T>, items: seq<T>, size: nat, dropOnFull: bool): seq<T>
    requires size > 0
    decreases |items|
  {
    if items == [] then s else PushedAll(Pushed(s, items[0], size, dropOnFull), items[1..], size, dropOnFull)
  }

  lemma LastSkips<T>(x: T, rest: seq<T>, n: nat)
    requires |rest| >= n
    ensures Last([x] + rest, n) == Last(rest, n)
  {
  }

  lemma PushShifts<T>(s: seq<T>, items: seq<T>, size: nat)
    requires 0 < |s| == size && items != []
    ensures s + items == [s[0]] + (Pushed(s, items[0], size, true) + items[1..])
  {
  }

  // With DropOnFull a run of pushes leaves the last `size` of everything there was.
  lemma {:induction false} DropKeepsLast<T>(s: seq<T>, items: seq<T>, size: nat)
    requires size > 0 && |s| <= size
    ensures PushedAll(s, items, size, true) == Last(s + items, size)
    decreases |items|
  {
    if items == [] {
      assert s + items == s;
    } else {
      var t := Pushed(s, items[0], size, true);
      DropKeepsLast(t, items[1..], size);
      if |s| < size {
        assert t + items[1..] == s + items;
      } else {
        PushShifts(s, items, size);
        LastSkips(s[0], t + items[1..], size);
      }
    }
  }

  // Without it the first `size` stay and later pushes are refused.
  lemma {:induction false} RefuseKeepsFirst<T>(s: seq<T>, items: seq<T>, size: nat)
    requires size > 0 && |s| <= size
    ensures PushedAll(s, items, size, false) == if |s + items| <= size then s + items else (s + items)[..size]
    decreases |items|
  {
    if items == [] {
      assert s + items == s;
    } else if |s| < size {
      RefuseKeepsFirst(s + [items[0]], items[1..], size);
      assert (s + [items[0]]) + items[1..] == s + items;
    } else {
      FullRefuses(s, items, size);
      assert (s + items)[..size] == s;
    }
  }

  lemma {:induction false} FullRefuses<T>(s: seq<T>, items: seq<T>, size: nat)
    requires 0 < size == |s|
    ensures PushedAll(s, items, size, false) == s
    decreases |items|
  {
    if items != [] {
      FullRefuses(s, items[1..], size);
    }
  }

  // n single Pops: each takes the first item, an empty buffer gives nothing.
  function PoppedOneByOne<T>(s: seq<T>, n: nat): (seq<T>, seq<T>)
    decreases n
  {
    if n == 0 || s == [] then ([], s)
    else
      var (out, rest) := PoppedOneByOne(s[1..], n - 1);
      ([s[0]] + out, rest)
  }

  // What PopElements takes, and what it leaves. Asked for nothing, a full buffer is emptied: its two
  // positions coincide, and clearing the full mark makes that mean empty.
  function Taken<T>(s: seq<T>, n: nat): seq<T> {
    if n < |s| then s[..n] else s
  }

  function Left<T>(s: seq<T>, n: nat, size: nat): seq<T> {
    if n == 0 && |s| == size then [] else s[|Taken(s, n)|..]
  }

  // PopElements(n) equals min(n, length) single Pops, except exactly on the call that drops a full buffer.
  lemma {:induction false} BlockPopIsSinglePops<T>(s: seq<T>, n: nat, size: nat)
    requires size > 0 && |s| <= size
    ensures (Taken(s, n), Left(s, n, size)) == PoppedOneByOne(s, n) <==> !(n == 0 && |s| == size)
    ensures n == 0 && |s| == size ==> Taken(s, n) == [] && Left(s, n, size) == []
  {
    PopsSplit(s, n);
  }

  lemma {:induction false} PopsSplit<T>(s: seq<T>, n: nat)
    ensures PoppedOneByOne(s, n) == (Taken(s, n), s[|Taken(s, n)|..])
    decreases n
  {
    TakenIsPrefix(s, n);
    if n > 0 && s != [] {
      PopsSplit(s[1..], n - 1);
      TakenIsPrefix(s[1..], n - 1);
      TakeOneMore(s, |Taken(s, n)|);
    } else {
      assert s[0..] == s && s[..0] == [];
    }
  }

  lemma TakenIsPrefix<T>(s: seq<T>, n: nat)
    ensures |Taken(s, n)| == (if n < |s| then n else |s|) && Taken(s, n) == s[..|Taken(s, n)|]
  {
  }

  lemma TakeOneMore<T>(s: seq<T>, k: nat)
    requires 0 < k <= |s|
    ensures s[..k] == [s[0]] + s[1..][..k - 1] && s[k..] == s[1..][k - 1..]
  {
  }

  // -------------------------------------------------------------------------
  // Any mix of operations

  datatype Use<T> = PushItem(item: T) | PopItem | PopBlock(count: nat) | Reset

  function After<T>(s: seq<T>, use: Use<T>, size: nat, dropOnFull: bool): seq<T>
    requires size > 0
  {
    match use
    case PushItem(item) => Pushed(s, item, size, dropOnFull)
    case PopItem => if s == [] then [] else s[1..]
    case PopBlock(count) => Left(s, count, size)
    case Reset => []
  }

  // The items that go in and the items that are handed out.
  function Entering<T>(s: seq<T>, use: Use<T>, size: nat, dropOnFull: bool): seq<T> {
    if use.PushItem? && (|s| < size || dropOnFull) then [use.item] else []
  }

  function Leaving<T>(s: seq<T>, use: Use<T>): seq<T> {
    match use
    case PopItem => if s == [] then [] else [s[0]]
    case PopBlock(count) => Taken(s, count)
    case _ => []
  }

  function AfterAll<T>(s: seq<T>, uses: seq<Use<T>>, size: nat, dropOnFull: bool): seq<T>
    requires size > 0
    decreases |uses|
  {
    if uses == [] then s else AfterAll(After(s, uses[0], size, dropOnFull), uses[1..], size, dropOnFull)
  }

  function AllEntering<T>(s: seq<T>, uses: seq<Use<T>>, size: nat, dropOnFull: bool): seq<T>
    requires size > 0
    decreases |uses|
  {
    if uses == [] then []
    else Entering(s, uses[0], size, dropOnFull)
         + AllEntering(After(s, uses[0], size, dropOnFull), uses[1..], size, dropOnFull)
  }

  function AllLeaving<T>(s: seq<T>, uses: seq<Use<T>>, size: nat, dropOnFull: bool): seq<T>
    requires size > 0
    decreases |uses|
  {
    if uses == [] then []
    else Leaving(s, uses[0]) + AllLeaving(After(s, uses[0], size, dropOnFull), uses[1..], size, dropOnFull)
  }

  // An operation that throws stored items away: a push that drops the oldest, a reset, or PopElements(0) on a
  // full buffer.
  predicate Discards<T>(s: seq<T>, use: Use<T>, size: nat, dropOnFull: bool) {
    match use
    case PushItem(_) => |s| >= size && dropOnFull
    case PopItem => false
    case PopBlock(count) => count == 0 && |s| == size
    case Reset => |s| > 0
  }

  predicate NeverDiscards<T>(s: seq<T>, uses: seq<Use<T>>, size: nat, dropOnFull: bool)
    requires size > 0
    decreases |uses|
  {
    uses != [] ==>
      && !Discards(s, uses[0], size, dropOnFull)
      && NeverDiscards(After(s, uses[0], size, dropOnFull), uses[1..], size, dropOnFull)
  }

  ghost predicate Suffix<T>(part: seq<T>, whole: seq<T>) {
    |part| <= |whole| && part == whole[|whole| - |part|..]
  }

  // What was stored or entered has left or is stored, in order, unless some of it was thrown away.
  ghost predicate Accounted<T>(before: seq<T>, leaving: seq<T>, after: seq<T>, discarded: bool) {
    if discarded then |leaving| + |after| < |before| else leaving + after == before
  }

  lemma OneUse<T>(s: seq<T>, use: Use<T>, size: nat, dropOnFull: bool)
    requires size > 0 && |s| <= size
    ensures |After(s, use, size, dropOnFull)| <= size
    ensures Suffix(After(s, use, size, dropOnFull), s + Entering(s, use, size, dropOnFull))
    ensures Accounted(s + Entering(s, use, size, dropOnFull), Leaving(s, use), After(s, use, size, dropOnFull),
                      Discards(s, use, size, dropOnFull))
  {
    match use
    case PushItem(item) => OnePush(s, item, size, dropOnFull);
    case PopItem =>
      if s != [] {
        SplitAt(s, 1);
        assert s[..1] == [s[0]];
      }
      assert s + [] == s;
    case PopBlock(count) =>
      TakenIsPrefix(s, count);
      SplitAt(s, |Taken(s, count)|);
      assert s + [] == s;
    case Reset => assert s + [] == s;
  }

  lemma SplitAt<T>(s: seq<T>, k: nat)
    requires k <= |s|
    ensures s[..k] + s[k..] == s && Suffix(s[k..], s)
  {
  }

  lemma OnePush<T>(s: seq<T>, item: T, size: nat, dropOnFull: bool)
    requires size > 0 && |s| <= size
    ensures var use := PushItem(item);
            var after := After(s, use, size, dropOnFull);
            && |after| <= size && Suffix(after, s + Entering(s, use, size, dropOnFull))
            && Accounted(s + Entering(s, use, size, dropOnFull), [], after, Discards(s, use, size, dropOnFull))
  {
    if |s| == size && dropOnFull {
      assert s + [item] == [s[0]] + (s[1..] + [item]);
    } else if |s| < size {
      assert [] + (s + [item]) == s + [item];
    } else {
      assert s + [] == s && [] + s == s;
    }
  }

  lemma SuffixStep<T>(s: seq<T>, first: seq<T>, t: seq<T>, rest: seq<T>, held: seq<T>)
    requires Suffix(t, s + first) && Suffix(held, t + rest)
    ensures Suffix(held, s + (first + rest))
  {
    assert s + (first + rest) == (s + first) + rest;
    assert ((s + first) + rest)[|s + first| - |t|..] == t + rest;
  }

  // Over any mix of operations the buffer holds at most `size` items, and they are the last ones of everything
  // that was stored at first or has entered since.
  lemma {:induction false} HoldsLastEntered<T>(s: seq<T>, uses: seq<Use<T>>, size: nat, dropOnFull: bool)
    requires size > 0 && |s| <= size
    ensures |AfterAll(s, uses, size, dropOnFull)| <= size
    ensures Suffix(AfterAll(s, uses, size, dropOnFull), s + AllEntering(s, uses, size, dropOnFull))
    decreases |uses|
  {
    if uses == [] {
      assert s + [] == s;
    } else {
      var t := After(s, uses[0], size, dropOnFull);
      OneUse(s, uses[0], size, dropOnFull);
      HoldsLastEntered(t, uses[1..], size, dropOnFull);
      SuffixStep(s, Entering(s, uses[0], size, dropOnFull), t, AllEntering(t, uses[1..], size, dropOnFull),
                 AfterAll(t, uses[1..], size, dropOnFull));
    }
  }

  // Every item leaves once, in the order of entering, or is still held, if and only if no operation throws items
  // away.
  lemma {:induction false} FirstInFirstOut<T>(s: seq<T>, uses: seq<Use<T>>, size: nat, dropOnFull: bool)
    requires size > 0 && |s| <= size
    ensures AllLeaving(s, uses, size, dropOnFull) + AfterAll(s, uses, size, dropOnFull)
            == s + AllEntering(s, uses, size, dropOnFull)
       <==> NeverDiscards(s, uses, size, dropOnFull)
    ensures |AllLeaving(s, uses, size, dropOnFull)| + |AfterAll(s, uses, size, dropOnFull)|
         <= |s| + |AllEntering(s, uses, size, dropOnFull)|
    decreases |uses|
  {
    if uses == [] {
      assert [] + s == s + [];
    } else {
      var t := After(s, uses[0], size, dropOnFull);
      OneUse(s, uses[0], size, dropOnFull);
      FirstInFirstOut(t, uses[1..], size, dropOnFull);
      JoinStep(s, Entering(s, uses[0], size, dropOnFull), Leaving(s, uses[0]), t,
               AllEntering(t, uses[1..], size, dropOnFull), AllLeaving(t, uses[1..], size, dropOnFull),
               AfterAll(t, uses[1..], size, dropOnFull));
    }
  }

  lemma JoinStep<T>(s: seq<T>, enter: seq<T>, leave: seq<T>, t: seq<T>, enters: seq<T>, leaves: seq<T>, held: seq<T>)
    requires leave + t == s + enter || |leave| + |t| < |s| + |enter|
    requires |leaves| + |held| <= |t| + |enters|
    ensures |leave + leaves| + |held| <= |s| + |enter + enters|
    ensures (leave + leaves) + held == s + (enter + enters)
       <==> leave + t == s + enter && leaves + held == t + enters
  {
    if leave + t == s + enter {
      assert (leave + leaves) + held == leave + (leaves + held);
      assert s + (enter + enters) == (s + enter) + enters == (leave + t) + enters == leave + (t + enters);
      if leave + (leaves + held) == leave + (t + enters) {
        assert leaves + held == (leave + (leaves + held))[|leave|..];
        assert t + enters == (leave + (t + enters))[|leave|..];
      }
    } else {
      assert |(leave + leaves) + held| < |s + (enter + enters)|;
    }
  }

  // -------------------------------------------------------------------------
  // A window of n items of a circular store, starting at `tail`

  function Position(tail: nat, i: nat, size: nat): nat {
    if tail + i < size then tail + i else tail + i - size
  }

  ghost function Window<T>(store: seq<T>, tail: nat, n: nat): (w: seq<T>)
    requires tail < |store| && n <= |store|
    ensures |w| == n
  {
    seq(n, i requires 0 <= i < n => store[Position(tail, i, |store|)])
  }

  lemma Wrap(a: nat, k: nat, size: nat)
    requires a < size && k <= size
    ensures (a + k) % size == if a + k < size then a + k else a + k - size
  {
    if a + k >= size {
      ModSub(a + k, size);
    }
  }

  lemma ModSub(x: nat, m: nat)
    requires 0 < m <= x < 2 * m
    ensures x % m == x - m
  {
    assert x / m == 1 by {
      assert x == m * (x / m) + x % m;
      if x / m >= 2 { MulMonotone(m, 2, x / m); }
    }
  }

  lemma MulMonotone(m: nat, a: nat, b: nat)
    requires a <= b
    ensures m * a <= m * b
  {
  }

  lemma WindowDrop<T>(store: seq<T>, tail: nat, n: nat, k: nat)
    requires tail < |store| && k <= n <= |store|
    ensures (tail + k) % |store| < |store|
    ensures Window(store, (tail + k) % |store|, n - k) == Window(store, tail, n)[k..]
  {
    Wrap(tail, k, |store|);
  }

  lemma WindowAppend<T>(store: seq<T>, tail: nat, n: nat, item: T)
    requires tail < |store| && n < |store|
    ensures Window(store[Position(tail, n, |store|) := item], tail, n + 1) == Window(store, tail, n) + [item]
  {
  }

  // Number of items between the two positions.
  function Distance(head: nat, tail: nat, isFull: bool, size: nat): (n: nat)
    requires head < size && tail < size
    ensures n <= size
  {
    if isFull then size
    else if head >= tail then head - tail
    else size - tail + head
  }

  // -------------------------------------------------------------------------
  // The buffer

  class RingBuffer<T(0)> {
    const size: nat
    const dropOnFull: bool
    const buffer: array<T>
    var head: nat
    var tail: nat
    var isFull: bool

    ghost predicate Valid()
      reads this
    {
      size > 0 && buffer.Length == size && head < size && tail < size && (isFull ==> head == tail)
    }

    predicate IsEmpty()
      reads this
    {
      !isFull && head == tail
    }

    ghost function Count(): (n: nat)
      requires Valid()
      reads this
      ensures n <= size
      ensures head == Position(tail, n, size) || (n == size && head == tail)
    {
      Distance(head, tail, isFull, size)
    }

    // The items from oldest to newest.
    ghost function Contents(): seq<T>
      requires Valid()
      reads this, buffer
    {
      Window(buffer[..], tail, Count())
    }

    constructor (size: nat, dropOnFull: bool)
      requires size > 0
      ensures Valid() && fresh(buffer) && Contents() == []
      ensures this.size == size && this.dropOnFull == dropOnFull
    {
      this.size, this.dropOnFull := size, dropOnFull;
      buffer := new T[size];
      head, tail, isFull := 0, 0, false;
    }

    method Push(item: T) returns (ok: bool)
      requires Valid()
      modifies this, buffer
      ensures Valid()
      ensures Contents() == Pushed(old(Contents()), item, size, dropOnFull)
      ensures ok == (old(|Contents()|) < size || dropOnFull)
    {
      if isFull {
        if dropOnFull {
          DropOldest();
        } else {
          return false;
        }
      }
      ghost var kept, n := Contents(), Count();
      WindowAppend(buffer[..], tail, n, item);
      Wrap(head, 1, size);
      ghost var store := buffer[..][head := item];
      buffer[head] := item;
      assert buffer[..] == store;
      head := (head + 1) % size;
      if head == tail {
        isFull := true;
      }
      assert Count() == n + 1;
      return true;
    }

    // The private Pop without a result.
    method DropOldest()
      requires Valid()
      modifies this
      ensures Valid()
      ensures Contents() == if old(Contents()) == [] then [] else old(Contents())[1..]
    {
      if !IsEmpty() {
        WindowDrop(buffer[..], tail, Count(), 1);
        Wrap(tail, 1, size);
        tail := (tail + 1) % size;
        isFull := false;
      }
    }

    method Pop() returns (ok: bool, item: T)
      requires Valid()
      modifies this
      ensures Valid()
      ensures ok == (old(Contents()) != [])
      ensures ok ==> item == old(Contents())[0] && Contents() == old(Contents())[1..]
      ensures !ok ==> Contents() == []
    {
      if IsEmpty() {
        ok := false;
        item := *;
        return;
      }
      WindowDrop(buffer[..], tail, Count(), 1);
      Wrap(tail, 1, size);
      item := buffer[tail];
      tail := (tail + 1) % size;
      isFull := false;
      ok := true;
    }

    method Clear()
      requires Valid()
      modifies this
      ensures Valid() && Contents() == []
    {
      head, tail, isFull := 0, 0, false;
    }

    method PopElements(output: array<T>, count: nat) returns (elementsCount: nat)
      requires Valid() && output != buffer
      requires |Taken(Contents(), count)| <= output.Length
      modifies this, output
      ensures Valid()
      ensures elementsCount == |Taken(old(Contents()), count)|
      ensures output[..elementsCount] == Taken(old(Contents()), count)
      ensures forall i :: elementsCount <= i < output.Length ==> output[i] == old(output[i])
      ensures Contents() == Left(old(Contents()), count, size)
    {
      elementsCount := 0;
      if !IsEmpty() {
        if isFull {
          elementsCount := size;
        } else if head > tail {
          elementsCount := head - tail;
        } else {
          elementsCount := size - tail + head;
        }
        if count < elementsCount {
          elementsCount := count;
        }
        CopyOut(output, elementsCount);
        Advance(elementsCount);
      }
    }

    // Moves the tail over the items that were copied out.
    method Advance(elementsCount: nat)
      requires Valid() && elementsCount <= Count() && !IsEmpty()
      modifies this
      ensures Valid()
      ensures Contents() == if elementsCount == 0 && old(isFull) then [] else old(Contents())[elementsCount..]
    {
      WindowDrop(buffer[..], tail, Count(), elementsCount);
      Wrap(tail, elementsCount, size);
      tail := (tail + elementsCount) % size;
      isFull := false;
    }

    // The copy loops of PopElements: straight, or in two parts across the end of the buffer.
    method CopyOut(output: array<T>, elementsCount: nat)
      requires Valid() && output != buffer && elementsCount <= Count() && elementsCount <= output.Length
      modifies output
      ensures output[..elementsCount] == Contents()[..elementsCount]
      ensures forall i :: elementsCount <= i < output.Length ==> output[i] == old(output[i])
    {
      if head > tail {
        for i := 0 to elementsCount
          invariant forall k :: 0 <= k < i ==> output[k] == Contents()[k]
          invariant forall k :: i <= k < output.Length ==> output[k] == old(output[k])
        {
          output[i] := buffer[tail + i];
        }
      } else {
        var firstPart := size - tail;
        if firstPart > elementsCount {
          firstPart := elementsCount;
        }
        for i := 0 to firstPart
          invariant forall k :: 0 <= k < i ==> output[k] == Contents()[k]
          invariant forall k :: i <= k < output.Length ==> output[k] == old(output[k])
        {
          output[i] := buffer[tail + i];
        }
        for i := 0 to elementsCount - firstPart
          invariant forall k :: 0 <= k < firstPart + i ==> output[k] == Contents()[k]
          invariant forall k :: firstPart + i <= k < output.Length ==> output[k] == old(output[k])
        {
          output[firstPart + i] := buffer[i];
        }
      }
    }
  }
}
