/** The cursors over the chunks of a function and over the parents of a function tail. */
module FuncIterators {
  datatype Area = Area(startEA: nat, endEA: nat)

  predicate IsEmpty(a: Area) {
    a.startEA >= a.endEA
  }

  /**
   func_t as the iterators see it: an entry chunk with tails, or a tail with referers. The number of
   referers shares its storage with the size of the local variables, so in an entry chunk it is any number.
   */
  class Func {
    const entry: Area
    const isTail: bool
    const tails: seq<Area>
    const refqty: int
    const referers: seq<nat>

    predicate Valid() {
      isTail ==> refqty == |referers|
    }

    constructor (entry: Area, isTail: bool, tails: seq<Area>, refqty: int, referers: seq<nat>)
      requires isTail ==> refqty == |referers|
      ensures this.entry == entry && this.isTail == isTail && this.tails == tails
      ensures this.refqty == refqty && this.referers == referers && Valid()
    {
      this.entry, this.isTail, this.tails, this.refqty, this.referers := entry, isTail, tails, refqty, referers;
    }

    /** All chunks, the entry chunk first. */
    function Chunks(): (s: seq<Area>)
      ensures |s| == |tails| + 1
    {
      [entry] + tails
    }
  }

  function Reverse<T>(s: seq<T>): (r: seq<T>)
    ensures |r| == |s|
  {
    if s == [] then [] else Reverse(s[1..]) + [s[0]]
  }

  lemma ReverseNothing<T>()
    ensures Reverse<T>([]) == []
  {}

  lemma {:induction false} ReverseAppend<T>(s: seq<T>, x: T)
    ensures Reverse(s + [x]) == [x] + Reverse(s)
  {
    if s != [] {
      ReverseAppend(s[1..], x);
      assert (s + [x])[1..] == s[1..] + [x];
    }
  }

  /** Reading backwards what was read backwards gives the forward reading. */
  lemma ReverseTail<T>(x: T, s: seq<T>)
    ensures Reverse([x] + s) == Reverse(s) + [x]
  {
    assert ([x] + s)[1..] == s;
  }

  /** Element k from the front is element k from the back. */
  lemma {:induction false} ReverseAt<T>(s: seq<T>, k: nat)
    requires k < |s|
    ensures Reverse(s)[k] == s[|s| - 1 - k]
  {
    if |s| > 1 && k < |s| - 1 {
      ReverseAt(s[1..], k);
    }
  }

  lemma {:induction false} ReverseReverse<T>(s: seq<T>)
    ensures Reverse(Reverse(s)) == s
  {
    if s != [] {
      ReverseReverse(s[1..]);
      ReverseAppend(Reverse(s[1..]), s[0]);
    }
  }

  /** The calls that move a cursor. */
  datatype Call = MainChunk | First | Last | Next | Prev

  class TailIterator {
    var pfn: Func?
    var idx: int
    var seglim: Area

    /** A cursor is on the entry chunk (-1), on a tail, or on the missing first tail of a function without tails. */
    ghost predicate Valid()
      reads this
    {
      && -1 <= idx
      && (pfn == null ==> idx == -1)
      && (pfn != null ==> idx < |pfn.tails| || idx == 0 == |pfn.tails|)
    }

    /** The cursor is on a chunk. */
    ghost predicate OnChunk()
      reads this
    {
      Valid() && pfn != null && idx < |pfn.tails|
    }

    constructor OfFunc(f: Func)
      ensures Valid() && pfn == f && idx == -1
    {
      pfn, idx, seglim := f, -1, Area(0, 0);
    }

    /** set_range(): one range, and no function. */
    constructor OfRange(ea1: nat, ea2: nat)
      ensures Valid() && pfn == null && seglim == Area(ea1, ea2)
    {
      pfn, idx, seglim := null, -1, Area(ea1, ea2);
    }

    method SetRange(ea1: nat, ea2: nat) returns (ok: bool)
      modifies this
      ensures Valid() && pfn == null && seglim == Area(ea1, ea2)
      ensures ok <==> ea1 < ea2
    {
      pfn := null;
      idx := -1;
      seglim := Area(ea1, ea2);
      ok := !IsEmpty(seglim);
    }

    function Chunk(): (a: Area)
      requires pfn == null || OnChunk()
      reads this
      ensures pfn == null ==> a == seglim
      ensures pfn != null ==> a == (if idx < 0 then pfn.entry else pfn.tails[idx]) && a == pfn.Chunks()[idx + 1]
    {
      if pfn == null then seglim else if idx >= 0 then pfn.tails[idx] else pfn.entry
    }

    method MainChunk() returns (ok: bool)
      requires Valid()
      modifies `idx
      ensures Valid() && (ok <==> pfn != null)
      ensures ok ==> OnChunk() && idx == -1
    {
      idx := -1;
      ok := pfn != null;
    }

    method First() returns (ok: bool)
      requires Valid()
      modifies `idx
      ensures Valid() && (ok <==> pfn != null && |pfn.tails| > 0)
      ensures idx == (if pfn != null then 0 else old(idx)) && (ok ==> OnChunk())
    {
      if pfn != null {
        idx := 0;
        ok := |pfn.tails| > 0;
      } else {
        ok := false;
      }
    }

    method Last() returns (ok: bool)
      requires Valid()
      modifies `idx
      ensures Valid() && (ok <==> pfn != null)
      ensures ok ==> OnChunk() && idx == |pfn.tails| - 1
    {
      ok := false;
      if pfn != null {
        idx := |pfn.tails| - 1;
        ok := true;
      }
    }

    method Next() returns (ok: bool)
      requires Valid()
      modifies `idx
      ensures Valid()
      ensures ok <==> pfn != null && old(idx) + 1 < |pfn.tails|
      ensures idx == old(idx) + (if ok then 1 else 0) && (ok ==> OnChunk())
    {
      ok := false;
      if pfn != null && idx + 1 < |pfn.tails| {
        idx := idx + 1;
        ok := true;
      }
    }

    method Prev() returns (ok: bool)
      requires Valid()
      modifies `idx
      ensures Valid() && (ok <==> old(idx) >= 0)
      ensures idx == old(idx) - (if ok then 1 else 0) && (ok ==> OnChunk())
    {
      ok := false;
      if idx >= 0 {
        idx := idx - 1;
        ok := true;
      }
    }

    method Do(call: Call) returns (ok: bool)
      requires Valid()
      modifies `idx
      ensures Valid() && (ok ==> OnChunk())
      ensures pfn == null ==> !ok
      ensures pfn != null ==> (idx, ok) == CallResult(|pfn.tails|, old(idx), call)
    {
      match call
      case MainChunk => ok := MainChunk();
      case First => ok := First();
      case Last => ok := Last();
      case Next => ok := Next();
      case Prev => ok := Prev();
    }

    /** next() until it fails visits the chunks behind the cursor, in order. */
    method NextAll() returns (visited: seq<Area>)
      requires OnChunk()
      modifies `idx
      ensures OnChunk() && idx == |pfn.tails| - 1
      ensures visited == old(pfn.Chunks()[idx + 2..])
    {
      visited := [];
      ghost var from := idx;
      var ok := Next();
      while ok
        invariant OnChunk() && from <= idx
        invariant ok ==> from < idx && visited == pfn.Chunks()[from + 2..idx + 1]
        invariant !ok ==> idx == |pfn.tails| - 1 && visited == pfn.Chunks()[from + 2..idx + 2]
        decreases ok, |pfn.tails| - idx
      {
        visited := visited + [Chunk()];
        ok := Next();
      }
    }

    /** prev() until it fails visits the chunks before the cursor, backwards. */
    method PrevAll() returns (visited: seq<Area>)
      requires OnChunk()
      modifies `idx
      ensures OnChunk() && idx == -1
      ensures visited == Reverse(old(pfn.Chunks()[..idx + 1]))
    {
      hide Reverse;
      visited := [];
      ghost var all := pfn.Chunks()[..idx + 1];
      ReverseNothing<Area>();
      assert all[..|all|] == all;
      var ok := Prev();
      while ok
        invariant OnChunk() && idx + 1 <= |all| && all <= pfn.Chunks()
        invariant ok ==> idx + 1 < |all| && Reverse(all) == visited + Reverse(all[..idx + 2])
        invariant !ok ==> idx == -1 && Reverse(all) == visited
        decreases ok, idx
      {
        ReverseAppend(all[..idx + 1], Chunk());
        assert all[..idx + 2] == all[..idx + 1] + [Chunk()];
        visited := visited + [Chunk()];
        ok := Prev();
      }
    }

    /** main() and next(): the entry chunk, then each tail once. */
    method Forward() returns (visited: seq<Area>)
      requires Valid() && pfn != null
      modifies `idx
      ensures visited == [pfn.entry] + pfn.tails
    {
      var ok := MainChunk();
      var entry := Chunk();
      visited := NextAll();
      visited := [entry] + visited;
    }

    /** first() and next(): the tails only. */
    method TailsOnly() returns (visited: seq<Area>)
      requires Valid() && pfn != null
      modifies `idx
      ensures visited == pfn.tails
    {
      visited := [];
      var ok := First();
      if ok {
        var head := Chunk();
        visited := NextAll();
        visited := [head] + visited;
      }
    }

    /** last() and prev(): exactly the reverse of main() and next(). */
    method Backward() returns (visited: seq<Area>)
      requires Valid() && pfn != null
      modifies `idx
      ensures visited == Reverse(pfn.tails) + [pfn.entry]
      ensures visited == Reverse([pfn.entry] + pfn.tails)
    {
      ReverseTail(pfn.entry, pfn.tails);
      var ok := Last();
      var final := Chunk();
      ghost var before := pfn.Chunks()[..idx + 1];
      ReverseAppend(before, final);
      assert pfn.Chunks() == before + [final];
      visited := PrevAll();
      visited := [final] + visited;
    }

    /** Any calls whatever: the chunks seen are exactly those that the true answers stand for, and a range stays the range. */
    method RunCalls(calls: seq<Call>) returns (shown: seq<Area>)
      requires Valid()
      modifies `idx
      ensures Valid()
      ensures pfn == null ==> shown == [] && idx == -1 && Chunk() == seglim
      ensures pfn != null ==> && shown == Shown(pfn.Chunks(), old(idx), calls)
                              && idx == EndOf(|pfn.tails|, old(idx), calls)
    {
      hide Seen, Shown, EndOf, CallResult;
      shown := [];
      ghost var chunks := if pfn == null then [] else pfn.Chunks();
      if pfn != null {
        SeenStarts(chunks, idx, calls);
      }
      for i := 0 to |calls|
        invariant Valid() && (pfn == null ==> shown == [])
        invariant pfn != null ==> Seen(chunks, old(idx), calls, i, idx, shown)
      {
        if pfn != null {
          SeenStep(chunks, old(idx), calls, i, idx, shown);
        }
        var ok := Do(calls[i]);
        if ok {
          shown := shown + [Chunk()];
        }
      }
      if pfn != null {
        SeenEnds(chunks, old(idx), calls, idx, shown);
      }
    }
  }

  /** After `i` calls the cursor is at `idx` and `shown` was seen: what is still to come leads to the specified result. */
  ghost predicate Seen(chunks: seq<Area>, start: int, calls: seq<Call>, i: nat, idx: int, shown: seq<Area>) {
    && OnCursor(chunks, start) && OnCursor(chunks, idx) && i <= |calls|
    && shown + Shown(chunks, idx, calls[i..]) == Shown(chunks, start, calls)
    && EndOf(|chunks| - 1, idx, calls[i..]) == EndOf(|chunks| - 1, start, calls)
  }

  /** What one call shows and where it leaves the cursor, on a function with an entry chunk and tails. */
  lemma OneCall(entry: Area, tails: seq<Area>, idx: int)
    requires -1 <= idx < |tails|
    ensures Shown([entry] + tails, idx, [MainChunk]) == [entry] && EndOf(|tails|, idx, [MainChunk]) == -1
    ensures Shown([entry] + tails, idx, [First]) == if |tails| > 0 then [tails[0]] else []
    ensures EndOf(|tails|, idx, [First]) == 0 && EndOf(|tails|, idx, [Last]) == |tails| - 1
    ensures Shown([entry] + tails, idx, [Last]) == [if |tails| > 0 then tails[|tails| - 1] else entry]
    ensures Shown([entry] + tails, idx, [Next]) == if idx + 1 < |tails| then [tails[idx + 1]] else []
    ensures EndOf(|tails|, idx, [Next]) == if idx + 1 < |tails| then idx + 1 else idx
    ensures Shown([entry] + tails, idx, [Prev]) == if idx < 0 then [] else [if idx == 0 then entry else tails[idx - 1]]
    ensures EndOf(|tails|, idx, [Prev]) == if idx < 0 then -1 else idx - 1
  {
    hide Shown, EndOf;
    OneStep([entry] + tails, idx, MainChunk);
    OneStep([entry] + tails, idx, First);
    OneStep([entry] + tails, idx, Last);
    OneStep([entry] + tails, idx, Next);
    OneStep([entry] + tails, idx, Prev);
  }

  lemma OneStep(chunks: seq<Area>, idx: int, call: Call)
    requires OnCursor(chunks, idx)
    ensures var (next, ok) := CallResult(|chunks| - 1, idx, call);
            && (ok ==> 0 <= next + 1 < |chunks|)
            && Shown(chunks, idx, [call]) == (if ok then [chunks[next + 1]] else [])
            && EndOf(|chunks| - 1, idx, [call]) == next
  {
    FirstCall(chunks, idx, [call]);
    assert [call][1..] == [];
  }

  lemma SeenStarts(chunks: seq<Area>, idx: int, calls: seq<Call>)
    requires OnCursor(chunks, idx)
    ensures Seen(chunks, idx, calls, 0, idx, [])
  {
    assert calls[0..] == calls && [] + Shown(chunks, idx, calls) == Shown(chunks, idx, calls);
  }

  lemma SeenStep(chunks: seq<Area>, start: int, calls: seq<Call>, i: nat, idx: int, shown: seq<Area>)
    requires i < |calls| && Seen(chunks, start, calls, i, idx, shown)
    ensures var (next, ok) := CallResult(|chunks| - 1, idx, calls[i]);
            && OnCursor(chunks, next) && (ok ==> 0 <= next + 1 < |chunks|)
            && Seen(chunks, start, calls, i + 1, next, if ok then shown + [chunks[next + 1]] else shown)
  {
    hide Shown, EndOf, CallResult, OnCursor;
    FirstCall(chunks, idx, calls[i..]);
    assert calls[i..][1..] == calls[i + 1..];
    var (next, ok) := CallResult(|chunks| - 1, idx, calls[i]);
    if ok {
      var rest := Shown(chunks, next, calls[i + 1..]);
      assert (shown + [chunks[next + 1]]) + rest == shown + ([chunks[next + 1]] + rest);
    }
  }

  lemma FirstCall(chunks: seq<Area>, idx: int, calls: seq<Call>)
    requires OnCursor(chunks, idx) && calls != []
    ensures var (next, ok) := CallResult(|chunks| - 1, idx, calls[0]);
            && OnCursor(chunks, next) && (ok ==> 0 <= next + 1 < |chunks|)
            && EndOf(|chunks| - 1, idx, calls) == EndOf(|chunks| - 1, next, calls[1..])
            && var rest := Shown(chunks, next, calls[1..]);
               Shown(chunks, idx, calls) == if ok then [chunks[next + 1]] + rest else rest
  {}

  lemma SeenEnds(chunks: seq<Area>, start: int, calls: seq<Call>, idx: int, shown: seq<Area>)
    requires Seen(chunks, start, calls, |calls|, idx, shown)
    ensures shown == Shown(chunks, start, calls) && idx == EndOf(|chunks| - 1, start, calls)
  {
    assert calls[|calls|..] == [] && shown + [] == shown;
  }

  /** The cursor of a function whose entry chunk and tails are `chunks`, or the place of the first tail if it has none. */
  predicate OnCursor(chunks: seq<Area>, idx: int) {
    |chunks| > 0 && -1 <= idx && (idx < |chunks| - 1 || idx == 0 == |chunks| - 1)
  }

  /** The chunks that a program sees which looks at the chunk after each true answer. */
  function Shown(chunks: seq<Area>, idx: int, calls: seq<Call>): (shown: seq<Area>)
    requires OnCursor(chunks, idx)
    ensures |shown| <= |calls| && forall a :: a in shown ==> a in chunks
    decreases |calls|
  {
    if calls == [] then []
    else
      var (next, ok) := CallResult(|chunks| - 1, idx, calls[0]);
      (if ok then [chunks[next + 1]] else []) + Shown(chunks, next, calls[1..])
  }

  /** Where the cursor is after some calls. */
  function EndOf(qty: nat, idx: int, calls: seq<Call>): int
    decreases |calls|
  {
    if calls == [] then idx else EndOf(qty, CallResult(qty, idx, calls[0]).0, calls[1..])
  }

  /** The position after a call on a function with `qty` tails, and what the call returns. */
  function CallResult(qty: nat, idx: int, call: Call): (int, bool) {
    match call
    case MainChunk => (-1, true)
    case First => (0, qty > 0)
    case Last => (qty - 1, true)
    case Next => if idx + 1 < qty then (idx + 1, true) else (idx, false)
    case Prev => if idx >= 0 then (idx - 1, true) else (idx, false)
  }

  /**
   A step back undoes a successful step forward, and a step forward undoes a successful
   step back exactly when the cursor was on a tail, not on the missing first tail.
   */
  lemma StepsUndo(qty: nat, idx: int)
    requires -1 <= idx && (idx < qty || idx == 0 == qty)
    ensures CallResult(qty, idx, Next).1 ==> CallResult(qty, CallResult(qty, idx, Next).0, Prev) == (idx, true)
    ensures CallResult(qty, idx, Prev).1 ==>
              (CallResult(qty, CallResult(qty, idx, Prev).0, Next) == (idx, true) <==> idx < qty)
  {}

  class ParentIterator {
    const fnt: Func
    var idx: int

    /** On a tail, the cursor is on a referer, or on the missing first or last one if there are none. */
    ghost predicate Valid()
      reads this
    {
      && fnt.Valid()
      && (fnt.isTail ==> -1 <= idx && (idx < |fnt.referers| || idx == 0 == |fnt.referers|))
    }

    ghost predicate OnParent()
      reads this
    {
      fnt.isTail && 0 <= idx < |fnt.referers|
    }

    constructor (f: Func)
      requires f.Valid()
      ensures fnt == f && Valid()
    {
      fnt := f;
      idx := 0;
    }

    function Parent(): nat
      requires OnParent()
      reads this
    {
      fnt.referers[idx]
    }

    /** first() is the only one that looks whether the chunk is a tail. */
    method First() returns (ok: bool)
      requires fnt.Valid()
      modifies `idx
      ensures Valid() && idx == 0
      ensures ok <==> OnParent()
    {
      idx := 0;
      ok := fnt.isTail && fnt.refqty > 0;
    }

    method Last() returns (ok: bool)
      requires fnt.Valid()
      modifies `idx
      ensures Valid() && idx == fnt.refqty - 1
      ensures (ok <==> 0 <= idx) && (fnt.isTail ==> (ok <==> OnParent()))
      ensures (ok ==> OnParent()) <==> fnt.isTail || fnt.refqty <= 0
    {
      idx := fnt.refqty - 1;
      ok := idx >= 0;
    }

    method Next() returns (ok: bool)
      requires Valid()
      modifies `idx
      ensures Valid() && (ok <==> old(idx) + 1 < fnt.refqty)
      ensures idx == old(idx) + (if ok then 1 else 0) && (ok ==> (OnParent() <==> fnt.isTail))
    {
      ok := false;
      if idx + 1 < fnt.refqty {
        idx := idx + 1;
        ok := true;
      }
    }

    method Prev() returns (ok: bool)
      requires Valid()
      modifies `idx
      ensures Valid() && (ok <==> old(idx) > 0)
      ensures idx == old(idx) - (if ok then 1 else 0) && (ok ==> (OnParent() <==> fnt.isTail))
    {
      ok := false;
      if idx > 0 {
        idx := idx - 1;
        ok := true;
      }
    }

    /** first() and next(): every parent once, in order. */
    method Forward() returns (visited: seq<nat>)
      requires fnt.Valid()
      modifies `idx
      ensures visited == if fnt.isTail then fnt.referers else []
    {
      visited := [];
      var ok := First();
      while ok
        invariant Valid() && (ok ==> OnParent() && fnt.isTail)
        invariant ok ==> visited == fnt.referers[..idx]
        invariant !ok ==> visited == if fnt.isTail then fnt.referers else []
        decreases ok, |fnt.referers| - idx
      {
        visited := visited + [Parent()];
        ok := Next();
      }
    }

    /** last() and prev(): the same parents backwards, unless an entry chunk is taken for a tail with parents. */
    method Backward() returns (visited: seq<nat>)
      requires fnt.Valid() && (fnt.isTail || fnt.refqty <= 0)
      modifies `idx
      ensures visited == if fnt.isTail then Reverse(fnt.referers) else []
    {
      visited := [];
      ghost var all := fnt.referers;
      var ok := Last();
      assert all[..|all|] == all;
      while ok
        invariant Valid() && (ok ==> OnParent())
        invariant ok ==> Reverse(all) == visited + Reverse(all[..idx + 1])
        invariant !ok ==> visited == if fnt.isTail then Reverse(all) else []
        decreases ok, idx
      {
        ReverseAppend(all[..idx], Parent());
        assert all[..idx + 1] == all[..idx] + [Parent()];
        visited := visited + [Parent()];
        ok := Prev();
      }
    }
  }
}
