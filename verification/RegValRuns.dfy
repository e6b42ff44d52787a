/** Runs of register values: every byte vector built is destroyed once, and none outlives its value. */
module RegValRuns {
  import opened Bytes
  import opened RegVal

  datatype Op =
    | New(r: nat)
    | NewCopy(r: nat, from: nat)
    | Assign(r: nat, from: nat)
    | Clear(r: nat)
    | SetInt(r: nat, ival: seq<byte>)
    | SetFloat(r: nat, fval: seq<byte>)
    | SetBytes(r: nat, bytes: seq<byte>)
    | Delete(r: nat)

  /**
   What a program knows of a value: the tag and the bytes at the start of the storage that were
   set, which are none, the eight of ival or the twelve of fval, or the vector of a custom type.
   */
  datatype Shape = Tagged(tag: int, known: seq<byte>) | Vector(tag: int, data: seq<byte>)

  /** The values by name, and how many vectors were built and destroyed. */
  datatype State = State(shapes: map<nat, Shape>, built: nat, destroyed: nat)

  const INITIAL := State(map[], 0, 0)

  predicate Legal(s: State, op: Op) {
    match op
    case New(r) => r !in s.shapes
    case NewCopy(r, from) => r !in s.shapes && from in s.shapes
    case Assign(r, from) => r in s.shapes && from in s.shapes
    case SetInt(r, ival) => r in s.shapes && |ival| == IVAL_SIZE
    case SetFloat(r, fval) => r in s.shapes && |fval| == FVAL_SIZE
    case Clear(r) => r in s.shapes
    case SetBytes(r, _) => r in s.shapes
    case Delete(r) => r in s.shapes
  }

  function Cost(x: Shape): nat {
    if x.Vector? then 1 else 0
  }

  /** Clearing keeps a negative tag and its bytes; where a vector was, nothing is known. */
  function Cleared(x: Shape): Shape {
    if x.Vector? then Tagged(RVT_INT, []) else x
  }

  /** Setting the bytes of ival keeps those behind them. */
  function WithInt(x: Shape, ival: seq<byte>): Shape {
    match Cleared(x)
    case Tagged(tag, known) => Tagged(tag, ival + (if |known| > |ival| then known[|ival|..] else []))
    case Vector(_, _) => x
  }

  /** What each operation does to the values and the counts. */
  function Step(s: State, op: Op): State
    requires Legal(s, op)
  {
    match op
    case New(r) => s.(shapes := s.shapes[r := Tagged(RVT_INT, ALL_ONES)])
    case NewCopy(r, from) =>
      State(s.shapes[r := s.shapes[from]], s.built + Cost(s.shapes[from]), s.destroyed)
    case Assign(r, from) =>
      var before, after := s.shapes[r], s.shapes[from];
      State(s.shapes[r := after],
            s.built + (if before.Tagged? && after.Vector? then 1 else 0),
            s.destroyed + (if before.Vector? && after.Tagged? then 1 else 0))
    case SetFloat(r, fval) =>
      State(s.shapes[r := Tagged(RVT_FLOAT, fval)], s.built, s.destroyed + Cost(s.shapes[r]))
    case SetBytes(r, bytes) =>
      State(s.shapes[r := Vector(0, bytes)], s.built + 1, s.destroyed + Cost(s.shapes[r]))
    case Delete(r) =>
      State(s.shapes - {r}, s.built, s.destroyed + Cost(s.shapes[r]))
    case Clear(r) =>
      State(s.shapes[r := Cleared(s.shapes[r])], s.built, s.destroyed + Cost(s.shapes[r]))
    case SetInt(r, ival) =>
      State(s.shapes[r := WithInt(s.shapes[r], ival)], s.built, s.destroyed + Cost(s.shapes[r]))
  }

  predicate LegalRun(s: State, ops: seq<Op>)
    decreases |ops|
  {
    ops == [] || (Legal(s, ops[0]) && LegalRun(Step(s, ops[0]), ops[1..]))
  }

  function Run(s: State, ops: seq<Op>): State
    requires LegalRun(s, ops)
    decreases |ops|
  {
    if ops == [] then s else Run(Step(s, ops[0]), ops[1..])
  }

  /** The names whose value holds a vector. */
  function Holders(shapes: map<nat, Shape>): set<nat> {
    set r | r in shapes && shapes[r].Vector?
  }

  predicate Balanced(s: State) {
    s.built == s.destroyed + |Holders(s.shapes)|
  }

  lemma HoldersWithout(shapes: map<nat, Shape>, r: nat)
    ensures Holders(shapes - {r}) == Holders(shapes) - {r}
    ensures |Holders(shapes - {r})| == |Holders(shapes)| - (if r in shapes then Cost(shapes[r]) else 0)
  {
    var others := Holders(shapes) - {r};
    assert Holders(shapes - {r}) == others;
    if r in Holders(shapes) {
      assert Holders(shapes) == others + {r};
    } else {
      assert Holders(shapes) == others;
    }
  }

  lemma HoldersUpdate(shapes: map<nat, Shape>, r: nat, x: Shape)
    ensures |Holders(shapes[r := x])| == |Holders(shapes)| - (if r in shapes then Cost(shapes[r]) else 0) + Cost(x)
  {
    HoldersWithout(shapes, r);
    HoldersWithout(shapes[r := x], r);
    assert shapes[r := x] - {r} == shapes - {r};
  }

  lemma StepBalances(s: State, op: Op)
    requires Legal(s, op) && Balanced(s)
    ensures Balanced(Step(s, op))
  {
    if op.Delete? {
      HoldersWithout(s.shapes, op.r);
    } else {
      HoldersUpdate(s.shapes, op.r, Step(s, op).shapes[op.r]);
    }
  }

  /** After any run the vectors built and not destroyed are exactly those of the custom values that are left. */
  lemma {:induction false} RunsBalance(s: State, ops: seq<Op>)
    requires LegalRun(s, ops) && Balanced(s)
    ensures Balanced(Run(s, ops))
    ensures Run(s, ops).shapes == map[] ==> Run(s, ops).built == Run(s, ops).destroyed
    decreases |ops|
  {
    if ops == [] {
      assert s.shapes == map[] ==> Holders(s.shapes) == {};
    } else {
      StepBalances(s, ops[0]);
      RunsBalance(Step(s, ops[0]), ops[1..]);
    }
  }

  /** What a run can leave in a value: a float with all its bytes, an integer with its own or, if a vector was cleared, none. */
  predicate Sound(x: Shape) {
    match x
    case Tagged(tag, known) =>
      if tag == RVT_FLOAT then |known| == FVAL_SIZE
      else tag == RVT_INT && |known| in {0, IVAL_SIZE}
    case Vector(tag, _) => tag == 0
  }

  predicate AllSound(s: State) {
    forall r :: r in s.shapes ==> Sound(s.shapes[r])
  }

  lemma {:induction false} RunsAreSound(s: State, ops: seq<Op>)
    requires LegalRun(s, ops) && AllSound(s)
    ensures AllSound(Run(s, ops))
    decreases |ops|
  {
    if ops != [] {
      RunsAreSound(Step(s, ops[0]), ops[1..]);
    }
  }

  predicate IsFloat(x: Shape) {
    x.Tagged? && x.tag == RVT_FLOAT
  }

  /** The value of `r` is not written by any of the operations. */
  predicate Leaves(ops: seq<Op>, r: nat) {
    forall i :: 0 <= i < |ops| ==> ops[i].r != r
  }

  /** A run changes only the values it names: copies share nothing with their originals. */
  lemma {:induction false} RunsKeepOthers(s: State, ops: seq<Op>, r: nat)
    requires LegalRun(s, ops) && Leaves(ops, r)
    ensures r in Run(s, ops).shapes <==> r in s.shapes
    ensures r in s.shapes ==> Run(s, ops).shapes[r] == s.shapes[r]
    decreases |ops|
  {
    if ops != [] {
      RunsKeepOthers(Step(s, ops[0]), ops[1..], r);
    }
  }

  /**
   The value of `r` after its last operation, whatever the operations on other values that follow:
   an integer, float or vector that was set is read, unless an integer was set on a float, which
   keeps its tag; and a copy has the value that the original had then.
   */
  lemma LastOperationIsRead(s: State, op: Op, ops: seq<Op>)
    requires Legal(s, op) && LegalRun(Step(s, op), ops) && Leaves(ops, op.r) && AllSound(s)
    ensures var after := Run(Step(s, op), ops).shapes;
            match op
            case New(r) => r in after && after[r] == Tagged(RVT_INT, ALL_ONES)
            case NewCopy(r, from) => r in after && after[r] == s.shapes[from]
            case Assign(r, from) => r in after && after[r] == s.shapes[from]
            case SetFloat(r, fval) => r in after && after[r] == Tagged(RVT_FLOAT, fval)
            case SetBytes(r, bytes) => r in after && after[r] == Vector(0, bytes)
            case SetInt(r, ival) =>
              && r in after && after[r].Tagged? && ival <= after[r].known
              && (after[r].tag == RVT_INT <==> !IsFloat(s.shapes[r]))
              && (IsFloat(s.shapes[r]) ==> after[r].known == ival + s.shapes[r].known[8..])
            case Clear(r) => r in after && after[r] == if s.shapes[r].Vector? then Tagged(RVT_INT, []) else s.shapes[r]
            case Delete(r) => r !in after
  {
    RunsKeepOthers(Step(s, op), ops, op.r);
  }

  /** The value of the object is what the program knows of it; the bytes behind those known are any. */
  ghost predicate Agrees(v: View, x: Shape) {
    match (v, x)
    case (Plain(tag, raw), Tagged(t, known)) => tag == t && known <= raw
    case (Custom(tag, data), Vector(t, bytes)) => tag == t && data == bytes
    case (Plain(_, _), Vector(_, _)) => false
    case (Custom(_, _), Tagged(_, _)) => false
  }

  /** The bytes of ival take the first places; those behind them stay unless a vector was there. */
  lemma IntAgrees(v: View, x: Shape, ival: seq<byte>, raw: seq<byte>)
    requires Agrees(v, x) && |ival| == IVAL_SIZE && |raw| == FVAL_SIZE && raw[..IVAL_SIZE] == ival
    requires v.Plain? ==> |v.raw| == FVAL_SIZE && raw[IVAL_SIZE..] == v.raw[IVAL_SIZE..]
    ensures Agrees(Plain(if v.Custom? then RVT_INT else v.tag, raw), WithInt(x, ival))
  {
    if v.Plain? && |x.known| > |ival| {
      var n := |x.known|;
      assert raw[IVAL_SIZE..][..n - IVAL_SIZE] == v.raw[IVAL_SIZE..][..n - IVAL_SIZE];
      assert v.raw[..n][IVAL_SIZE..] == v.raw[IVAL_SIZE..][..n - IVAL_SIZE];
      assert raw == ival + raw[IVAL_SIZE..];
    }
  }

  lemma CostIs(v: View, x: Shape)
    requires Agrees(v, x)
    ensures Cost(x) == if v.Custom? then 1 else 0
  {}

  lemma DeleteIs(s: State, r: nat)
    requires r in s.shapes
    ensures Step(s, Delete(r)) == State(s.shapes - {r}, s.built, s.destroyed + Cost(s.shapes[r]))
  {}

  lemma AgreesAlike(v: View, x: Shape)
    requires Agrees(v, x)
    ensures v.Plain? <==> x.Tagged?
  {}

  /** The values of a program, by name, with the vectors they share an allocator for. */
  class Pool {
    var regs: map<nat, RegVal>
    const vectors: Vectors

    ghost predicate Separate()
      reads this, regs.Values
    {
      forall r, t :: r in regs && t in regs && r != t ==>
                       regs[r] != regs[t] && (regs[r].vec.None? || regs[r].vec != regs[t].vec)
    }

    ghost predicate Valid()
      reads this, vectors, regs.Values
    {
      && vectors.Valid() && Separate()
      && forall r :: r in regs ==> regs[r].vectors == vectors && regs[r].Valid()
    }

    /** Every value is what the state says of it. */
    ghost predicate Shows(shapes: map<nat, Shape>)
      requires Valid()
      reads this, vectors, regs.Values
    {
      && regs.Keys == shapes.Keys
      && forall r :: r in regs ==> Agrees(regs[r].Meaning(), shapes[r])
    }

    ghost predicate Represents(s: State)
      reads this, vectors, regs.Values
    {
      Valid() && Shows(s.shapes) && vectors.built == s.built && vectors.destroyed == s.destroyed
    }

    constructor ()
      ensures Valid() && fresh(vectors) && regs == map[] && Represents(INITIAL)
    {
      regs := map[];
      vectors := new Vectors();
    }

    /** The vectors that the values hold. */
    ghost function Held(): set<VecId>
      reads this, regs.Values
    {
      set r | r in regs && regs[r].vec.Some? :: regs[r].vec.value
    }

    /** Only the value `r` and its vector were changed. */
    twostate predicate OnlyChanged(r: nat)
      requires old(Valid())
      reads this, vectors, regs.Values
    {
      var own := if r in old(regs) then old(regs[r].vec) else None;
      && regs.Keys + {r} == old(regs.Keys) + {r}
      && (forall t :: t in regs && t != r ==> regs[t] == old(regs)[t] && unchanged(regs[t]))
      && (forall v :: v in old(vectors.live) && own != Some(v) ==>
                        v in vectors.live && vectors.live[v] == old(vectors.live)[v])
      && (r in regs ==>
            && (if r in old(regs) then regs[r] == old(regs)[r] else regs[r] !in old(regs.Values))
            && (regs[r].vec.None? || regs[r].vec == own || regs[r].vec.value !in old(vectors.live)))
    }

    twostate lemma StaysSeparate(r: nat)
      requires old(Valid()) && OnlyChanged(r)
      ensures Separate()
    {
      forall t, u | t in regs && u in regs && t != u
        ensures regs[t] != regs[u] && (regs[t].vec.None? || regs[t].vec != regs[u].vec)
      {
        assert t != r ==> old(regs)[t] == regs[t] && old(regs[t].Valid());
        assert u != r ==> old(regs)[u] == regs[u] && old(regs[u].Valid());
      }
    }

    twostate lemma StaysValid(r: nat)
      requires old(Valid()) && vectors.Valid() && OnlyChanged(r)
      requires r in regs ==> regs[r].vectors == vectors && regs[r].Valid()
      ensures Valid()
      ensures forall t :: t in regs && t != r ==> t in old(regs) && regs[t].Meaning() == old(regs[t].Meaning())
    {
      StaysSeparate(r);
      forall t | t in regs && t != r
        ensures t in old(regs) && regs[t].vectors == vectors && regs[t].Valid()
        ensures regs[t].Meaning() == old(regs[t].Meaning())
      {
        assert t in regs.Keys + {r};
        assert old(regs)[t] == regs[t];
        assert old(regs[t].Valid());
      }
    }

    ghost predicate ShowsOthers(shapes: map<nat, Shape>, r: nat)
      requires Valid()
      reads this, vectors, regs.Values
    {
      && regs.Keys + {r} == shapes.Keys + {r}
      && forall t :: t in regs && t != r ==> t in shapes && Agrees(regs[t].Meaning(), shapes[t])
    }

    /** An operation that changes only the value `r` and its vector leaves all others as they were. */
    twostate lemma OthersKept(r: nat)
      requires old(Valid()) && vectors.Valid() && OnlyChanged(r)
      requires r in regs ==> regs[r].vectors == vectors && regs[r].Valid()
      ensures Valid()
      ensures forall shapes | old(Shows(shapes)) :: ShowsOthers(shapes, r)
    {
      hide Agrees;
      StaysValid(r);
      assert regs.Keys + {r} == old(regs.Keys) + {r};
    }

    lemma ShowsNow(r: nat, before: map<nat, Shape>, after: map<nat, Shape>)
      requires Valid() && ShowsOthers(before, r)
      requires r in regs ==> r in after && after == before[r := after[r]] && Agrees(regs[r].Meaning(), after[r])
      requires r !in regs ==> after == before - {r}
      ensures Shows(after)
    {
      hide Agrees;
      assert forall t :: t in regs ==> t in regs.Keys + {r};
      assert forall t :: t in after ==> t in before.Keys + {r};
      assert regs.Keys == after.Keys;
    }

    lemma ValueAt(s: State, r: nat)
      requires Represents(s)
      ensures Valid() && vectors.Valid() && (r in s.shapes <==> r in regs)
      ensures vectors.built == s.built && vectors.destroyed == s.destroyed
      ensures r in regs ==> && regs[r].Valid() && regs[r].vectors == vectors
                            && Agrees(regs[r].Meaning(), s.shapes[r])
      ensures r in regs ==> forall t :: t in regs && t != r ==> regs[t] != regs[r]
    {}

    lemma Distinct(r: nat, t: nat)
      requires Valid() && r in regs && t in regs && r != t
      ensures regs[r] != regs[t] && (regs[r].vec.None? || regs[r].vec != regs[t].vec)
    {}

    method DoNew(ghost s: State, r: nat)
      requires Represents(s) && Legal(s, New(r))
      modifies this, vectors, regs.Values
      ensures Represents(Step(s, New(r))) && fresh(regs.Values - old(regs.Values))
    {
      hide Valid, Shows, ShowsOthers, RegVal.Valid, Vectors.Valid;
      ValueAt(s, r);
      var x := new RegVal(vectors);
      regs := regs[r := x];
      OthersKept(r);
      ShowsNow(r, s.shapes, Step(s, New(r)).shapes);
    }

    method DoCopy(ghost s: State, r: nat, from: nat)
      requires Represents(s) && Legal(s, NewCopy(r, from))
      modifies this, vectors, regs.Values
      ensures Represents(Step(s, NewCopy(r, from))) && fresh(regs.Values - old(regs.Values))
    {
      hide Valid, Shows, ShowsOthers, RegVal.Valid, Vectors.Valid, Agrees, RegVal.Meaning;
      ValueAt(s, r);
      ValueAt(s, from);
      AgreesAlike(regs[from].Meaning(), s.shapes[from]);
      var x := new RegVal.Copy(regs[from]);
      regs := regs[r := x];
      OthersKept(r);
      ShowsNow(r, s.shapes, Step(s, NewCopy(r, from)).shapes);
    }

    method DoAssign(ghost s: State, r: nat, from: nat)
      requires Represents(s) && Legal(s, Assign(r, from))
      modifies this, vectors, regs.Values
      ensures Represents(Step(s, Assign(r, from))) && fresh(regs.Values - old(regs.Values))
    {
      hide Valid, Shows, ShowsOthers, Ids, RegVal.Valid, Vectors.Valid, Agrees, RegVal.Meaning;
      ValueAt(s, r);
      ValueAt(s, from);
      AgreesAlike(regs[r].Meaning(), s.shapes[r]);
      AgreesAlike(regs[from].Meaning(), s.shapes[from]);
      if r != from {
        Distinct(r, from);
      }
      regs[r].Assign(regs[from]);
      OthersKept(r);
      ShowsNow(r, s.shapes, Step(s, Assign(r, from)).shapes);
    }

    method DoClear(ghost s: State, r: nat)
      requires Represents(s) && Legal(s, Clear(r))
      modifies this, vectors, regs.Values
      ensures Represents(Step(s, Clear(r))) && fresh(regs.Values - old(regs.Values))
    {
      hide Valid, Shows, ShowsOthers, RegVal.Valid, Vectors.Valid;
      ValueAt(s, r);
      AgreesAlike(regs[r].Meaning(), s.shapes[r]);
      regs[r].Clear();
      OthersKept(r);
      ShowsNow(r, s.shapes, Step(s, Clear(r)).shapes);
    }

    method DoSetInt(ghost s: State, r: nat, ival: seq<byte>)
      requires Represents(s) && Legal(s, SetInt(r, ival))
      modifies this, vectors, regs.Values
      ensures Represents(Step(s, SetInt(r, ival))) && fresh(regs.Values - old(regs.Values))
    {
      hide Valid, Shows, ShowsOthers, Agrees, WithInt, Vectors.Valid;
      ValueAt(s, r);
      AgreesAlike(regs[r].Meaning(), s.shapes[r]);
      ghost var before := regs[r].Meaning();
      regs[r].SetInt(ival);
      IntAgrees(before, s.shapes[r], ival, regs[r].raw);
      OthersKept(r);
      ShowsNow(r, s.shapes, Step(s, SetInt(r, ival)).shapes);
    }

    method DoSetFloat(ghost s: State, r: nat, fval: seq<byte>)
      requires Represents(s) && Legal(s, SetFloat(r, fval))
      modifies this, vectors, regs.Values
      ensures Represents(Step(s, SetFloat(r, fval))) && fresh(regs.Values - old(regs.Values))
    {
      hide Valid, Shows, ShowsOthers, RegVal.Valid, Vectors.Valid;
      ValueAt(s, r);
      AgreesAlike(regs[r].Meaning(), s.shapes[r]);
      regs[r].SetFloat(fval);
      OthersKept(r);
      ShowsNow(r, s.shapes, Step(s, SetFloat(r, fval)).shapes);
    }

    method DoSetBytes(ghost s: State, r: nat, bytes: seq<byte>)
      requires Represents(s) && Legal(s, SetBytes(r, bytes))
      modifies this, vectors, regs.Values
      ensures Represents(Step(s, SetBytes(r, bytes))) && fresh(regs.Values - old(regs.Values))
    {
      hide Valid, Shows, ShowsOthers, RegVal.Valid, Vectors.Valid;
      ValueAt(s, r);
      AgreesAlike(regs[r].Meaning(), s.shapes[r]);
      regs[r].SetBytes(bytes);
      OthersKept(r);
      ShowsNow(r, s.shapes, Step(s, SetBytes(r, bytes)).shapes);
    }

    /** The destructor runs and the name is gone. */
    method Remove(ghost s: State, r: nat)
      requires Represents(s) && r in regs
      modifies this, vectors, regs[r]
      ensures vectors.Valid() && OnlyChanged(r) && regs == old(regs) - {r}
      ensures vectors.built == s.built && vectors.destroyed == s.destroyed + Cost(s.shapes[r])
    {
      hide Represents, Valid, Cost, Ids, RegVal.Valid, Vectors.Valid, Agrees, RegVal.Meaning;
      ValueAt(s, r);
      CostIs(regs[r].Meaning(), s.shapes[r]);
      regs[r].Destruct();
      regs := regs - {r};
      assert regs.Keys + {r} == old(regs.Keys) + {r};
    }

    method DoDelete(ghost s: State, r: nat)
      requires Represents(s) && Legal(s, Delete(r))
      modifies this, vectors, regs.Values
      ensures Represents(Step(s, Delete(r))) && fresh(regs.Values - old(regs.Values))
    {
      hide Valid, Shows, ShowsOthers, OnlyChanged, RegVal.Valid, Vectors.Valid, Step;
      ValueAt(s, r);
      DeleteIs(s, r);
      Remove(s, r);
      OthersKept(r);
      ShowsNow(r, s.shapes, s.shapes - {r});
    }

    /** One operation of a run. */
    method Do(ghost s: State, op: Op)
      requires Represents(s) && Legal(s, op)
      modifies this, vectors, regs.Values
      ensures Represents(Step(s, op)) && fresh(regs.Values - old(regs.Values))
    {
      match op
      case New(r) => DoNew(s, r);
      case NewCopy(r, from) => DoCopy(s, r, from);
      case Assign(r, from) => DoAssign(s, r, from);
      case Clear(r) => DoClear(s, r);
      case SetInt(r, ival) => DoSetInt(s, r, ival);
      case SetFloat(r, fval) => DoSetFloat(s, r, fval);
      case SetBytes(r, bytes) => DoSetBytes(s, r, bytes);
      case Delete(r) => DoDelete(s, r);
    }

    /** A whole run. */
    method Play(ghost s: State, ops: seq<Op>)
      requires Represents(s) && LegalRun(s, ops)
      modifies this, vectors, regs.Values
      ensures Represents(Run(s, ops)) && fresh(regs.Values - old(regs.Values))
      decreases |ops|
    {
      hide *;
      RunStep(s, ops);
      if ops != [] {
        Do(s, ops[0]);
        Play(Step(s, ops[0]), ops[1..]);
      }
    }
  }

  lemma RunStep(s: State, ops: seq<Op>)
    requires LegalRun(s, ops)
    ensures ops == [] ==> Run(s, ops) == s
    ensures ops != [] ==> && Legal(s, ops[0]) && LegalRun(Step(s, ops[0]), ops[1..])
                          && Run(s, ops) == Run(Step(s, ops[0]), ops[1..])
  {}

  /**
   Every program that starts without values: at its end each value is what the run says of it, the
   vectors that live are exactly those its custom values hold, one each, and once all values are
   deleted every vector built has been destroyed.
   */
  method PlayProgram(ops: seq<Op>) returns (pool: Pool)
    requires LegalRun(INITIAL, ops)
    ensures pool.Represents(Run(INITIAL, ops))
    ensures |pool.vectors.live| == |Holders(Run(INITIAL, ops).shapes)| == pool.vectors.built - pool.vectors.destroyed
    ensures pool.vectors.live.Keys == pool.Held()
    ensures pool.regs == map[] ==> pool.vectors.live == map[] && pool.vectors.built == pool.vectors.destroyed
  {
    pool := new Pool();
    pool.Play(INITIAL, ops);
    NoHolders();
    RunsBalance(INITIAL, ops);
    LiveCount(pool, Run(INITIAL, ops));
    LiveAreHeld(pool, Run(INITIAL, ops));
  }

  lemma NoHolders()
    ensures Balanced(INITIAL)
  {
    assert Holders(INITIAL.shapes) == {};
  }

  lemma LiveCount(pool: Pool, s: State)
    requires pool.Represents(s) && Balanced(s)
    ensures |pool.vectors.live| == |Holders(s.shapes)| == pool.vectors.built - pool.vectors.destroyed
    ensures pool.regs == map[] ==> pool.vectors.live == map[]
  {
    if pool.regs == map[] {
      assert Holders(s.shapes) == {};
    }
  }

  ghost function Image(names: set<nat>, ids: map<nat, VecId>): set<VecId> {
    set r | r in names && r in ids :: ids[r]
  }

  lemma ImageStep(names: set<nat>, t: nat, ids: map<nat, VecId>)
    requires t in ids && t in names
    ensures Image(names, ids) == Image(names - {t}, ids) + {ids[t]}
  {
    forall v | v in Image(names, ids)
      ensures v in Image(names - {t}, ids) + {ids[t]}
    {
      var r :| r in names && r in ids && ids[r] == v;
      assert r == t || r in names - {t};
    }
  }

  /** Names that hold different vectors hold as many vectors as there are names. */
  lemma {:induction false} ImageCount(names: set<nat>, ids: map<nat, VecId>)
    requires names <= ids.Keys
    requires forall r, t :: r in ids && t in ids && r != t ==> ids[r] != ids[t]
    ensures |Image(names, ids)| == |names|
  {
    if names == {} {
      assert Image(names, ids) == {};
    } else {
      var t :| t in names;
      ImageCount(names - {t}, ids);
      ImageStep(names, t, ids);
      assert ids[t] !in Image(names - {t}, ids);
    }
  }

  lemma SameSize<T>(a: set<T>, b: set<T>)
    requires a <= b && |a| == |b|
    ensures a == b
  {
    assert b == a + (b - a);
  }

  /** No vector lives without a custom value that holds it. */
  lemma LiveAreHeld(pool: Pool, s: State)
    requires pool.Represents(s) && Balanced(s)
    ensures pool.vectors.live.Keys == pool.Held()
  {
    var ids := map r | r in pool.regs && pool.regs[r].vec.Some? :: pool.regs[r].vec.value;
    HeldNames(pool, s, ids);
    ImageCount(ids.Keys, ids);
    SameSize(pool.Held(), pool.vectors.live.Keys);
  }

  lemma HeldNames(pool: Pool, s: State, ids: map<nat, VecId>)
    requires pool.Represents(s)
    requires ids == map r | r in pool.regs && pool.regs[r].vec.Some? :: pool.regs[r].vec.value
    ensures ids.Keys == Holders(s.shapes)
    ensures Image(ids.Keys, ids) == pool.Held() <= pool.vectors.live.Keys
  {
    forall v | v in pool.Held()
      ensures v in Image(ids.Keys, ids)
    {
      var r :| r in pool.regs && pool.regs[r].vec == Some(v);
      assert r in ids && ids[r] == v;
    }
  }
}
