/** regval_t: a tagged union whose storage may hold a byte vector built and destroyed by hand. */
module RegVal {
  import opened Bytes

  const RVT_INT: int := -1
  const RVT_FLOAT: int := -2

  /** Sizes of ival and of fval, which share their first bytes. */
  const IVAL_SIZE: nat := 8
  const FVAL_SIZE: nat := 12

  /** The bytes of ~uint64(0). */
  const ALL_ONES: seq<byte> := [255, 255, 255, 255, 255, 255, 255, 255]

  /** Bytes that the code leaves as they happen to be. */
  method Unspecified(n: nat) returns (s: seq<byte>)
    ensures |s| == n
  {
    s := seq(n, _ => 0);
  }

  datatype Option<T> = None | Some(value: T)

  type VecId = nat

  /**
   The byte vectors of the program: the contents of those that live. Identities are never
   given out twice, so each vector can be destroyed at most once.
   */
  class Vectors {
    var live: map<VecId, seq<byte>>
    var built: nat
    var destroyed: nat

    ghost predicate Valid()
      reads this
    {
      (forall v :: v in live ==> v < built) && |live| == built - destroyed
    }

    constructor ()
      ensures Valid() && live == map[] && built == 0 && destroyed == 0
    {
      live, built, destroyed := map[], 0, 0;
    }

    /** Placement new. */
    method Build(data: seq<byte>) returns (v: VecId)
      requires Valid()
      modifies this
      ensures Valid() && v !in old(live) && live == old(live)[v := data]
      ensures built == old(built) + 1 && destroyed == old(destroyed)
    {
      v := built;
      live := live[v := data];
      built := built + 1;
    }

    /** An explicit destructor call: only a live vector may be destroyed. */
    method Destroy(v: VecId)
      requires Valid() && v in live
      modifies this
      ensures Valid() && live == old(live) - {v}
      ensures built == old(built) && destroyed == old(destroyed) + 1
    {
      assert live.Keys == (live - {v}).Keys + {v};
      live := live - {v};
      destroyed := destroyed + 1;
    }

    /** The assignment operator of the vector. */
    method Overwrite(v: VecId, data: seq<byte>)
      requires Valid() && v in live
      modifies this
      ensures Valid() && live == old(live)[v := data]
      ensures built == old(built) && destroyed == old(destroyed)
    {
      live := live[v := data];
      assert live.Keys == old(live).Keys;
    }
  }

  /** What a register value means: a tag with its plain bytes, or a custom type with its vector. */
  datatype View = Plain(tag: int, raw: seq<byte>) | Custom(tag: int, data: seq<byte>)

  /**
   operator== on two vectors of one type reads the right one up to the size of the left one.
   The comparison has a defined result when that many bytes are there.
   */
  predicate Defined(a: View, b: View) {
    a.Custom? && b.Custom? && a.tag == b.tag ==> |a.data| <= |b.data|
  }

  /** operator==: memcmp over the size of the left operand. */
  predicate SameValue(a: View, b: View)
    requires Defined(a, b)
  {
    && a.tag == b.tag
    && match a
       case Plain(tag, raw) =>
         b.Plain? && (if tag == RVT_INT then IVAL_SIZE <= |raw| && IVAL_SIZE <= |b.raw| && raw[..IVAL_SIZE] == b.raw[..IVAL_SIZE]
                      else raw == b.raw)
       case Custom(_, data) =>
         b.Custom? && b.data[..|data|] == data
  }

  class RegVal {
    var rvtype: int
    var raw: seq<byte>
    var vec: Option<VecId>
    const vectors: Vectors

    /** A byte vector is in the storage exactly when the tag is not negative, and then it lives. */
    ghost predicate Valid()
      reads this, vectors
    {
      && vectors.Valid() && |raw| == FVAL_SIZE
      && (rvtype >= 0 <==> vec.Some?)
      && (vec.Some? ==> vec.value in vectors.live)
    }

    ghost function Meaning(): View
      requires Valid()
      reads this, vectors
    {
      if rvtype >= 0 then Custom(rvtype, vectors.live[vec.value]) else Plain(rvtype, raw)
    }

    /** The meaning has the tag, and behind it the twelve bytes of the storage or the bytes of the vector. */
    lemma MeaningIs()
      requires Valid()
      ensures Meaning().tag == rvtype && |raw| == 12
      ensures rvtype < 0 ==> Meaning().Plain? && Meaning().raw == raw
      ensures rvtype >= 0 ==> Meaning().Custom? && vec.Some? && Meaning().data == vectors.live[vec.value]
    {}

    /** regval_t(): the integer ~0; the other bytes of the storage are not set. */
    constructor (vectors: Vectors)
      requires vectors.Valid()
      ensures this.vectors == vectors && Valid() && vec == None
      ensures rvtype == RVT_INT && raw[..IVAL_SIZE] == ALL_ONES
      ensures rvtype == -1 && forall i :: 0 <= i < 8 ==> raw[i] == 255
    {
      rvtype := RVT_INT;
      var rest := Unspecified(FVAL_SIZE - IVAL_SIZE);
      raw := ALL_ONES + rest;
      vec := None;
      this.vectors := vectors;
    }

    /** regval_t(const regval_t &r) */
    constructor Copy(r: RegVal)
      requires r.Valid()
      modifies r.vectors
      ensures vectors == r.vectors && Valid() && r.Valid()
      ensures Meaning() == old(r.Meaning()) && r.Meaning() == old(r.Meaning())
      ensures vec.Some? ==> vec.value !in old(r.vectors.live)
      ensures vectors.live == if vec.None? then old(r.vectors.live)
                              else old(r.vectors.live)[vec.value := old(r.Meaning()).data]
      ensures vectors.built == old(r.vectors.built) + (if Meaning().Custom? then 1 else 0) && vectors.destroyed == old(r.vectors.destroyed)
    {
      rvtype := RVT_INT;
      var bytes := Unspecified(FVAL_SIZE);
      raw := bytes;
      vec := None;
      vectors := r.vectors;
      new;
      Assign(r);
    }

    /** new (&bytes()) bytevec_t(data): the vector object takes the place of the plain bytes. */
    method BuildBytes(data: seq<byte>)
      requires vectors.Valid() && vec.None?
      modifies this, vectors
      ensures vectors.Valid() && vec.Some? && vec.value !in old(vectors.live)
      ensures vectors.live == old(vectors.live)[vec.value := data]
      ensures rvtype == old(rvtype) && |raw| == FVAL_SIZE
      ensures vectors.built == old(vectors.built) + 1 && vectors.destroyed == old(vectors.destroyed)
    {
      var v := vectors.Build(data);
      vec := Some(v);
      raw := Unspecified(FVAL_SIZE);
    }

    /** bytes().~bytevec_t(): what is left in the storage is not specified. */
    method DestroyBytes()
      requires vectors.Valid() && vec.Some? && vec.value in vectors.live
      modifies this, vectors
      ensures vectors.Valid() && vec.None?
      ensures vectors.live == old(vectors.live) - {old(vec).value}
      ensures rvtype == old(rvtype) && |raw| == FVAL_SIZE
      ensures vectors.built == old(vectors.built) && vectors.destroyed == old(vectors.destroyed) + 1
    {
      vectors.Destroy(vec.value);
      vec := None;
      raw := Unspecified(FVAL_SIZE);
    }

    /** operator= */
    method Assign(r: RegVal)
      requires Valid() && r.Valid() && r.vectors == vectors
      requires r != this ==> (vec.None? || r.vec.None? || vec.value != r.vec.value)
      modifies this, vectors
      ensures Valid() && r.Valid()
      ensures Meaning() == old(r.Meaning()) && r.Meaning() == old(r.Meaning())
      ensures vec.Some? ==> if old(vec).Some? then vec == old(vec) else vec.value !in old(vectors.live)
      ensures vectors.live == if vec.None? then old(vectors.live) - Ids(old(vec))
                              else old(vectors.live)[vec.value := old(r.Meaning()).data]
      ensures forall v :: v in old(vectors.live) && old(vec) != Some(v) ==>
                            v in vectors.live && vectors.live[v] == old(vectors.live)[v]
      ensures vectors.built == old(vectors.built) + (if Meaning().Custom? && old(Meaning()).Plain? then 1 else 0)
      ensures vectors.destroyed == old(vectors.destroyed) + (if Meaning().Plain? && old(Meaning()).Custom? then 1 else 0)
    {
      if r.rvtype >= 0 {
        if rvtype >= 0 {
          vectors.Overwrite(vec.value, vectors.live[r.vec.value]);
        } else {
          BuildBytes(vectors.live[r.vec.value]);
        }
      } else {
        if rvtype >= 0 {
          DestroyBytes();
        }
        raw := r.raw;
      }
      rvtype := r.rvtype;
    }

    method Clear()
      requires Valid()
      modifies this, vectors
      ensures Valid() && vec.None?
      ensures old(rvtype) >= 0 ==> rvtype == RVT_INT == -1
      ensures old(rvtype) < 0 ==> rvtype == old(rvtype) && raw == old(raw)
      ensures vectors.live == old(vectors.live) - Ids(old(vec))
      ensures vectors.built == old(vectors.built)
      ensures vectors.destroyed == old(vectors.destroyed) + (if old(Meaning()).Custom? then 1 else 0)
    {
      if rvtype >= 0 {
        DestroyBytes();
        rvtype := RVT_INT;
      }
    }

    /** The destructor: nothing of the value is left alive. */
    method Destruct()
      requires Valid()
      modifies this, vectors
      ensures vectors.Valid() && vec.None?
      ensures vectors.live == old(vectors.live) - Ids(old(vec))
      ensures forall v :: v in old(vectors.live) && old(vec) != Some(v) ==>
                            v in vectors.live && vectors.live[v] == old(vectors.live)[v]
      ensures vectors.built == old(vectors.built)
      ensures vectors.destroyed == old(vectors.destroyed) + (if old(Meaning()).Custom? then 1 else 0)
    {
      Clear();
    }

    /** Sets the bytes of ival only. The tag stays RVT_FLOAT, or another negative one, if it was. */
    method SetInt(x: seq<byte>)
      requires Valid() && |x| == IVAL_SIZE
      modifies this, vectors
      ensures Valid() && vec.None?
      ensures rvtype == (if old(rvtype) >= 0 then RVT_INT else old(rvtype))
      ensures rvtype == RVT_INT <==> (old(rvtype) >= 0 || old(rvtype) == RVT_INT)
      ensures raw[..IVAL_SIZE] == x && |x| == 8
      ensures rvtype == if old(rvtype) >= 0 then -1 else old(rvtype)
      ensures old(rvtype) < 0 ==> raw[IVAL_SIZE..] == old(raw)[IVAL_SIZE..]
      ensures vectors.live == old(vectors.live) - Ids(old(vec))
      ensures vectors.built == old(vectors.built)
      ensures vectors.destroyed == old(vectors.destroyed) + (if old(Meaning()).Custom? then 1 else 0)
    {
      Clear();
      raw := x + raw[IVAL_SIZE..];
    }

    method SetFloat(x: seq<byte>)
      requires Valid() && |x| == FVAL_SIZE
      modifies this, vectors
      ensures Valid() && Meaning() == Plain(RVT_FLOAT, x)
      ensures rvtype == -2 && raw == x && |raw| == 12
      ensures vectors.live == old(vectors.live) - Ids(old(vec))
      ensures vectors.built == old(vectors.built)
      ensures vectors.destroyed == old(vectors.destroyed) + (if old(Meaning()).Custom? then 1 else 0)
    {
      Clear();
      raw := x;
      rvtype := RVT_FLOAT;
    }

    /** set_bytes(): the source is a copy of the bytes, not the value's own storage. */
    method SetBytes(data: seq<byte>)
      requires Valid()
      modifies this, vectors
      ensures Valid() && Meaning() == Custom(0, data)
      ensures rvtype == 0 && vec.Some? && vectors.live[vec.value] == data
      ensures vec.value !in old(vectors.live) - Ids(old(vec))
      ensures vectors.live == (old(vectors.live) - Ids(old(vec)))[vec.value := data]
      ensures vectors.built == old(vectors.built) + 1
      ensures vectors.destroyed == old(vectors.destroyed) + (if old(Meaning()).Custom? then 1 else 0)
    {
      Clear();
      BuildBytes(data);
      rvtype := 0;
    }

    /**
     operator==. With two vectors of one type the right one is read up to the size of the
     left one, so it must not be shorter.
     */
    method Equals(r: RegVal) returns (same: bool)
      requires Valid() && r.Valid() && r.vectors == vectors
      requires Defined(Meaning(), r.Meaning())
      ensures same == SameValue(Meaning(), r.Meaning())
      ensures same <==> && rvtype == r.rvtype
                        && if rvtype == -1 then raw[..8] == r.raw[..8]
                           else if rvtype < 0 then raw == r.raw
                           else vectors.live[vec.value] <= vectors.live[r.vec.value]
    {
      if rvtype != r.rvtype {
        return false;
      }
      if rvtype == RVT_INT {
        return raw[..IVAL_SIZE] == r.raw[..IVAL_SIZE];
      }
      if rvtype >= 0 {
        var left, right := vectors.live[vec.value], vectors.live[r.vec.value];
        return left == right[..|left|];
      }
      return raw == r.raw;
    }
  }

  function Ids(v: Option<VecId>): set<VecId> {
    match v
    case None => {}
    case Some(id) => {id}
  }

  /** After a = b both a == b and b == a are defined and hold, also when a and b are the same object. */
  method AssignAndCompare(a: RegVal, b: RegVal) returns (forth: bool, back: bool)
    requires a.Valid() && b.Valid() && a.vectors == b.vectors
    requires a != b ==> (a.vec.None? || b.vec.None? || a.vec.value != b.vec.value)
    modifies a, a.vectors
    ensures a.Valid() && b.Valid()
    ensures forth && back
  {
    a.Assign(b);
    forth := a.Equals(b);
    back := b.Equals(a);
  }

  /** The part of a value that operator== looks at. */
  function Observable(v: View): View {
    if v.Plain? && v.tag == RVT_INT && IVAL_SIZE <= |v.raw| then Plain(v.tag, v.raw[..IVAL_SIZE]) else v
  }

  predicate Proper(v: View) {
    match v
    case Plain(tag, raw) => tag < 0 && |raw| == FVAL_SIZE
    case Custom(tag, _) => tag >= 0
  }

  /** Two vectors of one type, the first a proper prefix of the second. */
  predicate Starts(a: View, b: View) {
    a.Custom? && b.Custom? && a.tag == b.tag && a.data < b.data
  }

  /** What a defined comparison answers: the same observation, or a vector that the other one starts with. */
  lemma EqualityIsObservationOrPrefix(a: View, b: View)
    requires Proper(a) && Proper(b) && Defined(a, b)
    ensures SameValue(a, b) <==> Observable(a) == Observable(b) || Starts(a, b)
  {
    if a.Custom? && b.Custom? && a.tag == b.tag && |a.data| == |b.data| {
      assert b.data[..|a.data|] == b.data;
    }
  }

  /**
   A comparison can be turned round exactly when it does not compare two vectors of one type
   and different sizes; then both ways give the same answer, equality of what is observed.
   */
  lemma EqualityTurnsRound(a: View, b: View)
    requires Proper(a) && Proper(b)
    ensures Defined(a, b) && Defined(b, a) <==> !(a.Custom? && b.Custom? && a.tag == b.tag && |a.data| != |b.data|)
    ensures Defined(a, b) || Defined(b, a)
    ensures Defined(a, b) && Defined(b, a) ==>
              (SameValue(a, b) <==> SameValue(b, a)) && (SameValue(a, b) <==> Observable(a) == Observable(b))
  {
    if Defined(a, b) && Defined(b, a) {
      EqualityIsObservationOrPrefix(a, b);
      EqualityIsObservationOrPrefix(b, a);
    }
  }
}
