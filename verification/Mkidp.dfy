/** mkidp: writing a processor description between the DOS stub and the PE header of a file. */
module Mkidp {
  import opened Bytes
  import opened Division

  const DESC_START: nat := 0x80
  const PE_OFFSET_AT: nat := 0x3C
  const MIN_ZEROES: nat := 20

  datatype Outcome = Done | ReadError | TooLong | DescriptionError | ZeroError

  /** `data` with `bytes` written at `pos`; a gap before them reads as zero. */
  function Overlay(data: seq<byte>, pos: nat, bytes: seq<byte>): (r: seq<byte>) {
    if bytes == [] then data
    else
      seq(if pos + |bytes| > |data| then pos + |bytes| else |data|,
          i requires 0 <= i => if pos <= i < pos + |bytes| then bytes[i - pos]
                               else if i < |data| then data[i] else 0)
  }

  /** A file open for update, on a device that holds no byte at `limit` or beyond. */
  class File {
    var data: seq<byte>
    var pos: nat
    const limit: nat

    constructor (data: seq<byte>, limit: nat)
      ensures this.data == data && this.limit == limit
    {
      this.data, pos, this.limit := data, 0, limit;
    }

    /** fseek(fp, to, SEEK_SET) */
    method Seek(to: nat)
      modifies `pos
      ensures pos == to
    {
      pos := to;
    }

    /** fread() of an int: four bytes, lowest first, two's complement. */
    method ReadInt() returns (ok: bool, value: int)
      modifies `pos
      ensures ok <==> old(pos) + 4 <= |data|
      ensures ok ==> value == IntAt(data, old(pos)) && HasInt(data, old(pos), value) && pos == old(pos) + 4
      ensures !ok ==> pos == old(pos)
    {
      ok := pos + 4 <= |data|;
      value := 0;
      if ok {
        IntOfBytes(data, pos, IntAt(data, pos));
        value := IntAt(data, pos);
        pos := pos + 4;
      }
    }

    /** fwrite() of one item: as many bytes as fit, and whether all of them did. */
    method Write(bytes: seq<byte>) returns (ok: bool)
      modifies `data, `pos
      ensures var k := Fitting(limit, old(pos), |bytes|);
              && data == Overlay(old(data), old(pos), bytes[..k])
              && pos == old(pos) + k
              && (ok <==> k == |bytes|)
    {
      var k := Fitting(limit, pos, |bytes|);
      data := Overlay(data, pos, bytes[..k]);
      pos := pos + k;
      ok := k == |bytes|;
    }
  }

  /** How many of `n` bytes at `pos` the device takes. */
  function Fitting(limit: nat, pos: nat, n: nat): (k: nat)
    ensures k <= n
  {
    if pos + n <= limit then n else if pos < limit then limit - pos else 0
  }

  function IntAt(data: seq<byte>, at: nat): int
    requires at + 4 <= |data|
  {
    var u: int := data[at] as int + 0x100 * data[at + 1] as int
                  + 0x1_0000 * data[at + 2] as int + 0x100_0000 * data[at + 3] as int;
    if u < 0x8000_0000 then u else u - 0x1_0000_0000
  }

  /** The four bytes are the digits of `v` to the base 256, the lowest first; a negative number has its two's complement. */
  predicate HasInt(data: seq<byte>, at: nat, v: int)
    requires at + 4 <= |data|
  {
    && -0x8000_0000 <= v < 0x8000_0000
    && data[at] == v % 0x100 && data[at + 1] == v / 0x100 % 0x100
    && data[at + 2] == v / 0x1_0000 % 0x100 && data[at + 3] == v / 0x100_0000 % 0x100
  }

  /** Each four bytes are the digits of exactly one int, and that is what is read. */
  lemma IntOfBytes(data: seq<byte>, at: nat, v: int)
    requires at + 4 <= |data|
    ensures HasInt(data, at, v) <==> v == IntAt(data, at)
  {
    DigitsOf(v);
    var a, b, c, d := data[at], data[at + 1], data[at + 2], data[at + 3];
    DigitsAre(a, b, c, d, IntAt(data, at));
  }

  lemma DigitsOf(v: int)
    ensures v == v % 0x100 + 0x100 * (v / 0x100 % 0x100) + 0x1_0000 * (v / 0x1_0000 % 0x100) + 0x100_0000 * (v / 0x100_0000)
    ensures -0x8000_0000 <= v < 0x8000_0000 ==>
              v / 0x100_0000 % 0x100 == if v >= 0 then v / 0x100_0000 else v / 0x100_0000 + 0x100
  {
    var q := v / 0x100;
    var p := q / 0x100;
    var o := p / 0x100;
    DivisionIs(v, 0x1_0000, p, v % 0x100 + 0x100 * (q % 0x100));
    DivisionIs(v, 0x100_0000, o, v % 0x100 + 0x100 * (q % 0x100) + 0x1_0000 * (p % 0x100));
    if 0 <= v < 0x8000_0000 {
      DivisionIs(o, 0x100, 0, o);
    } else if -0x8000_0000 <= v < 0 {
      DivisionIs(o, 0x100, -1, o + 0x100);
    }
  }

  lemma DigitsAre(a: byte, b: byte, c: byte, d: byte, v: int)
    requires var u := a + 0x100 * b + 0x1_0000 * c + 0x100_0000 * d; v == if u < 0x8000_0000 then u else u - 0x1_0000_0000
    ensures v % 0x100 == a && v / 0x100 % 0x100 == b && v / 0x1_0000 % 0x100 == c && v / 0x100_0000 % 0x100 == d
  {
    var o := if v >= 0 then d else d - 0x100;
    DivisionIs(v, 0x100, b + 0x100 * c + 0x1_0000 * o, a);
    DivisionIs(v, 0x1_0000, c + 0x100 * o, a + 0x100 * b);
    DivisionIs(v, 0x100_0000, o, a + 0x100 * b + 0x1_0000 * c);
    DivisionIs(b + 0x100 * c + 0x1_0000 * o, 0x100, c + 0x100 * o, b);
    DivisionIs(c + 0x100 * o, 0x100, o, c);
    DivisionIs(o, 0x100, if v >= 0 then 0 else -1, d);
  }

  predicate Readable(data: seq<byte>) {
    PE_OFFSET_AT + 4 <= |data|
  }

  function PeOffset(data: seq<byte>): int
    requires Readable(data)
  {
    IntAt(data, PE_OFFSET_AT)
  }

  function Zeroes(data: seq<byte>, desc: seq<byte>): int
    requires Readable(data)
  {
    PeOffset(data) - DESC_START - (|desc| + 1)
  }

  predicate Accepted(data: seq<byte>, desc: seq<byte>) {
    Readable(data) && Zeroes(data, desc) >= MIN_ZEROES
  }

  /** What belongs between DESC_START and the PE header. */
  function Region(data: seq<byte>, desc: seq<byte>): (r: seq<byte>)
    requires Accepted(data, desc)
    ensures |r| == PeOffset(data) - DESC_START
  {
    desc + [NUL] + seq(Zeroes(data, desc), _ => 0)
  }

  /** How much of the region the device takes. */
  function Taken(data: seq<byte>, desc: seq<byte>, limit: nat): nat
    requires Accepted(data, desc)
  {
    Fitting(limit, DESC_START, |Region(data, desc)|)
  }

  function Result(data: seq<byte>, desc: seq<byte>, limit: nat): Outcome {
    if !Readable(data) then ReadError
    else if !Accepted(data, desc) then TooLong
    else if Taken(data, desc, limit) < |desc| + 1 then DescriptionError
    else if Taken(data, desc, limit) < |Region(data, desc)| then ZeroError
    else Done
  }

  function NewData(data: seq<byte>, desc: seq<byte>, limit: nat): seq<byte> {
    if !Accepted(data, desc) then data
    else Overlay(data, DESC_START, Region(data, desc)[..Taken(data, desc, limit)])
  }

  lemma OverlayAt(data: seq<byte>, pos: nat, bytes: seq<byte>, i: nat)
    requires bytes != []
    ensures |Overlay(data, pos, bytes)| == if pos + |bytes| > |data| then pos + |bytes| else |data|
    ensures i < |Overlay(data, pos, bytes)| ==>
              Overlay(data, pos, bytes)[i] == if pos <= i < pos + |bytes| then bytes[i - pos]
                                              else if i < |data| then data[i] else 0
  {}

  lemma OverlayNothing(data: seq<byte>, pos: nat)
    ensures Overlay(data, pos, []) == data
  {}

  /** Two writes in a row are one write of both. */
  lemma OverlayAppend(data: seq<byte>, pos: nat, a: seq<byte>, b: seq<byte>)
    ensures Overlay(Overlay(data, pos, a), pos + |a|, b) == Overlay(data, pos, a + b)
  {
    hide *;
    var first := Overlay(data, pos, a);
    if a == [] {
      OverlayNothing(data, pos);
      assert a + b == b;
    } else if b == [] {
      OverlayNothing(first, pos + |a|);
      assert a + b == a;
    } else {
      var once, twice := Overlay(data, pos, a + b), Overlay(first, pos + |a|, b);
      OverlayAt(data, pos, a, 0);
      OverlayAt(data, pos, a + b, 0);
      OverlayAt(first, pos + |a|, b, 0);
      forall i | 0 <= i < |once|
        ensures once[i] == twice[i]
      {
        OverlayAt(data, pos, a, i);
        OverlayAt(data, pos, a + b, i);
        OverlayAt(first, pos + |a|, b, i);
      }
    }
  }

  /** main() from the first fseek() on. */
  method WriteDescription(f: File, desc: seq<byte>) returns (r: Outcome)
    modifies f
    ensures r == Result(old(f.data), desc, f.limit)
    ensures f.data == NewData(old(f.data), desc, f.limit)
    ensures r == ReadError <==> |old(f.data)| < 0x40
    ensures forall v :: |old(f.data)| >= 0x40 && HasInt(old(f.data), 0x3C, v) ==> r == OutcomeFor(|desc|, v, f.limit)
  {
    hide Overlay, IntAt, HasInt, OutcomeFor;
    RunOutcome(f.data, desc, f.limit);
    f.Seek(PE_OFFSET_AT);
    var ok, peoff := f.ReadInt();
    if !ok {
      return ReadError;
    }
    var total := peoff - DESC_START;
    var len := |desc| + 1;
    var zeroes := total - len;
    if zeroes < MIN_ZEROES {
      return TooLong;
    }
    ghost var data := f.data;
    ghost var region := Region(data, desc);
    assert region[..len] == desc + [NUL];
    f.Seek(DESC_START);
    ok := f.Write(desc + [NUL]);
    if !ok {
      assert (desc + [NUL])[..f.pos - DESC_START] == region[..f.pos - DESC_START];
      return DescriptionError;
    }
    assert (desc + [NUL])[..len] == desc + [NUL];
    for i := 0 to zeroes
      invariant f.pos == DESC_START + len + i && (f.pos <= f.limit)
      invariant f.data == Overlay(data, DESC_START, region[..len + i])
    {
      ghost var before := f.data;
      ok := f.Write([0]);
      assert region[..len + i + 1] == region[..len + i] + [0];
      OverlayAppend(data, DESC_START, region[..len + i], [0]);
      if !ok {
        OverlayNothing(before, f.pos);
        return ZeroError;
      }
      assert [0][..1] == [0 as byte];
    }
    r := Done;
  }

  /** What comes of a description of `n` bytes when the PE header is at `v` and the device has `limit` bytes. */
  function OutcomeFor(n: nat, v: int, limit: nat): Outcome {
    if v < 0x80 + n + 1 + 20 then TooLong
    else if limit < 0x80 + n + 1 then DescriptionError
    else if limit < v then ZeroError
    else Done
  }

  /** The outcome by the number in the file: accepted exactly if the description, its NUL and 20 more zeros fit in front of it. */
  lemma RunOutcome(data: seq<byte>, desc: seq<byte>, limit: nat)
    ensures |data| < 0x40 <==> Result(data, desc, limit) == ReadError
    ensures forall v :: |data| >= 0x40 && HasInt(data, 0x3C, v) ==> Result(data, desc, limit) == OutcomeFor(|desc|, v, limit)
  {
    hide HasInt, IntAt;
    forall v | |data| >= 0x40 && HasInt(data, 0x3C, v)
      ensures Result(data, desc, limit) == OutcomeFor(|desc|, v, limit)
    {
      IntOfBytes(data, 0x3C, v);
    }
  }

  /** The new file byte by byte, for any outcome: what the device takes of the description and the zeros behind it. */
  lemma NewBytes(data: seq<byte>, desc: seq<byte>, limit: nat, v: int, i: nat)
    requires |data| >= 0x40 && HasInt(data, 0x3C, v)
    requires v >= 0x80 + |desc| + 1 + 20 && i < |NewData(data, desc, limit)|
    ensures |NewData(data, desc, limit)|
            == var end := if limit < v then limit else v; if end <= 0x80 || end <= |data| then |data| else end
    ensures NewData(data, desc, limit)[i]
            == if 0x80 <= i < v && i < limit then (if i < 0x80 + |desc| then desc[i - 0x80] else 0)
               else if i < |data| then data[i] else 0
  {
    hide HasInt, IntAt, Overlay;
    IntOfBytes(data, 0x3C, v);
    var region := Region(data, desc);
    var bytes := region[..Taken(data, desc, limit)];
    if bytes != [] {
      OverlayAt(data, DESC_START, bytes, i);
    } else {
      OverlayNothing(data, DESC_START);
    }
  }

  /**
   A successful run, with the PE header at `v`: the description, its NUL and at least 20 more zeros fill the
   bytes from 0x80 to it; nothing else changes.
   */
  lemma DoneWritesRegion(data: seq<byte>, desc: seq<byte>, limit: nat, v: int)
    requires |data| >= 0x40 && HasInt(data, 0x3C, v)
    requires Result(data, desc, limit) == Done
    ensures var after := NewData(data, desc, limit);
            && |data| <= |after| && 0x80 + |desc| + 1 + 20 <= v <= |after| && (|after| == |data| || |after| == v)
            && after[0x80..0x80 + |desc|] == desc
            && (forall i :: 0x80 + |desc| <= i < v ==> after[i] == 0)
            && (forall i :: 0 <= i < 0x80 ==> after[i] == if i < |data| then data[i] else 0)
            && (forall i :: v <= i < |data| ==> after[i] == data[i])
  {
    hide HasInt, Region, Overlay, NewData, Result;
    RunOutcome(data, desc, limit);
    var after := NewData(data, desc, limit);
    SomeByte(data, desc, limit);
    NewBytes(data, desc, limit, v, 0);
    forall i | 0 <= i < |after|
      ensures after[i] == if 0x80 <= i < v then (if i < 0x80 + |desc| then desc[i - 0x80] else 0)
                          else if i < |data| then data[i] else 0
    {
      NewBytes(data, desc, limit, v, i);
    }
  }

  lemma SomeByte(data: seq<byte>, desc: seq<byte>, limit: nat)
    ensures |data| <= |NewData(data, desc, limit)|
  {}

  /** Whatever the outcome, no byte outside the region changes, and a rejected description changes nothing. */
  lemma OnlyTheRegionChanges(data: seq<byte>, desc: seq<byte>, limit: nat, i: nat)
    requires i < |data|
    ensures |data| <= |NewData(data, desc, limit)|
    ensures NewData(data, desc, limit)[i] == data[i]
            || (Accepted(data, desc) && DESC_START <= i < PeOffset(data))
    ensures Result(data, desc, limit) in {ReadError, TooLong} ==> NewData(data, desc, limit) == data
  {}

  /** The PE offset itself lies outside the region and survives. */
  lemma PeOffsetKept(data: seq<byte>, desc: seq<byte>, limit: nat)
    requires Readable(data)
    ensures Readable(NewData(data, desc, limit)) && PeOffset(NewData(data, desc, limit)) == PeOffset(data)
  {
    OnlyTheRegionChanges(data, desc, limit, PE_OFFSET_AT);
    OnlyTheRegionChanges(data, desc, limit, PE_OFFSET_AT + 1);
    OnlyTheRegionChanges(data, desc, limit, PE_OFFSET_AT + 2);
    OnlyTheRegionChanges(data, desc, limit, PE_OFFSET_AT + 3);
  }

  lemma OverlayTwice(data: seq<byte>, pos: nat, a: seq<byte>, b: seq<byte>)
    requires |a| <= |b|
    ensures Overlay(Overlay(data, pos, a), pos, b) == Overlay(data, pos, b)
  {}

  /** A successful second run leaves what it would have left alone, whatever came of the first run. */
  lemma LastRunWins(data: seq<byte>, first: seq<byte>, second: seq<byte>, limit: nat)
    requires Result(NewData(data, first, limit), second, limit) == Done
    ensures Result(data, second, limit) == Done
    ensures NewData(NewData(data, first, limit), second, limit) == NewData(data, second, limit)
  {
    if Accepted(data, first) {
      PeOffsetKept(data, first, limit);
      var region := Region(data, second);
      assert region[..|region|] == region;
      OverlayTwice(data, DESC_START, Region(data, first)[..Taken(data, first, limit)], region);
    }
  }
}
