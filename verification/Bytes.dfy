/** Bytes, character classes and NUL-terminated strings in memory, as the C code sees them. */
module Bytes {
  type byte = b: int | 0 <= b < 256

  const NUL: byte := 0
  const TAB: byte := 9
  const NEWLINE: byte := 10
  const SPACE: byte := 32
  const QUOT: byte := 34
  const APOS: byte := 39
  const AT_SIGN: byte := 64
  const BACKSLASH: byte := 92

  /** The separators of the command line tokenizer. */
  predicate IsBlank(b: byte) {
    b == SPACE || b == TAB
  }

  predicate IsQuote(b: byte) {
    b == QUOT || b == APOS
  }

  /** isspace() of the C locale. */
  predicate IsSpace(b: byte) {
    b == SPACE || 9 <= b <= 13
  }

  /** The bytes of a string of 7-bit characters. */
  function Ascii(s: string): (r: seq<byte>)
    requires forall i :: 0 <= i < |s| ==> s[i] < 128 as char
    ensures |r| == |s| && forall i :: 0 <= i < |s| ==> r[i] == s[i] as int
  {
    seq(|s|, i requires 0 <= i < |s| => s[i] as int)
  }

  /** The bytes and byte classes by their characters. */
  lemma Characters(b: byte)
    ensures [NUL, TAB, NEWLINE, SPACE, QUOT, APOS, AT_SIGN, BACKSLASH] == Ascii("\0\t\n \"\'@\\")
    ensures IsBlank(b) <==> b in Ascii(" \t")
    ensures IsQuote(b) <==> b in Ascii("\"\'")
    ensures IsSpace(b) <==> b in Ascii(" \t\n\r") + [11, 12]
  {
    var c := Ascii(" \t\n\r") + [11, 12];
    assert c == [32, 9, 10, 13, 11, 12];
    assert Ascii(" \t") == [32, 9] && Ascii("\"\'") == [34, 39];
    assert b == 11 ==> c[4] == b;
  }

  predicate NulFree(s: seq<byte>) {
    NUL !in s
  }

  predicate AllBlank(s: seq<byte>) {
    forall i :: 0 <= i < |s| ==> IsBlank(s[i])
  }

  predicate NoBlank(s: seq<byte>) {
    forall i :: 0 <= i < |s| ==> !IsBlank(s[i])
  }

  lemma Associate(a: seq<byte>, b: seq<byte>, c: seq<byte>)
    ensures (a + b) + c == a + (b + c)
  {}

  lemma SliceOfConcat(a: seq<byte>, b: seq<byte>, from: nat, to: nat)
    requires from <= to <= |b|
    ensures (a + b)[|a| + from..|a| + to] == b[from..to]
  {}

  /** The NUL-terminated string that starts at `at` is `text`. */
  ghost predicate HoldsText(mem: seq<byte>, at: nat, text: seq<byte>) {
    && at + |text| < |mem|
    && NulFree(text)
    && mem[at..at + |text|] == text
    && mem[at + |text|] == NUL
  }

  lemma HoldsByte(mem: seq<byte>, at: nat, text: seq<byte>, i: nat)
    requires HoldsText(mem, at, text) && i <= |text|
    ensures mem[at + i] == NUL <==> i == |text|
    ensures i < |text| ==> mem[at + i] == text[i]
  {
    if i < |text| {
      assert mem[at + i] == mem[at..at + |text|][i];
    }
  }

  lemma HoldsWritten(mem: seq<byte>, head: seq<byte>, text: seq<byte>)
    requires NulFree(text) && head + text + [NUL] <= mem
    ensures HoldsText(mem, |head|, text)
  {
    var all := head + text + [NUL];
    assert mem[..|all|] == all;
    assert mem[..|all|][|head|..|head| + |text|] == text;
  }

  lemma HoldsShifted(mem: seq<byte>, head: seq<byte>, at: nat, text: seq<byte>)
    requires HoldsText(mem, at, text)
    ensures HoldsText(head + mem, |head| + at, text)
  {
    var all := head + mem;
    assert all[|head| + at..|head| + at + |text|] == mem[at..at + |text|];
  }

  lemma SuffixHeld(mem: seq<byte>, at: nat, text: seq<byte>, k: nat)
    requires HoldsText(mem, at, text) && k <= |text|
    ensures HoldsText(mem, at + k, text[k..])
  {
    assert mem[at + k..at + |text|] == mem[at..at + |text|][k..];
  }

  /** strcpy(): copies `text` and its terminator to `at`; `end` is where the terminator went. */
  method CopyText(mem: array<byte>, at: nat, text: seq<byte>) returns (end: nat)
    requires NulFree(text) && at + |text| < mem.Length
    modifies mem
    ensures end == at + |text|
    ensures mem[..] == old(mem[..at]) + text + [NUL] + old(mem[end + 1..])
    ensures HoldsText(mem[..], at, text)
  {
    for i := 0 to |text|
      invariant mem[..at] == old(mem[..at])
      invariant mem[at..at + i] == text[..i]
      invariant mem[at + i..] == old(mem[at + i..])
    {
      ghost var after := mem[at + i..];
      mem[at + i] := text[i];
      assert mem[at..at + i + 1] == mem[at..at + i] + [text[i]];
      assert mem[at + i + 1..] == after[1..];
    }
    end := at + |text|;
    ghost var after := mem[end..];
    mem[end] := NUL;
    assert mem[at..end] == text;
    assert mem[end + 1..] == after[1..];
    assert mem[..] == mem[..at] + mem[at..end] + [NUL] + mem[end + 1..];
  }

  /** The terminator search of strlen(), strchr(s, 0) and strcat(). */
  method FindEnd(mem: array<byte>, at: nat, ghost text: seq<byte>) returns (end: nat)
    requires HoldsText(mem[..], at, text)
    ensures end == at + |text|
  {
    end := at;
    HoldsByte(mem[..], at, text, 0);
    while mem[end] != NUL
      invariant at <= end <= at + |text|
      invariant mem[end] == NUL <==> end == at + |text|
      decreases at + |text| - end
    {
      end := end + 1;
      HoldsByte(mem[..], at, text, end - at);
    }
  }

  /** strcat(). */
  method AppendText(mem: array<byte>, ghost head: seq<byte>, tail: seq<byte>)
    requires HoldsText(mem[..], 0, head)
    requires NulFree(tail) && |head| + |tail| < mem.Length
    modifies mem
    ensures HoldsText(mem[..], 0, head + tail)
  {
    var end := FindEnd(mem, 0, head);
    var last := CopyText(mem, end, tail);
    assert mem[..last] == head + tail;
  }

  /** What fputs() writes for the string at `at`. */
  method ReadText(mem: array<byte>, at: nat, ghost text: seq<byte>) returns (s: seq<byte>)
    requires HoldsText(mem[..], at, text)
    ensures s == text
  {
    var end := FindEnd(mem, at, text);
    s := mem[at..end];
    assert s == mem[..][at..end];
  }
}
