/** The tokenizer of run(): it ends each argument in the line with NUL and notes where it starts. */
module Tokenizer {
  import opened Bytes
  import opened CommandTokens

  /** The loop bound of run(): one slot of nargv is kept for the final NULL. */
  const MAX_ARGS: nat := 9999

  /** A slot of nargv: NULL or the position of an argument. */
  datatype Slot = Null | Position(at: nat)

  function Count(s: seq<byte>): nat {
    if |Texts(Parse(s))| < MAX_ARGS then |Texts(Parse(s))| else MAX_ARGS
  }

  lemma CountIs(s: seq<byte>)
    ensures Count(s) == if |Texts(Parse(s))| < 9999 then |Texts(Parse(s))| else 9999
  {}

  method SkipBlanks(line: array<byte>, pos: nat, ghost s: seq<byte>) returns (ptr: nat)
    requires HoldsText(line[..], pos, s)
    ensures ptr == pos + BlankLength(s)
  {
    ptr := pos;
    HoldsByte(line[..], pos, s, 0);
    while IsBlank(line[ptr])
      invariant pos <= ptr <= pos + |s|
      invariant line[ptr] == NUL <==> ptr == pos + |s|
      invariant ptr < pos + |s| ==> line[ptr] == s[ptr - pos]
      invariant forall i :: 0 <= i < ptr - pos ==> IsBlank(s[i])
      decreases pos + |s| - ptr
    {
      ptr := ptr + 1;
      HoldsByte(line[..], pos, s, ptr - pos);
    }
    BlankLengthIs(s, ptr - pos);
  }

  method ScanBare(line: array<byte>, pos: nat, ghost s: seq<byte>) returns (ptr: nat)
    requires HoldsText(line[..], pos, s)
    ensures ptr == pos + BareLength(s)
  {
    ptr := pos;
    HoldsByte(line[..], pos, s, 0);
    while line[ptr] != SPACE && line[ptr] != TAB && line[ptr] != NUL
      invariant pos <= ptr <= pos + |s|
      invariant line[ptr] == NUL <==> ptr == pos + |s|
      invariant ptr < pos + |s| ==> line[ptr] == s[ptr - pos]
      invariant forall i :: 0 <= i < ptr - pos ==> !IsBlank(s[i])
      decreases pos + |s| - ptr
    {
      ptr := ptr + 1;
      HoldsByte(line[..], pos, s, ptr - pos);
    }
    BareLengthIs(s, ptr - pos);
  }

  /**
   The test for an escaped quote in this loop compares one byte with a backslash and with
   a quote at once. It never holds, so the text is taken as it is.
   */
  method ScanQuoted(line: array<byte>, pos: nat, lim: byte, ghost s: seq<byte>) returns (ptr: nat)
    requires HoldsText(line[..], pos, s)
    ensures ptr == pos + QuotedLength(s, lim)
  {
    ptr := pos;
    HoldsByte(line[..], pos, s, 0);
    while line[ptr] != lim && line[ptr] != NUL
      invariant pos <= ptr <= pos + |s|
      invariant line[ptr] == NUL <==> ptr == pos + |s|
      invariant ptr < pos + |s| ==> line[ptr] == s[ptr - pos]
      invariant forall i :: 0 <= i < ptr - pos ==> s[i] != lim
      decreases pos + |s| - ptr
    {
      ptr := ptr + 1;
      HoldsByte(line[..], pos, s, ptr - pos);
    }
    QuotedLengthIs(s, lim, ptr - pos);
  }

  /** Finds the end of the first argument: g blanks, q quotes and n bytes of text. */
  method ScanToken(line: array<byte>, pos: nat, ghost s: seq<byte>)
    returns (found: bool, start: nat, ptr: nat, ghost q: nat, ghost n: nat)
    requires HoldsText(line[..], pos, s)
    ensures found <==> BlankLength(s) < |s|
    ensures found ==> && start == pos + BlankLength(s) + q && ptr == start + n
                      && BlankLength(s) + q + n <= |s|
                      && FirstItem(s) == CutItem(s, BlankLength(s), q, n)
  {
    hide BlankLength, BareLength, QuotedLength, CutItem;
    ptr := SkipBlanks(line, pos, s);
    ghost var g := BlankLength(s);
    HoldsByte(line[..], pos, s, g);
    start := ptr;
    found := line[ptr] != NUL;
    q, n := 0, 0;
    if !found {
      return;
    }
    if line[ptr] == QUOT || line[ptr] == APOS {
      var lim := line[ptr];
      ptr := ptr + 1;
      start := ptr;
      SuffixHeld(line[..], pos, s, g + 1);
      ptr := ScanQuoted(line, ptr, lim, s[g + 1..]);
      q, n := 1, ptr - start;
    } else {
      SuffixHeld(line[..], pos, s, g);
      ptr := ScanBare(line, ptr, s[g..]);
      n := ptr - start;
    }
  }

  /** The first argument of the text `s` at `pos` was cut: `before` and `after` are the memory, `next` the new position. */
  ghost predicate CutFirst(before: seq<byte>, after: seq<byte>, pos: nat, s: seq<byte>, next: nat)
    requires BlankLength(s) < |s| && pos + |s| < |before|
  {
    var it := FirstItem(s);
    && |after| == |before|
    && next == pos + |ItemBytes(it)| <= pos + |s|
    && after[..next] == before[..pos] + CutBytes(it)
    && HoldsText(after, next, s[next - pos..])
    && after[pos + |s|..] == before[pos + |s|..]
  }

  /** One round of the loop: `found` is false at the end of the line. */
  method NextToken(line: array<byte>, pos: nat, ghost s: seq<byte>) returns (found: bool, start: nat, next: nat)
    requires HoldsText(line[..], pos, s)
    modifies line
    ensures found <==> BlankLength(s) < |s|
    ensures !found ==> line[..] == old(line[..])
    ensures found ==> && start == pos + |FirstItem(s).gap| + |FirstItem(s).open|
                      && CutFirst(old(line[..]), line[..], pos, s, next)
  {
    hide BlankLength, HoldsText, CutBytes, ItemBytes;
    ghost var q, n;
    found, start, next, q, n := ScanToken(line, pos, s);
    if found {
      next := EndToken(line, pos, next, s, BlankLength(s), q, n);
    }
  }

  /** Overwrites the byte that ends the argument, if there is one. */
  method EndToken(line: array<byte>, pos: nat, at: nat, ghost s: seq<byte>, ghost g: nat, ghost q: nat, ghost n: nat)
    returns (next: nat)
    requires HoldsText(line[..], pos, s) && g + q + n <= |s| && at == pos + g + q + n
    modifies line
    ensures var it := CutItem(s, g, q, n);
            && |it.gap| == g && |it.open| == q
            && next == pos + |ItemBytes(it)| <= pos + |s| < line.Length
            && line[..next] == old(line[..pos]) + CutBytes(it)
            && HoldsText(line[..], next, s[next - pos..])
            && line[pos + |s|..] == old(line[pos + |s|..])
  {
    ghost var mem := line[..];
    CutItemAsBytes(mem, pos, s, g, q, n);
    HoldsByte(mem, pos, s, at - pos);
    next := at;
    if line[next] != NUL {
      line[next] := NUL;
      next := next + 1;
    }
    SuffixHeld(mem, pos, s, next - pos);
    assert line[next..] == mem[next..];
    SameTail(mem, line[..], next, s[next - pos..]);
  }

  lemma SameTail(a: seq<byte>, b: seq<byte>, at: nat, text: seq<byte>)
    requires HoldsText(a, at, text) && |a| == |b| && a[at..] == b[at..]
    ensures HoldsText(b, at, text)
    ensures a[at + |text|..] == b[at + |text|..]
  {
    assert a[at..][..|text|] == a[at..at + |text|] && b[at..][..|text|] == b[at..at + |text|];
    assert a[at..][|text|..] == a[at + |text|..] && b[at..][|text|..] == b[at + |text|..];
    assert a[at + |text|..][0] == a[at + |text|];
  }

  lemma CutItemAsBytes(mem: seq<byte>, pos: nat, s: seq<byte>, g: nat, q: nat, n: nat)
    requires HoldsText(mem, pos, s) && g + q + n <= |s|
    ensures var it := CutItem(s, g, q, n);
            var at := pos + g + q + n;
            && |it.gap| == g && |it.open| == q
            && CutBytes(it) == mem[pos..at] + (if g + q + n < |s| then [NUL] else [])
            && |it.close| == if g + q + n < |s| then 1 else 0
  {
    var it := CutItem(s, g, q, n);
    assert mem[pos..pos + g + q + n] == mem[pos..pos + |s|][..g + q + n];
    assert it.gap + it.open + it.text == s[..g + q + n];
  }

  /**
   The tokenizing loop. Afterwards nargv points at the first 9999 arguments, and the C
   string at each position is the argument.
   */
  method Tokenize(line: array<byte>, nargv: array<Slot>, ghost s: seq<byte>) returns (argc: nat)
    requires HoldsText(line[..], 0, s) && nargv.Length == MAX_ARGS + 1
    modifies line, nargv
    ensures argc == Count(s)
    ensures argc == if |Texts(Parse(s))| < 9999 then |Texts(Parse(s))| else 9999
    ensures nargv[argc] == Null
    ensures forall k :: 0 <= k < argc ==> nargv[k] == Position(Offset(Parse(s), k))
    ensures forall k :: 0 <= k < argc ==> HoldsText(line[..], Offset(Parse(s), k), Texts(Parse(s))[k])
    ensures line[..|s|] == Cut(Parse(s), argc)
    ensures forall i :: |s| <= i < line.Length ==> line[i] == old(line[i])
  {
    hide *;
    CountIs(s);
    ghost var left, first, mem, argv := s, line[..], line[..], nargv[..];
    var ptr: nat, more := 0, true;
    argc := 0;
    CuttingStarts(mem, s, argv);
    while argc < MAX_ARGS
      invariant argc <= MAX_ARGS && argc <= |Texts(Parse(s))|
      invariant line[..] == mem && Cutting(mem, s, argc, ptr, left, first)
      invariant nargv[..] == argv && Stored(argv, Parse(s), argc)
    {
      more, ptr, left, mem, argv := StoreToken(line, nargv, argc, ptr, s, left, first, mem, argv);
      if !more {
        break;
      }
      argc := argc + 1;
    }
    CuttingEnds(mem, s, argc, ptr, left, first);
    StoredEnds(argv, s, argc);
    nargv[argc] := Null;
    assert line[..] == mem;
  }

  /** The loop body: cuts the next argument and stores its position in slot `argc`. */
  method StoreToken(line: array<byte>, nargv: array<Slot>, argc: nat, pos: nat, ghost s: seq<byte>,
                    ghost text: seq<byte>, ghost first: seq<byte>, ghost mem: seq<byte>, ghost argv: seq<Slot>)
    returns (found: bool, ptr: nat, ghost left: seq<byte>, ghost mem': seq<byte>, ghost argv': seq<Slot>)
    requires argc < nargv.Length && line[..] == mem && nargv[..] == argv
    requires Cutting(mem, s, argc, pos, text, first) && Stored(argv, Parse(s), argc)
    modifies line, nargv
    ensures line[..] == mem' && nargv[..] == argv'
    ensures argc <= |Texts(Parse(s))|
    ensures found ==> && argc < |Texts(Parse(s))|
                      && Cutting(mem', s, argc + 1, ptr, left, first) && Stored(argv', Parse(s), argc + 1)
    ensures !found ==> && argc == |Texts(Parse(s))|
                       && Cutting(mem', s, argc, ptr, left, first) && Stored(argv', Parse(s), argc)
  {
    hide Cutting, CutFirst, HoldsText, Texts, Parse;
    CuttingHolds(mem, s, argc, pos, text, first);
    var start;
    found, start, ptr := NextToken(line, pos, text);
    mem', argv' := line[..], argv;
    if !found {
      ptr, left := pos, text;
      return;
    }
    CuttingStep(mem, mem', s, argc, pos, text, first, ptr);
    left := text[ptr - pos..];
    nargv[argc] := Position(start);
    argv' := argv[argc := Position(start)];
  }

  /** The first `k` slots point at the first `k` arguments. */
  ghost predicate Stored(argv: seq<Slot>, t: Tokens, k: nat) {
    && k <= |Texts(t)| && k <= |argv|
    && forall j :: 0 <= j < k ==> argv[j] == Position(Offset(t, j))
  }

  lemma StoredEnds(argv: seq<Slot>, s: seq<byte>, k: nat)
    requires Stored(argv, Parse(s), k)
    ensures k <= |argv| && k <= |Texts(Parse(s))|
    ensures forall j :: 0 <= j < k ==> argv[j] == Position(Offset(Parse(s), j))
    ensures k == MAX_ARGS || (k <= MAX_ARGS && k == |Texts(Parse(s))|) ==> k == Count(s)
  {}

  lemma CuttingStarts(mem: seq<byte>, s: seq<byte>, argv: seq<Slot>)
    requires HoldsText(mem, 0, s)
    ensures Cutting(mem, s, 0, 0, s, mem) && Stored(argv, Parse(s), 0)
  {}

  /** The first `k` arguments of `s` are cut, `left` is the text at `ptr` still to be read. */
  ghost predicate Cutting(mem: seq<byte>, s: seq<byte>, k: nat, ptr: nat, left: seq<byte>, first: seq<byte>) {
    && NulFree(s) && k <= |Texts(Parse(s))|
    && ptr + |left| == |s| < |mem| == |first|
    && HoldsText(mem, ptr, left) && mem[|s|..] == first[|s|..]
    && mem[..ptr] == CutPrefix(Parse(s), k) && Parse(left) == Drop(Parse(s), k)
  }

  lemma CuttingHolds(mem: seq<byte>, s: seq<byte>, k: nat, ptr: nat, left: seq<byte>, first: seq<byte>)
    requires Cutting(mem, s, k, ptr, left, first)
    ensures HoldsText(mem, ptr, left) && ptr + |left| == |s| < |mem| && k <= |Texts(Parse(s))|
    ensures BlankLength(left) == |left| ==> k == |Texts(Parse(s))|
  {}

  lemma CuttingStep(before: seq<byte>, after: seq<byte>, s: seq<byte>, k: nat, ptr: nat, left: seq<byte>,
                    first: seq<byte>, next: nat)
    requires Cutting(before, s, k, ptr, left, first)
    requires BlankLength(left) < |left| && ptr + |left| < |before| && CutFirst(before, after, ptr, left, next)
    ensures var it := FirstItem(left);
            && k < |Texts(Parse(s))| && ptr < next <= ptr + |left|
            && Offset(Parse(s), k) == ptr + |it.gap| + |it.open|
            && Cutting(after, s, k + 1, next, left[next - ptr..], first)
  {
    hide HoldsText, CutBytes, Texts, CutPrefix, Drop, Offset, ItemBytes, NulFree;
    CutAt(Parse(s), k);
    assert Parse(left) == Next(FirstItem(left), Parse(left[next - ptr..]));
  }

  lemma CuttingEnds(mem: seq<byte>, s: seq<byte>, k: nat, ptr: nat, left: seq<byte>, first: seq<byte>)
    requires Cutting(mem, s, k, ptr, left, first)
    ensures k <= |Texts(Parse(s))|
    ensures |s| < |mem| == |first| && mem[..|s|] == Cut(Parse(s), k)
    ensures forall i :: |s| <= i < |mem| ==> mem[i] == first[i]
    ensures forall j :: 0 <= j < k ==> HoldsText(mem, Offset(Parse(s), j), Texts(Parse(s))[j])
  {
    hide HoldsText, Parse, Drop, Texts, Cut, CutPrefix, Offset, WellFormed, Render, NulFree;
    CutAt(Parse(s), k);
    RenderParse(left);
    RenderParse(s);
    SplitMemory(mem, first, ptr, left, |s|);
    assert mem == Cut(Parse(s), k) + [NUL] + mem[|s| + 1..];
    forall j | 0 <= j < k
      ensures HoldsText(mem, Offset(Parse(s), j), Texts(Parse(s))[j])
    {
      CutHolds(Parse(s), k, j, mem[|s| + 1..]);
    }
  }

  lemma SplitMemory(mem: seq<byte>, first: seq<byte>, ptr: nat, left: seq<byte>, end: nat)
    requires HoldsText(mem, ptr, left) && ptr + |left| == end < |mem| == |first| && mem[end..] == first[end..]
    ensures mem[..end] == mem[..ptr] + left && mem == mem[..end] + [NUL] + mem[end + 1..]
    ensures forall i :: end <= i < |mem| ==> mem[i] == first[i]
  {
    assert forall i :: end <= i < |mem| ==> mem[i] == mem[end..][i - end] && first[i] == first[end..][i - end];
  }
}
