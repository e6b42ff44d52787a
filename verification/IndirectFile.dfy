/** prc1: the whole loop over the lines of the indirect file. */
module IndirectFile {
  import opened Bytes
  import opened WordList
  import opened Permuter
  import opened ResponseFile

  /** How many bytes fgets() takes of `s` if `room` fit in the buffer: up to a newline, which it keeps. */
  function TakeLength(s: seq<byte>, room: nat): (n: nat)
    ensures n <= |s| && n <= room && (s != [] && room > 0 ==> n > 0)
    ensures forall i :: 0 <= i < n - 1 ==> s[i] != NEWLINE
    ensures n == |s| || n == room || (n > 0 && s[n - 1] == NEWLINE)
  {
    if s == [] || room == 0 then 0
    else if s[0] == NEWLINE then 1
    else 1 + TakeLength(s[1..], room - 1)
  }

  /** The C string that starts with these bytes: they end at the first NUL. */
  function TextOf(s: seq<byte>): (t: seq<byte>)
    ensures |t| <= |s| && t == s[..|t|] && NulFree(t) && (|t| < |s| ==> s[|t|] == NUL)
  {
    if s == [] || s[0] == NUL then [] else [s[0]] + TextOf(s[1..])
  }

  /** The text written, and whether the program then left because of too many words. */
  datatype Outcome = Outcome(text: seq<byte>, exits: bool)

  /** The result of a line in front of that of the lines behind it. */
  function Before(line: LineResult, rest: Outcome): Outcome {
    match line
    case Skipped => rest
    case Written(text) => Outcome(text + rest.text, rest.exits)
    case TooManyWords => Outcome([], true)
  }

  function FileOutput(s: seq<byte>, user: seq<byte>, borland: bool, room: nat): Outcome
    requires room > 0
    decreases |s|
  {
    if s == [] then Outcome([], false)
    else
      var n := TakeLength(s, room);
      Before(LineOutput(TextOf(s[..n]), user, borland), FileOutput(s[n..], user, borland, room))
  }

  /** Every line, up to one that has too many words, is roomy. */
  predicate RoomyFile(s: seq<byte>, user: seq<byte>, room: nat)
    requires room > 0
    decreases |s|
  {
    s == [] || (var n := TakeLength(s, room);
                var text := TextOf(s[..n]);
                && Roomy(text, user, room + 1)
                && (LineOutput(text, user, true).TooManyWords? || RoomyFile(s[n..], user, room)))
  }

  /** fgets() at `pos` of a file that is not at its end. */
  method Fgets(fl: array<byte>, s: seq<byte>, pos: nat) returns (n: nat)
    requires pos < |s| && fl.Length > 1
    modifies fl
    ensures n == TakeLength(s[pos..], fl.Length - 1)
    ensures HoldsText(fl[..], 0, TextOf(s[pos..][..n]))
  {
    hide *;
    n := 0;
    while n < fl.Length - 1 && pos + n < |s|
      invariant n <= fl.Length - 1 && pos + n <= |s|
      invariant fl[..n] == s[pos..][..n]
      invariant forall i :: 0 <= i < n ==> s[pos..][i] != NEWLINE
    {
      fl[n] := s[pos + n];
      n := n + 1;
      assert s[pos..][..n] == s[pos..][..n - 1] + [s[pos..][n - 1]];
      if s[pos + n - 1] == NEWLINE {
        break;
      }
    }
    TakeLengthIs(s[pos..], fl.Length - 1, n);
    fl[n] := NUL;
    assert fl[..n] == s[pos..][..n];
    TextHeld(fl[..], s[pos..][..n]);
  }

  lemma TakeLengthIs(s: seq<byte>, room: nat, n: nat)
    requires n <= |s| && n <= room && (s != [] && room > 0 ==> n > 0)
    requires forall i :: 0 <= i < n - 1 ==> s[i] != NEWLINE
    requires n == |s| || n == room || (n > 0 && s[n - 1] == NEWLINE)
    ensures TakeLength(s, room) == n
  {}

  lemma TextHeld(mem: seq<byte>, s: seq<byte>)
    requires |s| < |mem| && mem[..|s|] == s && mem[|s|] == NUL
    ensures HoldsText(mem, 0, TextOf(s))
  {
    var t := TextOf(s);
    assert mem[0..|t|] == mem[..|s|][..|t|];
    if |t| < |s| {
      assert mem[|t|] == mem[..|s|][|t|];
    }
  }

  /** prc1(): what is written for an indirect file that holds `s`. A null `user` stands for no key. */
  method ProcessFile(heap: Heap, fl: array<byte>, s: seq<byte>, user: array?<byte>, ghost key: seq<byte>, borland: bool)
    returns (r: Outcome)
    requires fl.Length > 1 && fl != user
    requires if user == null then key == [] else key != [] && HoldsText(user[..], 0, key)
    requires RoomyFile(s, key, fl.Length - 1)
    modifies heap, fl
    ensures r == FileOutput(s, key, borland, fl.Length - 1)
    ensures !r.exits ==> heap.live == old(heap.live)
  {
    hide FileOutput, RoomyFile, LineOutput, Roomy, HoldsText, TakeLength, TextOf;
    ghost var room := fl.Length - 1;
    ghost var all := FileOutput(s, key, borland, room);
    var pos, out := 0, [];
    assert s[0..] == s;
    while pos < |s|
      invariant pos <= |s| && RoomyFile(s[pos..], key, room)
      invariant all == Before(Written(out), FileOutput(s[pos..], key, borland, room))
      invariant heap.live == old(heap.live)
      invariant if user == null then key == [] else key != [] && HoldsText(user[..], 0, key)
      decreases |s| - pos
    {
      FileStep(s[pos..], key, borland, room);
      ghost var keyHeld := if user == null then [] else user[..];
      var n := Fgets(fl, s, pos);
      assert user != null ==> user[..] == keyHeld;
      ghost var text := TextOf(s[pos..][..n]);
      ghost var rest := FileOutput(s[pos..][n..], key, borland, room);
      var line := ProcessLine(heap, fl, text, user, key, borland);
      assert user != null ==> user[..] == keyHeld;
      assert s[pos..][n..] == s[pos + n..];
      pos := pos + n;
      match line
      case TooManyWords =>
        return Outcome(out, true);
      case Skipped =>
      case Written(written) =>
        Associate(out, written, rest.text);
        out := out + written;
    }
    assert s[pos..] == [];
    FileEnds(key, borland, room);
    assert out + [] == out;
    r := Outcome(out, false);
  }

  lemma FileStep(s: seq<byte>, user: seq<byte>, borland: bool, room: nat)
    requires s != [] && room > 0 && RoomyFile(s, user, room)
    ensures var n := TakeLength(s, room);
            var text := TextOf(s[..n]);
            && 0 < n <= |s| && Roomy(text, user, room + 1)
            && FileOutput(s, user, borland, room)
               == Before(LineOutput(text, user, borland), FileOutput(s[n..], user, borland, room))
            && (!LineOutput(text, user, borland).TooManyWords? ==> RoomyFile(s[n..], user, room))
  {}

  lemma FileEnds(user: seq<byte>, borland: bool, room: nat)
    requires room > 0
    ensures FileOutput([], user, borland, room) == Outcome([], false)
  {}

  /** No line is longer than the buffer: every piece that fgets() takes is a line, or what is left of the file. */
  predicate WholeLines(s: seq<byte>, room: nat)
    requires room > 0
    decreases |s|
  {
    s == [] || (var n := TakeLength(s, room); (n == |s| || s[n - 1] == NEWLINE) && WholeLines(s[n..], room))
  }

  /** Every piece leaves a byte to spare in the buffer. */
  predicate ShortLines(s: seq<byte>, room: nat)
    requires room > 0
    decreases |s|
  {
    s == [] || (var n := TakeLength(s, room); n < room && ShortLines(s[n..], room))
  }

  /** A file whose lines are all shorter than the buffer needs no more room, whatever the key. */
  lemma {:induction false} ShortLinesAreRoomy(s: seq<byte>, user: seq<byte>, room: nat)
    requires room > 0 && ShortLines(s, room)
    ensures RoomyFile(s, user, room) && WholeLines(s, room)
    decreases |s|
  {
    hide Roomy, LineOutput;
    if s != [] {
      var n := TakeLength(s, room);
      ShortLinesAreRoomy(s[n..], user, room);
      ShortIsRoomy(TextOf(s[..n]), user, room + 1);
    }
  }

  lemma ShortIsRoomy(text: seq<byte>, user: seq<byte>, size: nat)
    requires |text| + 1 < size
    ensures Roomy(text, user, size)
  {}

  /** A file in which no line is longer than the buffer is read as with a buffer for the whole file. */
  lemma {:induction false} WholeLinesNeedNoMore(s: seq<byte>, user: seq<byte>, borland: bool, room: nat, more: nat)
    requires 0 < room <= more && WholeLines(s, room)
    ensures WholeLines(s, more) && FileOutput(s, user, borland, more) == FileOutput(s, user, borland, room)
    decreases |s|
  {
    hide LineOutput, TextOf;
    if s != [] {
      var n := TakeLength(s, room);
      TakeLengthIs(s, more, n);
      WholeLinesNeedNoMore(s[n..], user, borland, room, more);
    }
  }

  /** A file that ends in a newline, and another one behind it: both give what they give alone. */
  lemma {:induction false} FilesAreIndependent(a: seq<byte>, b: seq<byte>, user: seq<byte>, borland: bool, room: nat)
    requires room > 0 && (a != [] ==> a[|a| - 1] == NEWLINE)
    ensures var first, second := FileOutput(a, user, borland, room), FileOutput(b, user, borland, room);
            FileOutput(a + b, user, borland, room)
            == if first.exits then first else Outcome(first.text + second.text, second.exits)
    decreases |a|
  {
    hide LineOutput, TextOf, TakeLength, FileOutput, Before;
    var second := FileOutput(b, user, borland, room);
    if a == [] {
      assert a + b == b;
      FileEnds(user, borland, room);
      assert [] + second.text == second.text;
    } else {
      var n := TakeLength(a, room);
      TakeLengthIs(a + b, room, n);
      assert (a + b)[..n] == a[..n] && (a + b)[n..] == a[n..] + b;
      FirstLine(a, user, borland, room);
      FirstLine(a + b, user, borland, room);
      FilesAreIndependent(a[n..], b, user, borland, room);
      BeforeBoth(LineOutput(TextOf(a[..n]), user, borland), FileOutput(a[n..], user, borland, room), second);
    }
  }

  lemma FirstLine(s: seq<byte>, user: seq<byte>, borland: bool, room: nat)
    requires s != [] && room > 0
    ensures var n := TakeLength(s, room);
            FileOutput(s, user, borland, room)
            == Before(LineOutput(TextOf(s[..n]), user, borland), FileOutput(s[n..], user, borland, room))
  {}

  lemma BeforeBoth(line: LineResult, first: Outcome, second: Outcome)
    ensures var both := if first.exits then first else Outcome(first.text + second.text, second.exits);
            var all := Before(line, first);
            Before(line, both) == if all.exits then all else Outcome(all.text + second.text, second.exits)
  {
    if line.Written? {
      Associate(line.text, first.text, second.text);
    }
  }

  /** A whole line in front of a file: its output, and then that of the file. */
  lemma LineInFront(line: seq<byte>, more: seq<byte>, user: seq<byte>, borland: bool, room: nat)
    requires 10 !in line && NulFree(line) && |line| + 1 <= room
    ensures FileOutput(line + [10] + more, user, borland, room)
            == Before(LineOutput(line + [10], user, borland), FileOutput(more, user, borland, room))
  {
    hide LineOutput, TextOf, TakeLength, FileOutput;
    var s, n := line + [10] + more, |line| + 1;
    assert forall i :: 0 <= i < |line| ==> s[i] == line[i] && line[i] in line;
    TakeLengthIs(s, room, n);
    assert s[..n] == line + [10] && s[n..] == more;
    NulFreeText(line + [10], line + [10], []);
    FirstLine(s, user, borland, room);
  }

  /** The words behind noperm are written in their order, in front of those of the lines that follow, under every key. */
  lemma NopermFile(rest: seq<byte>, more: seq<byte>, user: seq<byte>, borland: bool, room: nat)
    requires 10 !in rest && NulFree(rest) && |rest| + 7 <= room
    ensures var after := FileOutput(more, user, borland, room);
            && FileOutput(Ascii("noperm") + rest + [10] + more, user, borland, room)
               == Outcome(rest + [10] + after.text, after.exits)
            && Words(rest + [10] + after.text) == Words(rest) + Words(after.text)
  {
    hide LineOutput, FileOutput;
    Keywords();
    var line := Ascii("noperm") + rest;
    assert forall b :: b in line ==> b in NOPERM || b in rest;
    LineInFront(line, more, user, borland, room);
    NopermLine(rest + [10], user, borland);
    assert Ascii("noperm") + (rest + [10]) == line + [10];
    WordsSplit(rest, 10, FileOutput(more, user, borland, room).text);
  }

  /** With no key, a file or lib line writes what it has from its first word on, in front of what the lines that follow write. */
  lemma PlainFileLine(keyword: seq<byte>, spaces: seq<byte>, rest: seq<byte>, more: seq<byte>, borland: bool, room: nat)
    requires Ascii("file") <= keyword || Ascii("lib") <= keyword
    requires 32 !in keyword && 9 !in keyword && spaces != [] && spaces[0] in [32, 9]
    requires forall i :: 0 <= i < |spaces| ==> IsSpace(spaces[i])
    requires rest != [] && !IsSpace(rest[0])
    requires var line := keyword + spaces + rest; 10 !in line && NulFree(line) && |line| + 1 <= room
    ensures FileOutput(keyword + spaces + rest + [10] + more, [], borland, room)
            == Before(Written(rest + [10]), FileOutput(more, [], borland, room))
  {
    hide LineOutput, FileOutput;
    var line := keyword + spaces + rest;
    LineInFront(line, more, [], borland, room);
    FileLine(keyword, spaces, rest + [10], [], borland);
    assert keyword + spaces + (rest + [10]) == line + [10];
  }

  /** The first `room` bytes of a longer line are a line, and what follows them is read as a line of its own. */
  lemma LongLineIsCut(a: seq<byte>, b: seq<byte>, user: seq<byte>, borland: bool, room: nat)
    requires |a| == room > 0 && NEWLINE !in a
    ensures FileOutput(a + b, user, borland, room)
            == Before(LineOutput(TextOf(a), user, borland), FileOutput(b, user, borland, room))
  {
    hide LineOutput, TextOf;
    assert forall i :: 0 <= i < room ==> a[i] in a;
    TakeLengthIs(a + b, room, room);
    assert (a + b)[..room] == a && (a + b)[room..] == b;
  }

  /** Whether a line, or a piece of one, starts with a keyword. */
  predicate HasKeyword(text: seq<byte>) {
    NOPERM <= text || IsFileLine(text)
  }

  /**
   The end of a line that is too long, unless it looks like a keyword, is lost for Borland and not
   permuted otherwise; with a larger buffer the line would have been rewritten as one.
   */
  lemma LongLineLosesItsEnd(a: seq<byte>, b: seq<byte>, user: seq<byte>, room: nat)
    requires |a| == room > 0 && NEWLINE !in a && NulFree(a + b)
    requires |b| <= room && b != [] && NEWLINE !in b[..|b| - 1] && !HasKeyword(b)
    ensures FileOutput(a + b, user, true, room) == FileOutput(a, user, true, room)
    ensures LineOutput(a, user, false).Written? ==>
              FileOutput(a + b, user, false, room) == Outcome(LineOutput(a, user, false).text + b, false)
    ensures FileOutput(a + b, user, true, 2 * room) == Before(LineOutput(a + b, user, true), Outcome([], false))
  {
    hide LineOutput, TextOf;
    NulFreeText(a + b, a, b);
    assert forall i :: 0 <= i < |b| - 1 ==> b[i] == b[..|b| - 1][i];
    OneLine(b, user, true, room);
    OneLine(b, user, false, room);
    OneLine(a, user, true, room);
    OneLine(a + b, user, true, 2 * room);
    LongLineIsCut(a, b, user, true, room);
    LongLineIsCut(a, b, user, false, room);
    NoKeyword(b, user);
  }

  lemma NulFreeText(s: seq<byte>, a: seq<byte>, b: seq<byte>)
    requires s == a + b && NulFree(s)
    ensures TextOf(a) == a && TextOf(b) == b && TextOf(s) == s
  {
    assert forall i :: 0 <= i < |a| ==> a[i] == s[i];
    assert forall i :: 0 <= i < |b| ==> b[i] == s[|a| + i];
  }

  lemma NoKeyword(b: seq<byte>, user: seq<byte>)
    requires !HasKeyword(b)
    ensures LineOutput(b, user, true) == Skipped && LineOutput(b, user, false) == Written(b)
  {}

  lemma OneLine(s: seq<byte>, user: seq<byte>, borland: bool, room: nat)
    requires 0 < |s| <= room && (forall i :: 0 <= i < |s| - 1 ==> s[i] != NEWLINE) && TextOf(s) == s
    ensures FileOutput(s, user, borland, room) == Before(LineOutput(s, user, borland), Outcome([], false))
  {
    hide LineOutput, TextOf;
    TakeLengthIs(s, room, |s|);
    assert s[..|s|] == s && s[|s|..] == [];
  }

  /** Empty, or ended by white space: what is written behind it joins no word. */
  predicate EndsApart(t: seq<byte>) {
    t == [] || IsSpace(t[|t| - 1])
  }

  lemma WordsApart(t: seq<byte>, rest: seq<byte>)
    requires EndsApart(t) || rest == []
    ensures Words(t + rest) == Words(t) + Words(rest)
  {
    if t == [] {
      assert t + rest == rest;
    } else if rest == [] {
      assert t + rest == t;
    } else {
      var n := |t| - 1;
      assert t == t[..n] + [t[n]] + [];
      assert t + rest == t[..n] + [t[n]] + rest;
      WordsSplit(t[..n], t[n], rest);
      WordsSplit(t[..n], t[n], []);
    }
  }

  /** A line that ends in a newline leaves nothing in the response file, or text that ends in white space. */
  lemma LineEndsApart(text: seq<byte>, user: seq<byte>, borland: bool)
    requires text != [] && text[|text| - 1] == NEWLINE && LineOutput(text, user, borland).Written?
    ensures EndsApart(LineOutput(text, user, borland).text)
  {
    hide Words, Permuted, Join, KeywordLength, SpaceLength;
    if NOPERM <= text {
      assert text[5] != NEWLINE;
    }
  }

  lemma LineWords(text: seq<byte>, user: seq<byte>, borland: bool)
    ensures !LineOutput(text, [], borland).TooManyWords?
    ensures var keyed, plain := LineOutput(text, user, borland), LineOutput(text, [], borland);
            && (keyed.Skipped? ==> plain.Skipped?)
            && (keyed.Written? ==> plain.Written? && multiset(Words(keyed.text)) == multiset(Words(plain.text)))
  {
    hide Words, WordsStart, KeywordLength;
    if IsFileLine(text) && LineOutput(text, user, borland).Written? {
      FileLineKeepsWords(text, user, borland);
      FileLineKeepsWords(text, [], borland);
    }
  }

  /** The key moves words within their lines: the response file names the same words, each as often, as without a key. */
  lemma {:induction false} FileKeepsWords(s: seq<byte>, user: seq<byte>, borland: bool, room: nat)
    requires room > 0 && WholeLines(s, room) && NulFree(s)
    ensures !FileOutput(s, [], borland, room).exits
    ensures var keyed := FileOutput(s, user, borland, room);
            !keyed.exits ==> multiset(Words(keyed.text)) == multiset(Words(FileOutput(s, [], borland, room).text))
    decreases |s|
  {
    hide LineOutput, TextOf, Words;
    if s != [] {
      var n := TakeLength(s, room);
      assert s == s[..n] + s[n..];
      NulFreeText(s, s[..n], s[n..]);
      assert forall i :: 0 <= i < |s[n..]| ==> s[n..][i] == s[n + i];
      FileKeepsWords(s[n..], user, borland, room);
      LineWords(s[..n], user, borland);
      JoinedLine(s, user, borland, room);
      JoinedLine(s, [], borland, room);
    }
  }

  /** The words of the output are those of the first line and those of the rest. */
  lemma JoinedLine(s: seq<byte>, user: seq<byte>, borland: bool, room: nat)
    requires room > 0 && s != [] && WholeLines(s, room)
    requires var n := TakeLength(s, room); TextOf(s[..n]) == s[..n]
    ensures var n := TakeLength(s, room);
            var line, rest := LineOutput(s[..n], user, borland), FileOutput(s[n..], user, borland, room);
            line.Written? ==> Words(FileOutput(s, user, borland, room).text) == Words(line.text) + Words(rest.text)
  {
    hide LineOutput, TextOf, Words;
    var n := TakeLength(s, room);
    var line := LineOutput(s[..n], user, borland);
    if line.Written? {
      if n < |s| {
        LineEndsApart(s[..n], user, borland);
      }
      WordsApart(line.text, FileOutput(s[n..], user, borland, room).text);
    }
  }
}
