/** strstr() for a word between spaces, in a line that the assembler builds. */
module Occurrences {
  import opened Bytes
  import opened CommandLine

  predicate OccursAt(s: seq<byte>, part: seq<byte>, i: nat) {
    i + |part| <= |s| && s[i..i + |part|] == part
  }

  /** strstr(s, part) != NULL */
  predicate Contains(s: seq<byte>, part: seq<byte>) {
    exists i :: 0 <= i <= |s| && OccursAt(s, part, i)
  }

  /** A word between spaces. */
  function Between(sw: seq<byte>): seq<byte> {
    [SPACE] + sw + [SPACE]
  }

  /** One of the pieces, but not the last, is `sw`. */
  predicate HasInner(pieces: seq<seq<byte>>, sw: seq<byte>) {
    exists j :: 0 <= j < |pieces| - 1 && pieces[j] == sw
  }

  lemma OccursBytes(s: seq<byte>, sw: seq<byte>, i: nat)
    requires OccursAt(s, Between(sw), i)
    ensures i + |sw| + 2 <= |s| && s[i] == SPACE && s[i + |sw| + 1] == SPACE
    ensures forall k :: 0 <= k < |sw| ==> s[i + 1 + k] == sw[k]
    ensures forall k :: i < k <= i + |sw| ==> s[k] == sw[k - i - 1] && s[k] in sw
  {
    var part := s[i..i + |sw| + 2];
    assert part[0] == SPACE && part[|sw| + 1] == SPACE;
    assert forall k :: 0 <= k < |sw| ==> part[1 + k] == sw[k];
    assert forall k :: i < k <= i + |sw| ==> s[k] == part[k - i];
  }

  lemma OccursShifted(a: seq<byte>, b: seq<byte>, part: seq<byte>, i: nat)
    ensures OccursAt(a + b, part, |a| + i) <==> OccursAt(b, part, i)
  {
    if i + |part| <= |b| {
      SliceOfConcat(a, b, i, i + |part|);
    }
  }

  /** Two runs without blanks behind the same space are the same if a space ends both. */
  lemma SameRun(s: seq<byte>, p: seq<byte>, sw: seq<byte>)
    requires NoBlank(p) && NoBlank(sw) && |p| < |s| && |sw| + 1 < |s|
    requires forall k :: 1 <= k <= |p| ==> s[k] == p[k - 1]
    requires forall k :: 1 <= k <= |sw| ==> s[k] == sw[k - 1]
    requires s[|sw| + 1] == SPACE && (|p| + 1 < |s| ==> s[|p| + 1] == SPACE)
    ensures p == sw
  {
    assert |p| == |sw|;
    assert forall k :: 0 <= k < |p| ==> p[k] == s[k + 1] == sw[k];
  }

  /** A word between spaces at the start of a piece with its space is that piece, and another one follows. */
  lemma OccursFirst(p: seq<byte>, rest: seq<byte>, sw: seq<byte>)
    requires NoBlank(p) && NoBlank(sw) && (rest == [] || rest[0] == SPACE)
    ensures OccursAt([SPACE] + (p + rest), Between(sw), 0) <==> p == sw && rest != []
  {
    hide NoBlank;
    var s := [SPACE] + (p + rest);
    if OccursAt(s, Between(sw), 0) {
      OccursBytes(s, sw, 0);
      SameRun(s, p, sw);
    }
    if p == sw && rest != [] {
      assert s[..|sw| + 2] == Between(sw);
    }
  }

  /** No word between spaces starts within a piece. */
  lemma OccursNotInside(p: seq<byte>, rest: seq<byte>, sw: seq<byte>, i: nat)
    requires NoBlank(p) && 1 <= i <= |p|
    ensures !OccursAt([SPACE] + (p + rest), Between(sw), i)
  {
    var s := [SPACE] + (p + rest);
    assert forall k :: 1 <= k <= |p| ==> s[k] == p[k - 1];
    if OccursAt(s, Between(sw), i) {
      OccursBytes(s, sw, i);
    }
  }

  lemma OccursLater(p: seq<byte>, rest: seq<byte>, sw: seq<byte>, i: nat)
    requires NoBlank(p)
    ensures i > 0 ==> (OccursAt([SPACE] + (p + rest), Between(sw), i)
                       <==> i > |p| && OccursAt(rest, Between(sw), i - 1 - |p|))
  {
    hide OccursAt, NoBlank, Between;
    if 1 <= i <= |p| {
      OccursNotInside(p, rest, sw, i);
    } else if i > |p| {
      Associate([SPACE], p, rest);
      OccursShifted([SPACE] + p, rest, Between(sw), i - 1 - |p|);
    }
  }

  lemma {:induction false} SpacedContains(pieces: seq<seq<byte>>, sw: seq<byte>)
    requires GoodArgs(pieces) && NoBlank(sw)
    ensures Contains(Spaced(pieces), Between(sw)) <==> HasInner(pieces, sw)
  {
    hide OccursAt, HasInner;
    if pieces == [] {
      NothingOccurs(sw);
    }
    if pieces != [] {
      var p, rest := pieces[0], Spaced(pieces[1..]);
      var s, part := Spaced(pieces), Between(sw);
      assert GoodArg(p);
      assert rest == [] || rest[0] == SPACE;
      OccursFirst(p, rest, sw);
      SpacedContains(pieces[1..], sw);
      InnerAfter(pieces, sw);
      forall i | 0 <= i <= |s|
        ensures OccursAt(s, part, i) <==> if i == 0 then p == sw && rest != [] else i > |p| && OccursAt(rest, part, i - 1 - |p|)
      {
        OccursLater(p, rest, sw, i);
      }
      ContainsByCases(s, rest, part, 1 + |p|, p == sw && rest != []);
    }
  }

  lemma NothingOccurs(sw: seq<byte>)
    ensures !Contains([], Between(sw)) && !HasInner([], sw)
  {}

  lemma ContainsByCases(s: seq<byte>, rest: seq<byte>, part: seq<byte>, n: nat, first: bool)
    requires n > 0 && |s| == n + |rest|
    requires forall i :: 0 <= i <= |s| ==>
                           (OccursAt(s, part, i) <==> if i == 0 then first else i >= n && OccursAt(rest, part, i - n))
    ensures Contains(s, part) <==> first || Contains(rest, part)
  {
    hide OccursAt;
    assert first ==> OccursAt(s, part, 0);
    if Contains(rest, part) {
      var i :| 0 <= i <= |rest| && OccursAt(rest, part, i);
      assert OccursAt(s, part, i + n);
    }
  }

  lemma InnerAfter(pieces: seq<seq<byte>>, sw: seq<byte>)
    requires pieces != []
    ensures HasInner(pieces, sw) <==> (|pieces| > 1 && pieces[0] == sw) || HasInner(pieces[1..], sw)
  {
    if HasInner(pieces[1..], sw) {
      var j :| 0 <= j < |pieces[1..]| - 1 && pieces[1..][j] == sw;
      assert pieces[j + 1] == sw;
    }
    if HasInner(pieces, sw) {
      var j :| 0 <= j < |pieces| - 1 && pieces[j] == sw;
      assert j > 0 ==> pieces[1..][j - 1] == sw;
    }
  }

  /** Within the name and its space, a word between spaces is one of the name itself. */
  lemma OccursInName(linker: seq<byte>, rest: seq<byte>, sw: seq<byte>, i: nat)
    requires GoodLinker(linker) && GoodArg(sw) && QUOT !in sw && (rest == [] || rest[0] == SPACE)
    requires i < |ExeName(linker)|
    ensures OccursAt(ExeName(linker) + rest, Between(sw), i)
            <==> SPACE in linker && i > 0 && OccursAt(linker, Between(sw), i - 1)
    ensures i > 0 && OccursAt(linker, Between(sw), i - 1) ==> i <= |linker|
  {
    hide Escape;
    EscapeNothing(linker);
    if SPACE in linker {
      OccursInQuoted(linker, rest, sw, i);
    } else {
      var s := linker + [SPACE] + rest;
      assert s[|linker|] == SPACE && forall k :: 0 <= k < |linker| ==> s[k] == linker[k];
      assert rest != [] ==> s[|linker| + 1] == SPACE;
      if OccursAt(s, Between(sw), i) {
        OccursBytes(s, sw, i);
      }
    }
  }

  lemma OccursInQuoted(linker: seq<byte>, rest: seq<byte>, sw: seq<byte>, i: nat)
    requires GoodArg(sw) && QUOT !in sw && (rest == [] || rest[0] == SPACE)
    requires i < |linker| + 3
    ensures OccursAt([QUOT] + linker + [QUOT] + [SPACE] + rest, Between(sw), i)
            <==> i > 0 && OccursAt(linker, Between(sw), i - 1)
  {
    var s := [QUOT] + linker + [QUOT] + [SPACE] + rest;
    var n := |linker|;
    assert s[0] == QUOT && s[n + 1] == QUOT && s[n + 2] == SPACE && (rest != [] ==> s[n + 3] == SPACE);
    if OccursAt(s, Between(sw), i) {
      OccursBytes(s, sw, i);
      assert s[i..i + |sw| + 2] == linker[i - 1..i + |sw| + 1];
    }
    if i > 0 && OccursAt(linker, Between(sw), i - 1) {
      assert s[i..i + |sw| + 2] == linker[i - 1..i + |sw| + 1];
    }
  }

  /** A good line has a word between spaces exactly if the linker name has it or a piece that is not the last one is it. */
  lemma LineContains(linker: seq<byte>, pieces: seq<seq<byte>>, sw: seq<byte>)
    requires GoodLinker(linker) && GoodArgs(pieces) && GoodArg(sw) && QUOT !in sw
    ensures Contains(LineOf(linker, pieces), Between(sw)) <==> Contains(linker, Between(sw)) || HasInner(pieces, sw)
  {
    hide OccursAt, GoodLinker, ExeName, HasInner, Between;
    var name, rest, part := ExeName(linker), Spaced(pieces), Between(sw);
    SpacedContains(pieces, sw);
    forall i | 0 <= i < |name|
      ensures OccursAt(name + rest, part, i) <==> SPACE in linker && i > 0 && OccursAt(linker, part, i - 1)
      ensures i > 0 && OccursAt(linker, part, i - 1) ==> i <= |linker|
    {
      OccursInName(linker, rest, sw, i);
    }
    forall i | 0 <= i <= |rest|
      ensures OccursAt(name + rest, part, |name| + i) <==> OccursAt(rest, part, i)
    {
      OccursShifted(name, rest, part, i);
    }
    NameLength(linker, sw);
    if Contains(name + rest, part) {
      var i :| 0 <= i <= |name + rest| && OccursAt(name + rest, part, i);
      if i >= |name| {
        assert OccursAt(rest, part, i - |name|);
      } else {
        assert OccursAt(linker, part, i - 1);
      }
    }
    if Contains(linker, part) {
      var i :| 0 <= i <= |linker| && OccursAt(linker, part, i);
      assert OccursAt(name + rest, part, i + 1);
    }
    if Contains(rest, part) {
      var i :| 0 <= i <= |rest| && OccursAt(rest, part, i);
      assert OccursAt(name + rest, part, |name| + i);
    }
  }

  lemma NameLength(linker: seq<byte>, sw: seq<byte>)
    requires GoodLinker(linker)
    ensures |ExeName(linker)| <= |linker| + 3
    ensures Contains(linker, Between(sw)) ==> SPACE in linker && |ExeName(linker)| == |linker| + 3
  {
    EscapeNothing(linker);
    if Contains(linker, Between(sw)) {
      var i :| 0 <= i <= |linker| && OccursAt(linker, Between(sw), i);
      OccursBytes(linker, sw, i);
      assert linker[i] in linker;
    }
  }
}
