/**
 * Byte reencoding of shown strings through a font's difference map, and the
 * word-spacing splitter that turns the spaces of a TJ string into explicit
 * positioning adjustments.
 */
module Reencode {
  import opened PdfTypes

  /** `standardize`: the standard code of a custom byte, or the byte itself when unmapped. */
  function Standardize(b: Byte, m: DiffMap): Byte
  {
    if b in m then m[b] else b
  }

  /** Every byte of `s` passed through `Standardize`. */
  function ReencodeBytes(s: seq<Byte>, m: DiffMap): seq<Byte>
  {
    seq(|s|, i requires 0 <= i < |s| => Standardize(s[i], m))
  }

  /**
   * `reencode_operand`: a string operand reencoded byte by byte through the
   * map of the active font; anything else, or any operand while no font of
   * the registry is active, is returned as it is.
   */
  function ReencodeOperand(op: Operand, font: Option<string>, reg: Registry): (r: Operand)
    ensures font.None? || font.value !in reg || !op.Str? ==> r == op
    ensures op.Str? ==> r.Str? && |r.bytes| == |op.bytes|
    ensures op.Str? && font.Some? && font.value in reg ==>
      forall i :: 0 <= i < |op.bytes| ==>
        r.bytes[i] == (if op.bytes[i] in reg[font.value] then reg[font.value][op.bytes[i]] else op.bytes[i])
  {
    if font.None? || font.value !in reg then op
    else if op.Str? then Str(ReencodeBytes(op.bytes, reg[font.value]))
    else op
  }

  /** Each operand of `ops` reencoded. */
  function ReencodeAll(ops: seq<Operand>, font: Option<string>, reg: Registry): seq<Operand>
  {
    seq(|ops|, i requires 0 <= i < |ops| => ReencodeOperand(ops[i], font, reg))
  }

  /** Reencoding commutes with concatenation: a string may be reencoded piece by piece. */
  lemma ReencodeBytesConcat(a: seq<Byte>, b: seq<Byte>, m: DiffMap)
    ensures ReencodeBytes(a + b, m) == ReencodeBytes(a, m) + ReencodeBytes(b, m)
  {
    assert forall i :: 0 <= i < |a + b| ==>
      ReencodeBytes(a + b, m)[i] == (ReencodeBytes(a, m) + ReencodeBytes(b, m))[i];
  }

  /** A map that mentions none of the bytes of `s` leaves `s` unchanged. */
  lemma ReencodeBytesUnmapped(s: seq<Byte>, m: DiffMap)
    requires forall i :: 0 <= i < |s| ==> s[i] !in m
    ensures ReencodeBytes(s, m) == s
  {
  }

  /** All the bytes of a list of pieces, in order. */
  function Flatten(parts: seq<seq<Byte>>): seq<Byte>
  {
    if parts == [] then [] else parts[0] + Flatten(parts[1..])
  }

  /** The bytes of the string elements of a TJ array, in order; numbers contribute nothing. */
  function JoinStrings(xs: seq<Operand>): seq<Byte>
  {
    if xs == [] then []
    else (if xs[0].Str? then xs[0].bytes else []) + JoinStrings(xs[1..])
  }

  /**
   * `split_left_hand(s, b' ')`: `s` split just after every space byte, so that
   * each space ends the piece on its left (a trailing space leaves an empty
   * last piece). SplitAfterSpacesCount, SplitAfterSpacesFlatten and
   * SplitAfterSpacesPieces state what the pieces are.
   */
  function SplitAfterSpaces(s: seq<Byte>): (parts: seq<seq<Byte>>)
    ensures |parts| >= 1
  {
    if s == [] then [[]]
    else
      var rest := SplitAfterSpaces(s[1..]);
      if s[0] == Space then [[Space]] + rest
      else [[s[0]] + rest[0]] + rest[1..]
  }

  /** There is one piece more than there are spaces. */
  lemma {:induction false} SplitAfterSpacesCount(s: seq<Byte>)
    ensures |SplitAfterSpaces(s)| == multiset(s)[Space] + 1
  {
    if s != [] {
      SplitAfterSpacesCount(s[1..]);
      assert s == [s[0]] + s[1..];
      assert multiset(s) == multiset([s[0]]) + multiset(s[1..]);
    }
  }

  /** The pieces put back together give the string. */
  lemma {:induction false} SplitAfterSpacesFlatten(s: seq<Byte>)
    ensures Flatten(SplitAfterSpaces(s)) == s
  {
    if s == [] {
      assert Flatten([[]]) == [] + Flatten([]);
    } else {
      var rest := SplitAfterSpaces(s[1..]);
      SplitAfterSpacesFlatten(s[1..]);
      assert s == [s[0]] + s[1..];
      assert Flatten(rest) == rest[0] + Flatten(rest[1..]);
      if s[0] == Space {
        var parts := [[Space]] + rest;
        assert parts[1..] == rest;
      } else {
        var parts := [[s[0]] + rest[0]] + rest[1..];
        assert parts[1..] == rest[1..];
      }
    }
  }

  /** Each non-final piece ends in its only space; the last piece holds no space. */
  lemma {:induction false} SplitAfterSpacesPieces(s: seq<Byte>)
    ensures var parts := SplitAfterSpaces(s);
      (forall i :: 0 <= i < |parts| - 1 ==>
        parts[i] != [] && parts[i][|parts[i]| - 1] == Space && Space !in parts[i][..|parts[i]| - 1]) &&
      Space !in parts[|parts| - 1]
  {
    if s != [] {
      var rest := SplitAfterSpaces(s[1..]);
      SplitAfterSpacesPieces(s[1..]);
      var parts := SplitAfterSpaces(s);
      if s[0] == Space {
        assert parts == [[Space]] + rest;
        assert forall i :: 1 <= i < |parts| ==> parts[i] == rest[i - 1];
      } else {
        assert parts == [[s[0]] + rest[0]] + rest[1..];
        assert forall i :: 1 <= i < |parts| ==> parts[i] == rest[i];
        if |rest| > 1 {
          var p := parts[0];
          assert p[..|p| - 1] == [s[0]] + rest[0][..|rest[0]| - 1];
        }
      }
    }
  }

  /** The pieces as string operands with `sep` between each two of them. */
  function Interleave(parts: seq<seq<Byte>>, sep: Operand): (r: seq<Operand>)
    requires |parts| >= 1
    ensures |r| == 2 * |parts| - 1
    ensures forall j :: 0 <= j < |r| ==> r[j] == if j % 2 == 0 then Str(parts[j / 2]) else sep
  {
    if |parts| == 1 then [Str(parts[0])]
    else
      var tail := Interleave(parts[1..], sep);
      var r := [Str(parts[0]), sep] + tail;
      assert forall j :: 2 <= j < |r| ==> r[j] == tail[j - 2];
      r
  }

  /** True of the numeric operand zero, the only word spacing that never splits. */
  predicate IsZero(ws: Operand)
  {
    ws.Num? && ws.value == 0.0
  }

  /**
   * `add_spacing(e, ws)`: a string element with a space in it, under a nonzero
   * word spacing, becomes its pieces after each space with the number
   * `ws * -1000` between each two; every other element stays whole. The
   * multiplication fails when the recorded word spacing is not a number.
   */
  function Spaced(e: Operand, ws: Operand): (r: Result<seq<Operand>>)
    ensures !e.Str? || IsZero(ws) || Space !in e.bytes ==> r == Ok([e])
    ensures r.Err? <==> e.Str? && !IsZero(ws) && Space in e.bytes && !ws.Num?
  {
    if !e.Str? || IsZero(ws) then Ok([e])
    else
      var parts := SplitAfterSpaces(e.bytes);
      SplitAfterSpacesCount(e.bytes);
      if |parts| <= 1 then Ok([e])
      else if !ws.Num? then Err(NonNumericWordSpacing)
      else
        var r := Interleave(parts, Num(ws.value * -1000.0));
        Ok(r)
  }

  /**
   * What a split keeps: the string bytes of the elements it returns, put back
   * together, are the bytes of the element it was given.
   */
  lemma SpacedJoin(e: Operand, ws: Operand)
    requires Spaced(e, ws).Ok?
    ensures JoinStrings(Spaced(e, ws).value) == JoinStrings([e])
  {
    assert JoinStrings([e]) == (if e.Str? then e.bytes else []) + JoinStrings([]);
    if e.Str? && !IsZero(ws) && |SplitAfterSpaces(e.bytes)| > 1 {
      JoinInterleave(SplitAfterSpaces(e.bytes), ws.value * -1000.0);
      SplitAfterSpacesFlatten(e.bytes);
    }
  }

  /** The string pieces of an interleaving put back together give the pieces' bytes. */
  lemma {:induction false} JoinInterleave(parts: seq<seq<Byte>>, x: real)
    requires |parts| >= 1
    ensures JoinStrings(Interleave(parts, Num(x))) == Flatten(parts)
  {
    var r := Interleave(parts, Num(x));
    if |parts| == 1 {
      assert r == [Str(parts[0])];
      assert JoinStrings(r) == parts[0] + JoinStrings([]);
      assert Flatten(parts) == parts[0] + Flatten([]);
    } else {
      var tail := Interleave(parts[1..], Num(x));
      assert r == [Str(parts[0]), Num(x)] + tail;
      assert r[1..] == [Num(x)] + tail;
      assert r[1..][1..] == tail;
      JoinInterleave(parts[1..], x);
    }
  }

  /**
   * The pointwise shape of a split: a nonzero numeric spacing `ws` over a
   * string with spaces gives the pieces of `SplitAfterSpaces` at the even
   * positions and the number `-1000 * ws` at the odd ones.
   */
  lemma SpacedShape(e: Operand, ws: Operand)
    requires e.Str? && ws.Num? && ws.value != 0.0 && Space in e.bytes
    ensures Spaced(e, ws).Ok?
    ensures var r := Spaced(e, ws).value;
      var parts := SplitAfterSpaces(e.bytes);
      |r| == 2 * multiset(e.bytes)[Space] + 1 &&
      forall j :: 0 <= j < |r| ==>
        r[j] == if j % 2 == 0 then Str(parts[j / 2]) else Num(-1000.0 * ws.value)
  {
    SplitAfterSpacesCount(e.bytes);
  }

  /** Splitting "A B" under word spacing 0.2 gives "A ", -200 and "B". */
  lemma SpacedExample()
    ensures Spaced(Str([0x41, 0x20, 0x42]), Num(0.2)) ==
      Ok([Str([0x41, 0x20]), Num(-200.0), Str([0x42])])
  {
    var s: seq<Byte> := [0x41, 0x20, 0x42];
    var s1: seq<Byte> := [0x20, 0x42];
    var s2: seq<Byte> := [0x42];
    assert s[1..] == s1 && s1[1..] == s2 && s2[1..] == [];
    var e: seq<Byte> := [];
    assert SplitAfterSpaces(s2[1..]) == [e];
    assert SplitAfterSpaces(s2) == [s2 + e];
    assert s2 + e == s2;
    var sp: seq<Byte> := [0x20];
    var a: seq<Byte> := [0x41];
    assert SplitAfterSpaces(s1[1..]) == [s2];
    assert SplitAfterSpaces(s1) == [sp, s2];
    assert SplitAfterSpaces(s[1..]) == [sp, s2];
    assert SplitAfterSpaces(s) == [a + sp, s2];
    assert a + sp == [0x41, 0x20];
    assert 0.2 * -1000.0 == -200.0;
    var parts := [a + sp, s2];
    assert parts[1..] == [s2];
    assert Interleave(parts, Num(-200.0)) == [Str(a + sp), Num(-200.0), Str(s2)];
  }

  /**
   * `add_spacing`, as the loop that appends each piece and, after every piece
   * but the last, the spacing number.
   */
  method AddSpacing(e: Operand, ws: Operand) returns (r: Result<seq<Operand>>)
    ensures r == Spaced(e, ws)
  {
    if !e.Str? || IsZero(ws) {
      return Ok([e]);
    }
    var parts := SplitAfterSpaces(e.bytes);
    if |parts| <= 1 {
      return Ok([e]);
    }
    if !ws.Num? {
      return Err(NonNumericWordSpacing);
    }
    var spacing := Num(ws.value * -1000.0);
    var elems: seq<Operand> := [];
    var i := 0;
    while i < |parts|
      invariant 0 <= i <= |parts|
      invariant |elems| == if i < |parts| then 2 * i else 2 * i - 1
      invariant forall j :: 0 <= j < |elems| ==>
        elems[j] == if j % 2 == 0 then Str(parts[j / 2]) else spacing
    {
      elems := elems + [Str(parts[i])];
      if i < |parts| - 1 {
        elems := elems + [spacing];
      }
      i := i + 1;
    }
    ghost var expected := Interleave(parts, spacing);
    assert |elems| == |expected|;
    assert forall j :: 0 <= j < |elems| ==> elems[j] == expected[j];
    assert elems == expected;
    r := Ok(elems);
  }

  /**
   * Reencoding the pieces of a split one by one and putting their bytes back
   * together gives the reencoding of the whole string.
   */
  lemma {:induction false} JoinReencodeAll(xs: seq<Operand>, f: string, reg: Registry)
    requires f in reg
    ensures JoinStrings(ReencodeAll(xs, Some(f), reg)) == ReencodeBytes(JoinStrings(xs), reg[f])
  {
    var ys := ReencodeAll(xs, Some(f), reg);
    if xs == [] {
    } else {
      assert ys[1..] == ReencodeAll(xs[1..], Some(f), reg);
      JoinReencodeAll(xs[1..], f, reg);
      var head := if xs[0].Str? then xs[0].bytes else [];
      ReencodeBytesConcat(head, JoinStrings(xs[1..]), reg[f]);
    }
  }
}
