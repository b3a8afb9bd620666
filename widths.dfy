/**
 * The width-table remapper and the font update: the /Widths array of a
 * simple font (ISO 32000-1, section 9.6.2.1) reindexed from the custom codes
 * onto the range of standard codes they map to, and every font of the page
 * switched to /Identity-H with the fixed ToUnicode CMap.
 */
module Widths {
  import opened PdfTypes

  /** A /Widths array with its /FirstChar and /LastChar. */
  datatype WidthTable = WidthTable(widths: seq<int>, firstChar: int, lastChar: int)

  /** A non-empty set has an element. */
  lemma SomeElement(s: set<int>)
    requires s != {}
    ensures exists x :: x in s
  {
    if forall x :: x !in s {
      assert false;
    }
  }

  /** The least element of a non-empty set. */
  ghost function Least(s: set<int>): (r: int)
    requires s != {}
    ensures r in s && forall x :: x in s ==> r <= x
  {
    SomeElement(s);
    var x :| x in s;
    if s == {x} then x
    else
      assert forall z :: z in s ==> z == x || z in s - {x};
      var y := Least(s - {x});
      if x <= y then x else y
  }

  /** The greatest element of a non-empty set. */
  ghost function Greatest(s: set<int>): (r: int)
    requires s != {}
    ensures r in s && forall x :: x in s ==> x <= r
  {
    SomeElement(s);
    var x :| x in s;
    if s == {x} then x
    else
      assert forall z :: z in s ==> z == x || z in s - {x};
      var y := Greatest(s - {x});
      if x >= y then x else y
  }

  /** The standard codes a difference map maps to. */
  ghost function Codes(m: DiffMap): set<int>
  {
    set k | k in m :: m[k] as int
  }

  /** The highest code `c` with `lo <= c < hi` that the map sends to `v`, if any. */
  function HighestSource(m: DiffMap, lo: int, hi: int, v: int): (r: Option<int>)
    ensures r.Some? ==> lo <= r.value < hi && r.value in m && m[r.value] == v
    ensures r.Some? ==> forall c :: r.value < c < hi && c in m ==> m[c] != v
    ensures r.None? ==> forall c :: lo <= c < hi && c in m ==> m[c] != v
    decreases hi - lo
  {
    if hi <= lo then None
    else if hi - 1 in m && m[hi - 1] == v then Some(hi - 1)
    else HighestSource(m, lo, hi - 1, v)
  }

  /**
   * The number of codes from `first` to `last`, which `get_new_widths` reads
   * from /Widths one by one.
   */
  function CodeCount(first: int, last: int): nat
  {
    if first <= last then last - first + 1 else 0
  }

  /**
   * The width the new slot for standard code `v` receives from the original
   * codes `first` to `hi - 1`: that of the highest one mapped to `v`, else 0.
   */
  function SlotWidth(widths: seq<int>, first: int, hi: int, m: DiffMap, v: int): int
    requires hi - first <= |widths|
  {
    match HighestSource(m, first, hi, v)
    case None => 0
    case Some(c) => widths[c - first]
  }

  /**
   * `get_new_widths` on a font's /Widths, /FirstChar and /LastChar. An empty
   * map gives an empty table with both bounds 0. Otherwise the new bounds are
   * the least and the greatest standard code of the map, and reading /Widths
   * for every code from /FirstChar to /LastChar fails when the array is too
   * short.
   */
  ghost function NewWidthTable(widths: seq<int>, first: int, last: int, m: DiffMap): (r: Result<WidthTable>)
    ensures m == map[] ==> r == Ok(WidthTable([], 0, 0))
    ensures m != map[] ==> (r.Err? <==> CodeCount(first, last) > |widths|)
    ensures r.Ok? && m != map[] ==>
      r.value.firstChar in Codes(m) && r.value.lastChar in Codes(m) &&
      (forall k :: k in m ==> r.value.firstChar <= m[k] <= r.value.lastChar) &&
      |r.value.widths| == r.value.lastChar - r.value.firstChar + 1
  {
    if m == map[] then Ok(WidthTable([], 0, 0))
    else if CodeCount(first, last) > |widths| then Err(WidthIndexOutOfRange)
    else
      SomeElement(m.Keys);
      var k :| k in m;
      assert m[k] as int in Codes(m);
      var lo, hi := Least(Codes(m)), Greatest(Codes(m));
      assert forall k :: k in m ==> m[k] as int in Codes(m);
      var n := CodeCount(first, last);
      Ok(WidthTable(seq(hi - lo + 1, j requires 0 <= j < hi - lo + 1 => SlotWidth(widths, first, first + n, m, lo + j)), lo, hi))
  }

  /**
   * A code from /FirstChar to /LastChar that the map sends to a standard code
   * gives that code's slot of the new table its original width, unless a
   * higher code of the range is sent to the same standard code (the highest
   * one wins a collision).
   */
  lemma NewWidthTableSlot(widths: seq<int>, first: int, last: int, m: DiffMap, c: int)
    requires NewWidthTable(widths, first, last, m).Ok? && m != map[]
    requires first <= c <= last && c in m
    requires forall c' :: c < c' <= last && c' in m ==> m[c'] != m[c]
    ensures var t := NewWidthTable(widths, first, last, m).value;
      t.widths[m[c] - t.firstChar] == widths[c - first]
  {
    var t := NewWidthTable(widths, first, last, m).value;
    var n := CodeCount(first, last);
    assert t.widths[m[c] - t.firstChar] == SlotWidth(widths, first, first + n, m, m[c]);
    assert HighestSource(m, first, first + n, m[c]) == Some(c);
  }

  /**
   * A slot of the new table that no code from /FirstChar to /LastChar is
   * sent to holds 0; codes of the map outside that range move only the
   * bounds.
   */
  lemma NewWidthTableGap(widths: seq<int>, first: int, last: int, m: DiffMap, j: int)
    requires NewWidthTable(widths, first, last, m).Ok? && m != map[]
    requires 0 <= j < |NewWidthTable(widths, first, last, m).value.widths|
    requires forall c :: first <= c <= last && c in m ==> m[c] != NewWidthTable(widths, first, last, m).value.firstChar + j
    ensures NewWidthTable(widths, first, last, m).value.widths[j] == 0
  {
    var t := NewWidthTable(widths, first, last, m).value;
    var n := CodeCount(first, last);
    assert t.widths[j] == SlotWidth(widths, first, first + n, m, t.firstChar + j);
  }

  /**
   * The /Widths array of codes 65 to 67, `[10, 20, 30]`, under the map
   * `{65: 200, 67: 201}` becomes `[10, 30]` over codes 200 to 201.
   */
  lemma NewWidthTableExample()
    ensures NewWidthTable([10, 20, 30], 65, 67, map[65 := 200, 67 := 201]) == Ok(WidthTable([10, 30], 200, 201))
  {
    var m: DiffMap := map[65 := 200, 67 := 201];
    assert m.Keys == {65, 67};
    assert m[65] as int in Codes(m) && m[67] as int in Codes(m);
    assert Codes(m) == {200, 201};
    var t := NewWidthTable([10, 20, 30], 65, 67, m).value;
    assert t.firstChar == 200 && t.lastChar == 201;
    assert HighestSource(m, 65, 68, 200) == Some(65);
    assert HighestSource(m, 65, 68, 201) == Some(67);
    assert |t.widths| == 2;
    assert t.widths[0] == SlotWidth([10, 20, 30], 65, 68, m, 200) == 10;
    assert t.widths[1] == SlotWidth([10, 20, 30], 65, 68, m, 201) == 30;
    assert t.widths == [10, 30];
  }

  /** `font.get("/Widths", [])`. */
  function WidthsOf(f: Font): seq<int>
  {
    if f.widths.Some? then f.widths.value else []
  }

  /** `font.get("/FirstChar", 0)`. */
  function FirstCharOf(f: Font): int
  {
    if f.firstChar.Some? then f.firstChar.value else 0
  }

  /** `font.get("/LastChar", 255)`. */
  function LastCharOf(f: Font): int
  {
    if f.lastChar.Some? then f.lastChar.value else 255
  }

  /** `min(font_enc_map.values())` and `max(font_enc_map.values())`, in one scan. */
  method CodeRange(m: DiffMap) returns (lo: int, hi: int)
    requires m != map[]
    ensures Codes(m) != {} && lo == Least(Codes(m)) && hi == Greatest(Codes(m))
  {
    ghost var values := Codes(m);
    SomeElement(m.Keys);
    var k0 :| k0 in m;
    assert m[k0] as int in values;
    lo, hi := m[k0], m[k0];
    var todo := m.Keys - {k0};
    while todo != {}
      invariant todo <= m.Keys
      invariant lo in values && hi in values
      invariant forall k :: k in m && k !in todo ==> lo <= m[k] <= hi
      decreases todo
    {
      SomeElement(todo);
      var key :| key in todo;
      if m[key] < lo {
        lo := m[key];
      }
      if m[key] > hi {
        hi := m[key];
      }
      todo := todo - {key};
    }
    assert forall v :: v in values ==> lo <= v <= hi;
  }

  /** Reading one more original code changes only the slot it maps to. */
  lemma SlotWidthStep(widths: seq<int>, first: int, code: int, next: int, m: DiffMap, v: int)
    requires first <= code < first + |widths| && next == code + 1
    ensures SlotWidth(widths, first, next, m, v) ==
            if code in m && m[code] == v then widths[code - first] else SlotWidth(widths, first, code, m, v)
  {
  }

  /**
   * `get_new_widths`: the least and greatest standard code found by a scan of
   * the map's values, a zero-filled array of that range, and one pass over
   * the original codes that copies the width of every mapped one.
   */
  method GetNewWidths(font: Font, m: DiffMap) returns (r: Result<WidthTable>)
    ensures r == NewWidthTable(WidthsOf(font), FirstCharOf(font), LastCharOf(font), m)
  {
    var origWidths := WidthsOf(font);
    var origFirst := FirstCharOf(font);
    var origLast := LastCharOf(font);
    if m == map[] {
      return Ok(WidthTable([], 0, 0));
    }
    var lo, hi := CodeRange(m);
    var count := CodeCount(origFirst, origLast);
    var newWidths := new int[hi - lo + 1](_ => 0);
    var k := 0;
    while k < count
      invariant 0 <= k <= count && k <= |origWidths|
      invariant forall j :: 0 <= j < newWidths.Length ==>
        newWidths[j] == SlotWidth(origWidths, origFirst, origFirst + k, m, lo + j)
    {
      if k >= |origWidths| {
        return Err(WidthIndexOutOfRange);
      }
      var code := origFirst + k;
      var charWidth := origWidths[k];
      if code in m {
        assert m[code] as int in Codes(m);
        newWidths[m[code] - lo] := charWidth;
      }
      ghost var next := code + 1;
      forall v {
        SlotWidthStep(origWidths, origFirst, code, next, m, v);
      }
      k := k + 1;
    }
    r := Ok(WidthTable(newWidths[..], lo, hi));
    assert newWidths[..] == NewWidthTable(origWidths, origFirst, origLast, m).value.widths;
  }

  // ---------------------------------------------------------------------------
  // The font update (`update_fonts`)
  // ---------------------------------------------------------------------------

  /** The encoding every updated font declares. */
  const IdentityH: Encoding := NamedEncoding("/Identity-H")

  /**
   * One font after the update: /Identity-H and the fixed ToUnicode CMap, and,
   * for a font of the registry, the width table remapped through its map.
   */
  ghost function UpdatedFont(f: Font, key: string, reg: Registry): Result<Font>
  {
    var base := f.(encoding := IdentityH, toUnicode := Some(FixedCMap));
    if key !in reg then Ok(base)
    else
      match NewWidthTable(WidthsOf(f), FirstCharOf(f), LastCharOf(f), reg[key])
      case Err(e) => Err(e)
      case Ok(t) => Ok(base.(widths := Some(t.widths), firstChar := Some(t.firstChar), lastChar := Some(t.lastChar)))
  }

  /**
   * `update_fonts`: absent font resources stay absent. Otherwise every font
   * keeps its key, gets /Identity-H and the fixed ToUnicode CMap and keeps
   * every other entry; /Widths, /FirstChar and /LastChar are replaced by the
   * remapped table exactly for the fonts of the registry (an empty entry
   * gives `[]`, 0, 0), and the update fails when one of those tables fails.
   */
  ghost function UpdatedFonts(fonts: Option<map<string, Font>>, reg: Registry): (r: Result<Option<map<string, Font>>>)
    ensures fonts.None? ==> r == Ok(None)
    ensures fonts.Some? ==> (r.Err? <==> exists k :: k in fonts.value && UpdatedFont(fonts.value[k], k, reg).Err?)
    ensures fonts.Some? && r.Ok? ==> r.value.Some? && r.value.value.Keys == fonts.value.Keys
    ensures fonts.Some? && r.Ok? ==> forall k :: k in fonts.value ==>
      var f, g := fonts.value[k], r.value.value[k];
      g.encoding == IdentityH && g.toUnicode == Some(FixedCMap) &&
      g.program == f.program && g.others == f.others &&
      (k !in reg ==> g.widths == f.widths && g.firstChar == f.firstChar && g.lastChar == f.lastChar) &&
      (k in reg && reg[k] == map[] ==> g.widths == Some([]) && g.firstChar == Some(0) && g.lastChar == Some(0)) &&
      (k in reg ==> g.widths.Some? && g.firstChar.Some? && g.lastChar.Some? &&
                    NewWidthTable(WidthsOf(f), FirstCharOf(f), LastCharOf(f), reg[k]) ==
                      Ok(WidthTable(g.widths.value, g.firstChar.value, g.lastChar.value)))
  {
    match fonts
    case None => Ok(None)
    case Some(fs) =>
      if exists k :: k in fs && UpdatedFont(fs[k], k, reg).Err? then Err(WidthIndexOutOfRange)
      else Ok(Some(map k | k in fs :: UpdatedFont(fs[k], k, reg).value))
  }

  /** `update_fonts`, one font at a time. */
  method UpdateFonts(fonts: Option<map<string, Font>>, reg: Registry) returns (r: Result<Option<map<string, Font>>>)
    ensures r == UpdatedFonts(fonts, reg)
  {
    if fonts.None? {
      return Ok(None);
    }
    var fs := fonts.value;
    var newFonts: map<string, Font> := map[];
    var todo := fs.Keys;
    while todo != {}
      invariant todo <= fs.Keys
      invariant forall k :: k in fs.Keys - todo ==> UpdatedFont(fs[k], k, reg).Ok?
      invariant newFonts == map k | k in fs.Keys - todo :: UpdatedFont(fs[k], k, reg).value
      decreases todo
    {
      var fontName :| fontName in todo;
      var font := fs[fontName];
      var newFont := font.(encoding := IdentityH, toUnicode := Some(FixedCMap));
      if fontName in reg {
        var t := GetNewWidths(font, reg[fontName]);
        if t.Err? {
          assert UpdatedFont(fs[fontName], fontName, reg).Err?;
          return Err(WidthIndexOutOfRange);
        }
        newFont := newFont.(widths := Some(t.value.widths), firstChar := Some(t.value.firstChar),
                            lastChar := Some(t.value.lastChar));
      }
      newFonts := newFonts[fontName := newFont];
      todo := todo - {fontName};
    }
    assert fs.Keys - todo == fs.Keys;
    r := Ok(Some(newFonts));
  }
}
