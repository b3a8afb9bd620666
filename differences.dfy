/**
 * The difference-map builder: the glyph table of a font's built-in CFF
 * encoding, the walk over a /Differences array (ISO 32000-1, section 9.6.6.1)
 * that maps each custom code to a standard code, and the per-page registry of
 * these maps, one per font with a dictionary encoding.
 */
module Differences {
  import opened PdfTypes

  /** The name of the undefined glyph, which the glyph table leaves out. */
  const NotDef: string := ".notdef"

  // ---------------------------------------------------------------------------
  // The glyph table (`get_standard_encoding`, the loop over the CFF encoding)
  // ---------------------------------------------------------------------------

  /**
   * The glyph table of the first `|names|` codes: every defined glyph name,
   * with a leading slash, maps to its code; a name that appears at several
   * codes keeps the last one.
   */
  function GlyphTableOf(names: GlyphNames): GlyphTable
  {
    if names == [] then map[]
    else
      var t := GlyphTableOf(names[..|names| - 1]);
      var n := names[|names| - 1];
      if n == NotDef then t else t["/" + n := |names| - 1]
  }

  /** Code `c` holds a defined glyph whose name, with a leading slash, is `k`. */
  ghost predicate Spells(names: seq<string>, c: int, k: string)
  {
    0 <= c < |names| && names[c] != NotDef && "/" + names[c] == k
  }

  /**
   * The glyph table holds exactly the spelled names, each at the highest code
   * that spells it.
   */
  lemma {:induction false} GlyphTableOfSpec(names: GlyphNames)
    ensures forall k :: k in GlyphTableOf(names) <==> exists c :: Spells(names, c, k)
    ensures forall k :: k in GlyphTableOf(names) ==>
      Spells(names, GlyphTableOf(names)[k], k) &&
      forall c :: GlyphTableOf(names)[k] < c < |names| ==> !Spells(names, c, k)
  {
    if names != [] {
      var p: GlyphNames := names[..|names| - 1];
      var last := |names| - 1;
      var n := names[last];
      GlyphTableOfSpec(p);
      var t, tp := GlyphTableOf(names), GlyphTableOf(p);
      forall k
        ensures k in t <==> exists c :: Spells(names, c, k)
        ensures k in t ==> Spells(names, t[k], k) && forall c :: t[k] < c < |names| ==> !Spells(names, c, k)
      {
        if n != NotDef && k == "/" + n {
          assert Spells(names, last, k);
        } else {
          assert !Spells(names, last, k);
          assert k in t <==> k in tp;
          if exists c :: Spells(names, c, k) {
            var c :| Spells(names, c, k);
            assert Spells(p, c, k);
          }
          if exists c :: Spells(p, c, k) {
            var c :| Spells(p, c, k);
            assert Spells(names, c, k);
          }
          if k in tp {
            assert t[k] == tp[k];
            assert Spells(p, tp[k], k);
            forall c | t[k] < c < |names|
              ensures !Spells(names, c, k)
            {
              if c < last {
                assert !Spells(p, c, k);
              }
            }
          }
        }
      }
    }
  }

  /**
   * The loop that builds the glyph table from the decoded CFF encoding:
   * `char_codes["/" + name] = code` for every code whose name is not ".notdef".
   */
  method GlyphCodeTable(names: GlyphNames) returns (t: GlyphTable)
    ensures t == GlyphTableOf(names)
  {
    t := map[];
    var code := 0;
    while code < |names|
      invariant 0 <= code <= |names|
      invariant t == GlyphTableOf(names[..code])
    {
      assert names[..code + 1][..code] == names[..code];
      if names[code] != NotDef {
        t := t["/" + names[code] := code];
      }
      code := code + 1;
    }
    assert names[..code] == names;
  }

  /**
   * The glyph table of a font: empty when the font has no descriptor, no
   * /FontFile3 or no CFF encoding.
   */
  function FontGlyphTable(f: Font): GlyphTable
  {
    match f.program
    case None => map[]
    case Some(names) => GlyphTableOf(names)
  }

  // ---------------------------------------------------------------------------
  // The /Differences walk (`get_font_enc_map`, the inner loop)
  // ---------------------------------------------------------------------------

  /**
   * The state of the walk: `first` is the last integer seen (0 before any),
   * `offset` the number of names found since, `codes` the map built so far.
   */
  datatype Walk = Walk(first: int, offset: int, codes: DiffMap)

  /**
   * The walk over a /Differences array: an integer restarts the running code
   * at that value; a glyph name found in the table maps the running code to
   * the name's standard code and advances it; a name not in the table is
   * skipped and does not advance it.
   */
  function DiffWalk(diffs: seq<DiffEntry>, table: GlyphTable): Walk
  {
    if diffs == [] then Walk(0, 0, map[])
    else
      var w := DiffWalk(diffs[..|diffs| - 1], table);
      match diffs[|diffs| - 1]
      case Offset(n) => Walk(n, 0, w.codes)
      case Glyph(g) =>
        if g in table then Walk(w.first, w.offset + 1, w.codes[w.first + w.offset := table[g]])
        else w
  }

  /** The difference map of a /Differences array. */
  function DiffMapOf(diffs: seq<DiffEntry>, table: GlyphTable): DiffMap
  {
    DiffWalk(diffs, table).codes
  }

  /** The entry is a glyph name that the glyph table knows. */
  predicate Found(e: DiffEntry, table: GlyphTable)
  {
    e.Glyph? && e.name in table
  }

  /** The index of the last integer of `s`, or -1 when there is none. */
  function LastOffset(s: seq<DiffEntry>): (k: int)
    ensures -1 <= k < |s|
    ensures k >= 0 ==> s[k].Offset?
    ensures forall j :: k < j < |s| ==> !s[j].Offset?
  {
    if s == [] then -1
    else if s[|s| - 1].Offset? then |s| - 1
    else LastOffset(s[..|s| - 1])
  }

  /** The number of found glyph names in `s`. */
  function CountFound(s: seq<DiffEntry>, table: GlyphTable): nat
  {
    if s == [] then 0
    else CountFound(s[..|s| - 1], table) + (if Found(s[|s| - 1], table) then 1 else 0)
  }

  /** The last integer of `s`, or 0 when there is none. */
  function Base(s: seq<DiffEntry>): int
  {
    var k := LastOffset(s);
    if k < 0 then 0 else s[k].code
  }

  /** The number of found glyph names after the last integer of `s`. */
  function FoundSinceBase(s: seq<DiffEntry>, table: GlyphTable): nat
  {
    CountFound(s[LastOffset(s) + 1..], table)
  }

  /**
   * The code the next found glyph name after `s` is given: the last integer
   * of `s` (0 when there is none) plus the number of found names after it.
   */
  function NextCode(s: seq<DiffEntry>, table: GlyphTable): int
  {
    Base(s) + FoundSinceBase(s, table)
  }

  /** One step of the walk keeps its counters equal to Base and FoundSinceBase. */
  lemma DiffWalkCountersStep(s: seq<DiffEntry>, table: GlyphTable)
    requires s != []
    requires DiffWalk(s[..|s| - 1], table).first == Base(s[..|s| - 1])
    requires DiffWalk(s[..|s| - 1], table).offset == FoundSinceBase(s[..|s| - 1], table)
    ensures DiffWalk(s, table).first == Base(s)
    ensures DiffWalk(s, table).offset == FoundSinceBase(s, table)
  {
    var p := s[..|s| - 1];
    if s[|s| - 1].Offset? {
      assert LastOffset(s) == |p|;
      assert s[|p| + 1..] == [];
    } else {
      var k := LastOffset(p);
      assert LastOffset(s) == k;
      var q := s[k + 1..];
      assert q[..|q| - 1] == p[k + 1..];
      assert q[|q| - 1] == s[|s| - 1];
    }
  }

  /** The two counters of the walk are the last integer and the names found since. */
  lemma {:induction false} DiffWalkCounters(s: seq<DiffEntry>, table: GlyphTable)
    ensures DiffWalk(s, table).first == Base(s)
    ensures DiffWalk(s, table).offset == FoundSinceBase(s, table)
  {
    if s == [] {
      assert s[0..] == [];
    } else {
      DiffWalkCounters(s[..|s| - 1], table);
      DiffWalkCountersStep(s, table);
    }
  }

  /** The glyph name at index `i` of `s` assigns code `k`. */
  ghost predicate AssignsAt(s: seq<DiffEntry>, table: GlyphTable, i: int, k: int)
  {
    0 <= i < |s| && Found(s[i], table) && NextCode(s[..i], table) == k
  }

  /** The assignments of `p + [e]` are those of `p` and, if found, that of `e`. */
  lemma AssignsAtSnoc(p: seq<DiffEntry>, e: DiffEntry, table: GlyphTable)
    ensures forall i, k :: 0 <= i < |p| ==> (AssignsAt(p + [e], table, i, k) <==> AssignsAt(p, table, i, k))
    ensures forall i, k :: i == |p| ==> (AssignsAt(p + [e], table, i, k) <==> Found(e, table) && NextCode(p, table) == k)
  {
    var s := p + [e];
    assert forall i :: 0 <= i <= |p| ==> s[..i] == p[..i];
  }

  /** The difference map after one more entry: a found name's code is overwritten. */
  lemma DiffMapOfSnoc(p: seq<DiffEntry>, e: DiffEntry, table: GlyphTable)
    ensures DiffMapOf(p + [e], table) ==
      if Found(e, table) then DiffMapOf(p, table)[NextCode(p, table) := table[e.name]]
      else DiffMapOf(p, table)
  {
    assert (p + [e])[..|p|] == p;
    DiffWalkCounters(p, table);
  }

  /** The step of DiffMapAssignments, for the codes the map holds. */
  lemma DiffMapDomainStep(p: seq<DiffEntry>, e: DiffEntry, table: GlyphTable)
    requires forall k :: k in DiffMapOf(p, table) <==> exists i :: AssignsAt(p, table, i, k)
    ensures forall k :: k in DiffMapOf(p + [e], table) <==> exists i :: AssignsAt(p + [e], table, i, k)
  {
    var s := p + [e];
    var m, mp := DiffMapOf(s, table), DiffMapOf(p, table);
    AssignsAtSnoc(p, e, table);
    DiffMapOfSnoc(p, e, table);
    forall k
      ensures k in m <==> exists i :: AssignsAt(s, table, i, k)
    {
      if Found(e, table) && k == NextCode(p, table) {
        assert AssignsAt(s, table, |p|, k);
      } else {
        assert k in m <==> k in mp;
        if k in mp {
          var i :| AssignsAt(p, table, i, k);
          assert AssignsAt(s, table, i, k);
        }
        if exists i :: AssignsAt(s, table, i, k) {
          var i :| AssignsAt(s, table, i, k);
          assert i < |p|;
          assert AssignsAt(p, table, i, k);
        }
      }
    }
  }

  /** The step of DiffMapAssignments, for the value of each code. */
  lemma DiffMapValueStep(p: seq<DiffEntry>, e: DiffEntry, table: GlyphTable)
    requires forall i, k :: AssignsAt(p, table, i, k) && (forall j :: i < j < |p| ==> !AssignsAt(p, table, j, k)) ==>
      k in DiffMapOf(p, table) && DiffMapOf(p, table)[k] == table[p[i].name]
    ensures var s := p + [e];
      forall i, k :: AssignsAt(s, table, i, k) && (forall j :: i < j < |s| ==> !AssignsAt(s, table, j, k)) ==>
        k in DiffMapOf(s, table) && DiffMapOf(s, table)[k] == table[s[i].name]
  {
    var s := p + [e];
    var m := DiffMapOf(s, table);
    AssignsAtSnoc(p, e, table);
    DiffMapOfSnoc(p, e, table);
    forall i, k | AssignsAt(s, table, i, k) && (forall j :: i < j < |s| ==> !AssignsAt(s, table, j, k))
      ensures k in m && m[k] == table[s[i].name]
    {
      if i < |p| {
        assert AssignsAt(p, table, i, k);
        forall j | i < j < |p|
          ensures !AssignsAt(p, table, j, k)
        {
          assert !AssignsAt(s, table, j, k);
        }
        assert !AssignsAt(s, table, |p|, k);
        assert p[i] == s[i];
      }
    }
  }

  /**
   * The difference map holds exactly the codes that some found name assigns,
   * and each of them maps to the standard code of the LAST name that assigns it.
   */
  lemma {:induction false} DiffMapAssignments(s: seq<DiffEntry>, table: GlyphTable)
    ensures forall k :: k in DiffMapOf(s, table) <==> exists i :: AssignsAt(s, table, i, k)
    ensures forall i, k :: AssignsAt(s, table, i, k) && (forall j :: i < j < |s| ==> !AssignsAt(s, table, j, k)) ==>
      k in DiffMapOf(s, table) && DiffMapOf(s, table)[k] == table[s[i].name]
  {
    if s != [] {
      var p := s[..|s| - 1];
      DiffMapAssignments(p, table);
      assert s == p + [s[|s| - 1]];
      DiffMapDomainStep(p, s[|s| - 1], table);
      DiffMapValueStep(p, s[|s| - 1], table);
    }
  }

  /** Without a glyph table entry for any name, the map is empty. */
  lemma {:induction false} DiffMapEmptyTable(s: seq<DiffEntry>)
    ensures DiffMapOf(s, map[]) == map[]
  {
    if s != [] {
      DiffMapEmptyTable(s[..|s| - 1]);
    }
  }

  /**
   * `[3, /A, /B, 10, /C]` with the glyph table `{/A: 0x41, /B: 0x42, /C: 0x43}`
   * gives `{3: 0x41, 4: 0x42, 10: 0x43}`.
   */
  lemma DiffMapExample()
    ensures DiffMapOf([Offset(3), Glyph("/A"), Glyph("/B"), Offset(10), Glyph("/C")],
                      map["/A" := 0x41, "/B" := 0x42, "/C" := 0x43])
         == map[3 := 0x41, 4 := 0x42, 10 := 0x43]
  {
    var t: GlyphTable := map["/A" := 0x41, "/B" := 0x42, "/C" := 0x43];
    var s := [Offset(3), Glyph("/A"), Glyph("/B"), Offset(10), Glyph("/C")];
    assert s[..1][..0] == [] && s[..2][..1] == s[..1] && s[..3][..2] == s[..2];
    assert s[..4][..3] == s[..3] && s[..5] == s && s[..4] == s[..|s| - 1];
    assert DiffWalk(s[..1], t) == Walk(3, 0, map[]);
    assert DiffWalk(s[..2], t) == Walk(3, 1, map[3 := 0x41]);
    assert DiffWalk(s[..3], t) == Walk(3, 2, map[3 := 0x41, 4 := 0x42]);
    assert DiffWalk(s[..4], t) == Walk(10, 0, map[3 := 0x41, 4 := 0x42]);
  }

  /**
   * The inner loop of `get_font_enc_map`, with its two counters
   * `custom_encoding_first_index` and `custom_encoding_offset`.
   */
  method BuildDiffMap(diffs: seq<DiffEntry>, table: GlyphTable) returns (m: DiffMap)
    ensures m == DiffMapOf(diffs, table)
  {
    m := map[];
    var first, offset := 0, 0;
    var i := 0;
    while i < |diffs|
      invariant 0 <= i <= |diffs|
      invariant DiffWalk(diffs[..i], table) == Walk(first, offset, m)
    {
      assert diffs[..i + 1][..i] == diffs[..i];
      match diffs[i] {
        case Offset(n) =>
          first, offset := n, 0;
        case Glyph(g) =>
          if g in table {
            m := m[first + offset := table[g]];
            offset := offset + 1;
          }
      }
      i := i + 1;
    }
    assert diffs[..i] == diffs;
  }

  // ---------------------------------------------------------------------------
  // The registry (`get_font_enc_map`, the outer loop)
  // ---------------------------------------------------------------------------

  /**
   * The registry entry of one font, when it gets one: only a dictionary
   * encoding does; without /Differences its map is empty.
   */
  function FontDiffMap(f: Font): Option<DiffMap>
  {
    match f.encoding
    case NamedEncoding(_) => None
    case DictEncoding(d) =>
      match d
      case None => Some(map[])
      case Some(diffs) => Some(DiffMapOf(diffs, FontGlyphTable(f)))
  }

  /**
   * The registry of a page's fonts: a font has an entry exactly when its
   * encoding is a dictionary (a /WinAnsiEncoding or any other named encoding
   * gets none); the entry is the difference map of its /Differences over the
   * font's glyph table, and empty when the dictionary has no /Differences.
   */
  function RegistryOf(fonts: map<string, Font>): (reg: Registry)
    ensures forall k :: k in reg <==> k in fonts && fonts[k].encoding.DictEncoding?
    ensures forall k :: k in reg && fonts[k].encoding.differences.None? ==> reg[k] == map[]
    ensures forall k :: k in reg && fonts[k].encoding.differences.Some? ==>
      reg[k] == DiffMapOf(fonts[k].encoding.differences.value, FontGlyphTable(fonts[k]))
  {
    map k | k in fonts && FontDiffMap(fonts[k]).Some? :: FontDiffMap(fonts[k]).value
  }

  /**
   * A font without a glyph table (no /FontDescriptor, no /FontFile3 or no CFF
   * encoding) gets an empty entry, whatever its /Differences say.
   */
  lemma RegistryWithoutProgram(fonts: map<string, Font>)
    ensures forall k :: k in RegistryOf(fonts) && fonts[k].program.None? ==> RegistryOf(fonts)[k] == map[]
  {
    forall k | k in fonts && fonts[k].encoding.DictEncoding? && fonts[k].encoding.differences.Some?
      ensures fonts[k].program.None? ==> FontDiffMap(fonts[k]) == Some(map[])
    {
      DiffMapEmptyTable(fonts[k].encoding.differences.value);
    }
  }

  /** `get_font_enc_map`: the registry, built one font at a time. */
  method BuildRegistry(fonts: map<string, Font>) returns (reg: Registry)
    ensures reg == RegistryOf(fonts)
  {
    reg := map[];
    var todo := fonts.Keys;
    while todo != {}
      invariant todo <= fonts.Keys
      invariant reg == map k | k in fonts.Keys - todo && FontDiffMap(fonts[k]).Some? :: FontDiffMap(fonts[k]).value
      decreases todo
    {
      var key :| key in todo;
      var font := fonts[key];
      todo := todo - {key};
      if !font.encoding.DictEncoding? {
        continue;
      }
      var diffMap: DiffMap := map[];
      if font.encoding.differences.Some? {
        var table: GlyphTable := map[];
        if font.program.Some? {
          table := GlyphCodeTable(font.program.value);
        }
        diffMap := BuildDiffMap(font.encoding.differences.value, table);
      }
      reg := reg[key := diffMap];
    }
  }
}
