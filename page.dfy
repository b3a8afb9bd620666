/**
 * One page as the main loop of unicodify_pdf handles it: the content stream
 * rewritten through the registry of the page's fonts, then the fonts
 * themselves updated with the same registry.
 */
module Page {
  import opened PdfTypes
  import opened Differences
  import opened Reencode
  import opened ContentStream
  import opened Widths

  /** A page's parsed content stream and its /Font resources, if any. */
  datatype PageContent = PageContent(contents: seq<Op>, fonts: Option<map<string, Font>>)

  /**
   * A page after the remap, or the first error raised on it. A page without
   * font resources is left as it is. Otherwise its stream is rewritten through
   * the registry of its fonts and its fonts are updated with that registry;
   * the page fails with the stream's error first, then the fonts'.
   */
  ghost function ProcessedPage(p: PageContent): (r: Result<PageContent>)
    ensures p.fonts.None? ==> r == Ok(p)
    ensures r.Ok? && p.fonts.Some? ==> r.value.fonts.Some? && r.value.fonts.value.Keys == p.fonts.value.Keys
    ensures p.fonts.Some? ==>
      var reg := RegistryOf(p.fonts.value);
      (r.Ok? <==> Transform(p.contents, reg).Ok? && UpdatedFonts(p.fonts, reg).Ok?) &&
      (r.Ok? ==> r.value.contents == Transform(p.contents, reg).value && r.value.fonts == UpdatedFonts(p.fonts, reg).value)
    ensures p.fonts.Some? && r.Err? ==>
      var reg := RegistryOf(p.fonts.value);
      r == (if Transform(p.contents, reg).Err? then Err(Transform(p.contents, reg).error)
            else Err(UpdatedFonts(p.fonts, reg).error))
  {
    match ContentsResult(p.contents, p.fonts)
    case Err(e) => Err(e)
    case Ok((out, reg)) =>
      match UpdatedFonts(p.fonts, reg)
      case Err(e) => Err(e)
      case Ok(newFonts) => Ok(PageContent(out, if newFonts.Some? then newFonts else p.fonts))
  }

  /** The body of the page loop of `main`. */
  method ProcessPage(p: PageContent) returns (r: Result<PageContent>)
    ensures r == ProcessedPage(p)
  {
    var t := TransformContents(p.contents, p.fonts);
    if t.Err? {
      return Err(t.error);
    }
    var (newContents, fontsEncMap) := t.value;
    var newFonts := UpdateFonts(p.fonts, fontsEncMap);
    if newFonts.Err? {
      return Err(newFonts.error);
    }
    var fonts := p.fonts;
    if newFonts.value.Some? {
      fonts := newFonts.value;
    }
    r := Ok(PageContent(newContents, fonts));
  }

  /** Updated fonts all declare /Identity-H, so they contribute nothing to a registry. */
  lemma UpdatedFontsLeaveNoRegistry(fonts: map<string, Font>, reg: Registry)
    requires UpdatedFonts(Some(fonts), reg).Ok?
    ensures RegistryOf(UpdatedFonts(Some(fonts), reg).value.value) == map[]
  {
    var nf := UpdatedFonts(Some(fonts), reg).value.value;
    assert forall k :: k in nf ==> nf[k].encoding == IdentityH;
  }

  /** Updating fonts that were already updated, with an empty registry, changes nothing. */
  lemma UpdatedFontsFixed(fonts: map<string, Font>, reg: Registry)
    requires UpdatedFonts(Some(fonts), reg).Ok?
    ensures var nf := UpdatedFonts(Some(fonts), reg).value;
      UpdatedFonts(nf, map[]) == Ok(nf)
  {
    var nf := UpdatedFonts(Some(fonts), reg).value.value;
    forall k | k in nf
      ensures UpdatedFont(nf[k], k, map[]) == Ok(nf[k])
    {
      assert nf[k].encoding == IdentityH && nf[k].toUnicode == Some(FixedCMap);
    }
    assert UpdatedFonts(Some(nf), map[]).Ok?;
    assert UpdatedFonts(Some(nf), map[]).value.value == nf;
  }

  /**
   * Running the remap a second time on its own output changes nothing: no
   * font keeps a /Differences dictionary, so nothing is reencoded, and no Tw
   * is left, so the word spacing stays 0 and no string is split.
   */
  lemma ProcessedPageIdempotent(p: PageContent)
    requires ProcessedPage(p).Ok?
    ensures ProcessedPage(ProcessedPage(p).value) == ProcessedPage(p)
  {
    if p.fonts.Some? {
      var reg := RegistryOf(p.fonts.value);
      var out := Transform(p.contents, reg).value;
      var nf := UpdatedFonts(p.fonts, reg).value.value;
      assert ProcessedPage(p).value == PageContent(out, Some(nf));
      UpdatedFontsLeaveNoRegistry(p.fonts.value, reg);
      TransformIdempotent(p.contents, reg);
      UpdatedFontsFixed(p.fonts.value, reg);
      assert ContentsResult(out, Some(nf)) == Ok((out, map[]));
    }
  }

  /** A built-in encoding with /space at 0x20, /A at 0x41 and nothing else below 0x42. */
  function ExampleNames(): GlyphNames
  {
    seq(0x42, i => if i == 0x20 then "space" else if i == 0x41 then "A" else NotDef)
  }

  /** A one-font page whose CFF font program has that built-in encoding. */
  function ExampleFont(): Font
  {
    Font(DictEncoding(Some([Offset(100), Glyph("/space"), Glyph("/A")])), Some(ExampleNames()),
         Some([250, 600]), Some(100), Some(101), None, map[])
  }

  /** The glyph table of the example encoding: /space at 0x20 and /A at 0x41. */
  lemma ExampleGlyphTable()
    ensures GlyphTableOf(ExampleNames()) == map["/space" := 0x20, "/A" := 0x41]
  {
    var names := ExampleNames();
    var t := GlyphTableOf(names);
    GlyphTableOfSpec(names);
    assert "/" + "space" == "/space" && "/" + "A" == "/A";
    assert Spells(names, 0x20, "/space") && Spells(names, 0x41, "/A");
    forall c | 0 <= c < |names| && names[c] != NotDef
      ensures c == 0x20 || c == 0x41
    {
    }
    forall k | k in t
      ensures k == "/space" || k == "/A"
    {
      var c :| Spells(names, c, k);
    }
    assert t["/space"] == 0x20 by {
      var c := t["/space"];
      assert Spells(names, c, "/space");
    }
    assert t["/A"] == 0x41 by {
      var c := t["/A"];
      assert Spells(names, c, "/A");
    }
  }

  /** The page's content stream: select the font, then show `<6465>`. */
  function ExampleContents(): seq<Op>
  {
    [Op([Name("/F1"), Num(12.0)], "Tf"), Op([Str([100, 101])], "Tj")]
  }

  /** The difference map of the example font: codes 100 and 101 to 0x20 and 0x41. */
  lemma ExampleRegistry()
    ensures RegistryOf(map["/F1" := ExampleFont()]) == map["/F1" := map[100 := 0x20, 101 := 0x41]]
  {
    var f := ExampleFont();
    ExampleGlyphTable();
    var table := FontGlyphTable(f);
    assert table == map["/space" := 0x20, "/A" := 0x41];
    var diffs := [Offset(100), Glyph("/space"), Glyph("/A")];
    assert diffs[..1] == [Offset(100)] && diffs[..2] == [Offset(100), Glyph("/space")];
    assert DiffWalk(diffs[..1], table) == Walk(100, 0, map[]);
    assert DiffWalk(diffs[..2], table) == Walk(100, 1, map[100 := 0x20]);
    assert DiffWalk(diffs, table) == Walk(100, 2, map[100 := 0x20, 101 := 0x41]);
  }

  /** The stream rewritten through that map: `<6465>` becomes `<2041>`, a space and an A. */
  lemma ExampleStream()
    ensures Transform(ExampleContents(), map["/F1" := map[100 := 0x20, 101 := 0x41]])
         == Ok([Op([Name("/F1"), Num(12.0)], "Tf"), Op([Str([0x20, 0x41])], "Tj")])
  {
    var m: DiffMap := map[100 := 0x20, 101 := 0x41];
    var reg: Registry := map["/F1" := m];
    var ops := ExampleContents();
    var s0: seq<Byte> := [100, 101];
    var s1: seq<Byte> := [0x20, 0x41];
    assert ReencodeBytes(s0, m) == s1;
    var first := ops[..1];
    assert first[..|first| - 1] == [] && first[|first| - 1] == ops[0];
    var st := State(Some("/F1"), Num(0.0));
    assert TransformOp(ops[0], Initial, reg) == Ok(Progress(st, [ops[0]]));
    assert RunPrefix([], reg) == Ok(Progress(Initial, []));
    assert [] + [ops[0]] == [ops[0]];
    assert RunPrefix(first, reg) == Ok(Progress(st, [ops[0]]));
    assert ops[..|ops| - 1] == first && ops[|ops| - 1] == Op([Str(s0)], "Tj");
    assert ReencodeOperand(Str(s0), st.font, reg) == Str(s1);
    assert ReencodeAll([Str(s0)], st.font, reg) == [Str(s1)];
    assert TransformOp(Op([Str(s0)], "Tj"), st, reg) == Ok(Progress(st, [Op([Str(s1)], "Tj")]));
    assert RunPrefix(ops, reg) == Ok(Progress(st, [ops[0]] + [Op([Str(s1)], "Tj")]));
    assert [ops[0]] + [Op([Str(s1)], "Tj")] == [ops[0], Op([Str(s1)], "Tj")];
  }

  /** The new widths of the example: 250 at 0x20, 600 at 0x41 and 0 in between. */
  function ExampleWidthTable(): seq<int>
  {
    seq(0x22, j => if j == 0 then 250 else if j == 0x21 then 600 else 0)
  }

  /** The widths of codes 100 and 101 move to codes 0x20 and 0x41. */
  lemma ExampleWidths()
    ensures NewWidthTable([250, 600], 100, 101, map[100 := 0x20, 101 := 0x41])
         == Ok(WidthTable(ExampleWidthTable(), 0x20, 0x41))
  {
    var m: DiffMap := map[100 := 0x20, 101 := 0x41];
    assert Codes(m) == {0x20, 0x41} by {
      assert m[100] as int in Codes(m) && m[101] as int in Codes(m);
    }
    var t := NewWidthTable([250, 600], 100, 101, m).value;
    assert t.firstChar == 0x20 && t.lastChar == 0x41;
    forall j | 0 <= j < 0x22
      ensures t.widths[j] == ExampleWidthTable()[j]
    {
      assert t.widths[j] == SlotWidth([250, 600], 100, 102, m, 0x20 + j);
    }
    assert t.widths == ExampleWidthTable();
  }

  /**
   * With /Differences `[100 /space /A]`, the string `<6465>` shown in that
   * font becomes `<2041>`, and the widths of codes 100 and 101 move to codes
   * 0x20 and 0x41.
   */
  lemma ProcessedPageExample()
    ensures ProcessedPage(PageContent(ExampleContents(), Some(map["/F1" := ExampleFont()])))
         == Ok(PageContent([Op([Name("/F1"), Num(12.0)], "Tf"), Op([Str([0x20, 0x41])], "Tj")],
                           Some(map["/F1" := ExampleFont().(encoding := IdentityH, toUnicode := Some(FixedCMap),
                                                            widths := Some(ExampleWidthTable()),
                                                            firstChar := Some(0x20), lastChar := Some(0x41))])))
  {
    ExampleRegistry();
    ExampleStream();
    ExampleWidths();
    var fonts := map["/F1" := ExampleFont()];
    var reg: Registry := map["/F1" := map[100 := 0x20, 101 := 0x41]];
    var out := [Op([Name("/F1"), Num(12.0)], "Tf"), Op([Str([0x20, 0x41])], "Tj")];
    var g := ExampleFont().(encoding := IdentityH, toUnicode := Some(FixedCMap), widths := Some(ExampleWidthTable()),
                            firstChar := Some(0x20), lastChar := Some(0x41));
    assert ContentsResult(ExampleContents(), Some(fonts)) == Ok((out, reg));
    assert UpdatedFont(ExampleFont(), "/F1", reg) == Ok(g);
    assert UpdatedFonts(Some(fonts), reg).value.value == map["/F1" := g];
  }
}
