/**
 * The operator-stream transformer: one pass over a page's parsed content
 * stream that drops the word-spacing operator Tw, remembers the font selected
 * by Tf, reencodes the strings shown by Tj and TJ (ISO 32000-1, sections 9.3
 * and 9.4.3), and re-expresses word spacing inside TJ arrays as explicit
 * positioning numbers.
 */
module ContentStream {
  import opened PdfTypes
  import opened Reencode
  import opened Differences

  /** `last_font_key` and `last_word_spacing`, the two variables the pass carries. */
  datatype State = State(font: Option<string>, wordSpacing: Operand)

  /** No font selected yet, word spacing 0. */
  const Initial: State := State(None, Num(0.0))

  /** The state after some operators, and the operators emitted so far. */
  datatype Progress = Progress(state: State, out: seq<Op>)

  /** The registry key a Tf font operand selects: only a name can match a key. */
  function FontKey(o: Operand): Option<string>
  {
    if o.Name? then Some(o.name) else None
  }

  /** `xs` in front of a successful result; an error stays the error. */
  function Prepend<T>(xs: seq<T>, r: Result<seq<T>>): Result<seq<T>>
  {
    match r
    case Ok(v) => Ok(xs + v)
    case Err(e) => Err(e)
  }

  lemma PrependNothing<T>(r: Result<seq<T>>)
    ensures Prepend([], r) == r
  {
    if r.Ok? {
      assert [] + r.value == r.value;
    }
  }

  lemma PrependPrepend<T>(xs: seq<T>, ys: seq<T>, r: Result<seq<T>>)
    ensures Prepend(xs, Prepend(ys, r)) == Prepend(xs + ys, r)
  {
    if r.Ok? {
      assert xs + (ys + r.value) == (xs + ys) + r.value;
    }
  }

  // ---------------------------------------------------------------------------
  // TJ arrays
  // ---------------------------------------------------------------------------

  /**
   * The elements of one TJ array, each first split at its spaces under the
   * recorded word spacing (on the original bytes, whatever the font) and then
   * every resulting piece reencoded; the first failing split is the error.
   */
  function TJElems(es: seq<Operand>, st: State, reg: Registry): (r: Result<seq<Operand>>)
    ensures r.Ok? ==> |r.value| >= |es|
    ensures r.Err? <==> exists i :: 0 <= i < |es| && Spaced(es[i], st.wordSpacing).Err?
  {
    if es == [] then Ok([])
    else
      assert forall i :: 1 <= i < |es| ==> es[1..][i - 1] == es[i];
      match Spaced(es[0], st.wordSpacing)
      case Err(e) => Err(e)
      case Ok(pieces) => Prepend(ReencodeAll(pieces, st.font, reg), TJElems(es[1..], st, reg))
  }

  /**
   * The operands of a TJ: each must be an array, whose elements become those
   * of TJElems; the first operand that is not an array is the error.
   */
  function TJOperands(ops: seq<Operand>, st: State, reg: Registry): (r: Result<seq<Operand>>)
    ensures r.Ok? ==> |r.value| == |ops| && forall i :: 0 <= i < |ops| ==>
      ops[i].Arr? && TJElems(ops[i].elems, st, reg).Ok? && r.value[i] == Arr(TJElems(ops[i].elems, st, reg).value)
    ensures r.Err? <==> exists i :: 0 <= i < |ops| && (!ops[i].Arr? || TJElems(ops[i].elems, st, reg).Err?)
  {
    if ops == [] then Ok([])
    else if !ops[0].Arr? then Err(UnexpectedTJOperand)
    else
      assert forall i :: 1 <= i < |ops| ==> ops[i] == ops[1..][i - 1];
      match TJElems(ops[0].elems, st, reg)
      case Err(e) => Err(e)
      case Ok(x) =>
        var rest := TJOperands(ops[1..], st, reg);
        Prepend([Arr(x)], rest)
  }

  /**
   * What one element of a TJ array becomes. A string with a space, under a
   * nonzero numeric word spacing, is split on its original bytes, whatever
   * the font's map, and each piece is then reencoded, with `ws * -1000`
   * between each two pieces. Any other string is only reencoded. A number,
   * or any other non-string element, is kept as it is. A string that must be
   * split under a non-numeric word spacing fails.
   */
  lemma TJElemsElement(e: Operand, st: State, reg: Registry)
    ensures !e.Str? ==> TJElems([e], st, reg) == Ok([e])
    ensures e.Str? && (IsZero(st.wordSpacing) || Space !in e.bytes) ==>
      TJElems([e], st, reg) == Ok([ReencodeOperand(e, st.font, reg)])
    ensures e.Str? && Space in e.bytes && !st.wordSpacing.Num? ==>
      TJElems([e], st, reg) == Err(NonNumericWordSpacing)
    ensures e.Str? && Space in e.bytes && st.wordSpacing.Num? && st.wordSpacing.value != 0.0 ==>
      var r := TJElems([e], st, reg);
      var parts := SplitAfterSpaces(e.bytes);
      |parts| == multiset(e.bytes)[Space] + 1 &&
      r.Ok? && |r.value| == 2 * |parts| - 1 &&
      forall j :: 0 <= j < |r.value| ==>
        r.value[j] == if j % 2 == 0 then ReencodeOperand(Str(parts[j / 2]), st.font, reg)
                      else Num(-1000.0 * st.wordSpacing.value)
  {
    var ws := st.wordSpacing;
    assert [e][1..] == [];
    if Spaced(e, ws).Ok? {
      var pieces := Spaced(e, ws).value;
      assert TJElems([e], st, reg) == Ok(ReencodeAll(pieces, st.font, reg) + []);
      assert ReencodeAll(pieces, st.font, reg) + [] == ReencodeAll(pieces, st.font, reg);
      if !e.Str? || IsZero(ws) || Space !in e.bytes {
        assert pieces == [e];
        assert ReencodeAll([e], st.font, reg) == [ReencodeOperand(e, st.font, reg)];
      }
      if e.Str? && Space in e.bytes && ws.Num? && ws.value != 0.0 {
        SpacedShape(e, ws);
        SplitAfterSpacesCount(e.bytes);
      }
    } else {
      SplitAfterSpacesCount(e.bytes);
      assert Spaced(e, ws) == Err(NonNumericWordSpacing);
    }
  }

  /**
   * The split looks at the bytes before reencoding: under a map that sends
   * 0x41 to the space byte, `<4142>` stays one piece although it is shown
   * as `<2042>`.
   */
  lemma TJElemsExample()
    ensures TJElems([Str([0x41, 0x42])], State(Some("/F1"), Num(1.0)), map["/F1" := map[0x41 := 0x20]])
         == Ok([Str([0x20, 0x42])])
  {
    var s: seq<Byte> := [0x41, 0x42];
    var t: seq<Byte> := [0x20, 0x42];
    assert Space !in s;
    TJElemsElement(Str(s), State(Some("/F1"), Num(1.0)), map["/F1" := map[0x41 := 0x20]]);
    assert ReencodeBytes(s, map[0x41 := 0x20]) == t;
  }

  /**
   * A TJ array is rewritten element by element: the rewrite of a
   * concatenation fails with the first part's error, or else is the first
   * part's rewrite in front of the second's.
   */
  lemma {:induction false} TJElemsConcat(xs: seq<Operand>, ys: seq<Operand>, st: State, reg: Registry)
    ensures TJElems(xs, st, reg).Err? ==> TJElems(xs + ys, st, reg) == TJElems(xs, st, reg)
    ensures TJElems(xs, st, reg).Ok? ==>
      TJElems(xs + ys, st, reg) == Prepend(TJElems(xs, st, reg).value, TJElems(ys, st, reg))
  {
    if xs == [] {
      assert xs + ys == ys;
      PrependNothing(TJElems(ys, st, reg));
    } else {
      assert (xs + ys)[0] == xs[0] && (xs + ys)[1..] == xs[1..] + ys;
      TJElemsConcat(xs[1..], ys, st, reg);
      if Spaced(xs[0], st.wordSpacing).Ok? && TJElems(xs[1..], st, reg).Ok? {
        var head := ReencodeAll(Spaced(xs[0], st.wordSpacing).value, st.font, reg);
        PrependPrepend(head, TJElems(xs[1..], st, reg).value, TJElems(ys, st, reg));
      }
    }
  }

  /**
   * With a TJ array, every string piece of the result, put back together,
   * is the reencoding of the array's strings put back together: splitting
   * loses or adds no byte.
   */
  lemma {:induction false} TJElemsJoin(es: seq<Operand>, f: string, ws: Operand, reg: Registry)
    requires f in reg
    requires TJElems(es, State(Some(f), ws), reg).Ok?
    ensures JoinStrings(TJElems(es, State(Some(f), ws), reg).value) == ReencodeBytes(JoinStrings(es), reg[f])
  {
    var st := State(Some(f), ws);
    if es != [] {
      var pieces := Spaced(es[0], ws).value;
      var rest := TJElems(es[1..], st, reg);
      TJElemsJoin(es[1..], f, ws, reg);
      SpacedJoin(es[0], ws);
      JoinReencodeAll(pieces, f, reg);
      JoinStringsConcat(ReencodeAll(pieces, st.font, reg), rest.value);
      JoinStringsConcat([es[0]], es[1..]);
      assert es == [es[0]] + es[1..];
      ReencodeBytesConcat(JoinStrings([es[0]]), JoinStrings(es[1..]), reg[f]);
    }
  }

  lemma {:induction false} JoinStringsConcat(xs: seq<Operand>, ys: seq<Operand>)
    ensures JoinStrings(xs + ys) == JoinStrings(xs) + JoinStrings(ys)
  {
    if xs == [] {
      assert xs + ys == ys;
    } else {
      assert (xs + ys)[0] == xs[0];
      assert (xs + ys)[1..] == xs[1..] + ys;
      JoinStringsConcat(xs[1..], ys);
      var head := if xs[0].Str? then xs[0].bytes else [];
      assert JoinStrings(xs + ys) == head + (JoinStrings(xs[1..]) + JoinStrings(ys));
    }
  }

  // ---------------------------------------------------------------------------
  // One operator
  // ---------------------------------------------------------------------------

  /**
   * One step of the pass. Tw records its first operand as the word spacing and
   * emits nothing; Tf selects the font named by its second-to-last operand and
   * is emitted with its last two operands; Tj is emitted with its operands
   * reencoded; TJ with its arrays split and reencoded; any other operator is
   * emitted as it is.
   */
  function TransformOp(op: Op, st: State, reg: Registry): (r: Result<Progress>)
    ensures r.Err? <==>
      (op.operator == "Tw" && |op.operands| == 0) ||
      (op.operator == "Tf" && |op.operands| < 2) ||
      (op.operator == "TJ" && TJOperands(op.operands, st, reg).Err?)
    ensures r.Ok? ==> |r.value.out| == (if op.operator == "Tw" then 0 else 1)
    ensures r.Ok? && op.operator != "Tw" ==> r.value.out[0].operator == op.operator
    ensures r.Ok? && op.operator == "Tf" ==> r.value.state.font == FontKey(op.operands[|op.operands| - 2])
    ensures r.Ok? && op.operator != "Tf" ==> r.value.state.font == st.font
    ensures r.Ok? && op.operator == "Tw" ==> r.value.state.wordSpacing == op.operands[0]
    ensures r.Ok? && op.operator != "Tw" ==> r.value.state.wordSpacing == st.wordSpacing
  {
    var operands := op.operands;
    if op.operator == "Tw" then
      if |operands| == 0 then Err(MissingOperand("Tw"))
      else Ok(Progress(st.(wordSpacing := operands[0]), []))
    else if op.operator == "Tf" then
      if |operands| < 2 then Err(MissingOperand("Tf"))
      else
        var name, size := operands[|operands| - 2], operands[|operands| - 1];
        Ok(Progress(st.(font := FontKey(name)), [Op([name, size], "Tf")]))
    else if op.operator == "Tj" then
      Ok(Progress(st, [Op(ReencodeAll(operands, st.font, reg), "Tj")]))
    else if op.operator == "TJ" then
      match TJOperands(operands, st, reg)
      case Err(e) => Err(e)
      case Ok(x) => Ok(Progress(st, [Op(x, "TJ")]))
    else
      Ok(Progress(st, [op]))
  }

  /**
   * What one step emits: Tw nothing, Tf its last two operands, Tj its operands
   * reencoded through the map of the current font, TJ its arrays rewritten by
   * TJOperands, and any other operator itself, in the state it was given.
   */
  lemma TransformOpOut(op: Op, st: State, reg: Registry)
    ensures op.operator == "Tw" && |op.operands| >= 1 ==>
      TransformOp(op, st, reg) == Ok(Progress(st.(wordSpacing := op.operands[0]), []))
    ensures op.operator == "Tf" && |op.operands| >= 2 ==>
      TransformOp(op, st, reg).Ok? &&
      TransformOp(op, st, reg).value.out == [Op(op.operands[|op.operands| - 2..], "Tf")]
    ensures op.operator == "Tj" ==>
      TransformOp(op, st, reg) == Ok(Progress(st, [Op(ReencodeAll(op.operands, st.font, reg), "Tj")]))
    ensures op.operator == "TJ" && TJOperands(op.operands, st, reg).Ok? ==>
      TransformOp(op, st, reg) == Ok(Progress(st, [Op(TJOperands(op.operands, st, reg).value, "TJ")]))
    ensures op.operator != "Tw" && op.operator != "Tf" && op.operator != "Tj" && op.operator != "TJ" ==>
      TransformOp(op, st, reg) == Ok(Progress(st, [op]))
  {
    var n := |op.operands|;
    if op.operator == "Tf" && n >= 2 {
      assert op.operands[n - 2..] == [op.operands[n - 2], op.operands[n - 1]];
    }
  }

  // ---------------------------------------------------------------------------
  // The pass
  // ---------------------------------------------------------------------------

  /** The pass over the first `|ops|` operators: the state reached and what was emitted. */
  function RunPrefix(ops: seq<Op>, reg: Registry): Result<Progress>
  {
    if ops == [] then Ok(Progress(Initial, []))
    else
      match RunPrefix(ops[..|ops| - 1], reg)
      case Err(e) => Err(e)
      case Ok(pr) =>
        match TransformOp(ops[|ops| - 1], pr.state, reg)
        case Err(e) => Err(e)
        case Ok(step) => Ok(Progress(step.state, pr.out + step.out))
  }

  /** `apply_enc_map`: the rewritten content stream, or the first error. */
  function Transform(ops: seq<Op>, reg: Registry): Result<seq<Op>>
  {
    match RunPrefix(ops, reg)
    case Err(e) => Err(e)
    case Ok(pr) => Ok(pr.out)
  }

  /** Once the pass fails, it fails with that error whatever follows. */
  lemma {:induction false} RunPrefixErrSticky(ops: seq<Op>, n: nat, reg: Registry)
    requires n <= |ops|
    requires RunPrefix(ops[..n], reg).Err?
    ensures RunPrefix(ops, reg) == RunPrefix(ops[..n], reg)
    decreases |ops| - n
  {
    if n < |ops| {
      assert ops[..n + 1][..n] == ops[..n];
      RunPrefixErrSticky(ops, n + 1, reg);
    } else {
      assert ops[..n] == ops;
    }
  }

  /** The font selected by the last Tf of `ops` (none before any). */
  function ActiveFont(ops: seq<Op>): Option<string>
  {
    if ops == [] then None
    else
      var op := ops[|ops| - 1];
      if op.operator == "Tf" && |op.operands| >= 2 then FontKey(op.operands[|op.operands| - 2])
      else ActiveFont(ops[..|ops| - 1])
  }

  /** The word spacing set by the last Tw of `ops` (0 before any). */
  function WordSpacing(ops: seq<Op>): Operand
  {
    if ops == [] then Num(0.0)
    else
      var op := ops[|ops| - 1];
      if op.operator == "Tw" && |op.operands| >= 1 then op.operands[0]
      else WordSpacing(ops[..|ops| - 1])
  }

  /** The state a pass that reached the end of `ops` carries. */
  function StateAfter(ops: seq<Op>): State
  {
    State(ActiveFont(ops), WordSpacing(ops))
  }

  /** The number of operators of `ops` that are not Tw. */
  function CountNonTw(ops: seq<Op>): nat
  {
    if ops == [] then 0
    else CountNonTw(ops[..|ops| - 1]) + (if ops[|ops| - 1].operator == "Tw" then 0 else 1)
  }

  /**
   * The state of the pass is a function of the operators read: the font of the
   * last Tf and the word spacing of the last Tw, each kept until the next one.
   */
  lemma {:induction false} RunPrefixState(ops: seq<Op>, reg: Registry)
    requires RunPrefix(ops, reg).Ok?
    ensures RunPrefix(ops, reg).value.state == StateAfter(ops)
  {
    if ops != [] {
      RunPrefixState(ops[..|ops| - 1], reg);
    }
  }

  /** Every operator of `ops` succeeds in the state its prefix leaves. */
  ghost predicate AllStepsOk(ops: seq<Op>, reg: Registry)
  {
    forall i :: 0 <= i < |ops| ==> TransformOp(ops[i], StateAfter(ops[..i]), reg).Ok?
  }

  /**
   * `out` holds one operator for every operator of `ops` that is not Tw, in
   * order: the one at index `i` is output number `CountNonTw(ops[..i])`, as
   * TransformOp emits it in the state `StateAfter(ops[..i])`.
   */
  ghost predicate EmitsInOrder(ops: seq<Op>, out: seq<Op>, reg: Registry)
  {
    |out| == CountNonTw(ops) &&
    forall i :: 0 <= i < |ops| && ops[i].operator != "Tw" ==>
      CountNonTw(ops[..i]) < |out| &&
      TransformOp(ops[i], StateAfter(ops[..i]), reg).Ok? &&
      TransformOp(ops[i], StateAfter(ops[..i]), reg).value.out == [out[CountNonTw(ops[..i])]]
  }

  /** The prefixes of `p + [op]` up to `|p|` are those of `p`. */
  lemma PrefixesOfSnoc(p: seq<Op>, op: Op)
    ensures forall i :: 0 <= i <= |p| ==> (p + [op])[..i] == p[..i]
    ensures (p + [op])[..|p|] == p
  {
    assert forall i :: 0 <= i <= |p| ==> (p + [op])[..i] == p[..i];
  }

  /** The step of RunPrefixOutput for AllStepsOk. */
  lemma AllStepsOkSnoc(p: seq<Op>, op: Op, reg: Registry)
    ensures AllStepsOk(p + [op], reg) <==> AllStepsOk(p, reg) && TransformOp(op, StateAfter(p), reg).Ok?
  {
    PrefixesOfSnoc(p, op);
    var s := p + [op];
    assert forall i :: 0 <= i < |p| ==> s[i] == p[i];
    assert s[|p|] == op;
  }

  /** The step of RunPrefixOutput for EmitsInOrder. */
  lemma EmitsInOrderSnoc(p: seq<Op>, op: Op, out: seq<Op>, emitted: seq<Op>, reg: Registry)
    requires EmitsInOrder(p, out, reg)
    requires TransformOp(op, StateAfter(p), reg).Ok?
    requires emitted == TransformOp(op, StateAfter(p), reg).value.out
    ensures EmitsInOrder(p + [op], out + emitted, reg)
  {
    PrefixesOfSnoc(p, op);
    var s := p + [op];
    assert s[..|s| - 1] == p;
    assert CountNonTw(s) == |out + emitted|;
    forall i | 0 <= i < |s| && s[i].operator != "Tw"
      ensures CountNonTw(s[..i]) < |out + emitted|
      ensures TransformOp(s[i], StateAfter(s[..i]), reg).Ok?
      ensures TransformOp(s[i], StateAfter(s[..i]), reg).value.out == [(out + emitted)[CountNonTw(s[..i])]]
    {
      if i < |p| {
        assert s[i] == p[i];
        assert (out + emitted)[CountNonTw(p[..i])] == out[CountNonTw(p[..i])];
      }
    }
  }

  /**
   * The pass succeeds exactly when every operator succeeds in the state its
   * prefix leaves; it then emits one operator for every operator that is not
   * Tw, in input order: the operator at index `i` becomes output number
   * `CountNonTw(ops[..i])`, transformed in the state `StateAfter(ops[..i])`.
   */
  lemma {:induction false} RunPrefixOutput(ops: seq<Op>, reg: Registry)
    ensures RunPrefix(ops, reg).Ok? <==> AllStepsOk(ops, reg)
    ensures RunPrefix(ops, reg).Ok? ==> EmitsInOrder(ops, RunPrefix(ops, reg).value.out, reg)
  {
    if ops != [] {
      var p := ops[..|ops| - 1];
      var op := ops[|ops| - 1];
      assert ops == p + [op];
      RunPrefixOutput(p, reg);
      AllStepsOkSnoc(p, op, reg);
      if RunPrefix(p, reg).Ok? {
        RunPrefixState(p, reg);
        if TransformOp(op, StateAfter(p), reg).Ok? {
          EmitsInOrderSnoc(p, op, RunPrefix(p, reg).value.out, TransformOp(op, StateAfter(p), reg).value.out, reg);
        }
      }
    }
  }

  /**
   * What the pass emits for the operator at index `i`, when it is not Tw: output
   * number `CountNonTw(ops[..i])` is a Tf with the operator's last two
   * operands, a Tj with its operands reencoded through the map of the font of
   * the last Tf before it, a TJ with its arrays rewritten under that font and
   * the word spacing of the last Tw before it, or else the operator itself.
   */
  lemma TransformEmits(ops: seq<Op>, reg: Registry, i: nat)
    requires Transform(ops, reg).Ok?
    requires i < |ops| && ops[i].operator != "Tw"
    ensures var out, k, op := Transform(ops, reg).value, CountNonTw(ops[..i]), ops[i];
      k < |out| &&
      (op.operator == "Tf" ==> |op.operands| >= 2 && out[k] == Op(op.operands[|op.operands| - 2..], "Tf")) &&
      (op.operator == "Tj" ==> out[k] == Op(ReencodeAll(op.operands, ActiveFont(ops[..i]), reg), "Tj")) &&
      (op.operator == "TJ" ==> TJOperands(op.operands, StateAfter(ops[..i]), reg).Ok? &&
                               out[k] == Op(TJOperands(op.operands, StateAfter(ops[..i]), reg).value, "TJ")) &&
      (op.operator != "Tf" && op.operator != "Tj" && op.operator != "TJ" ==> out[k] == op)
  {
    RunPrefixOutput(ops, reg);
    TransformOpOut(ops[i], StateAfter(ops[..i]), reg);
  }

  /**
   * The number of operators the pass emits is the number it reads less the
   * number of Tw operators.
   */
  lemma {:induction false} CountNonTwTw(ops: seq<Op>)
    ensures CountNonTw(ops) == |ops| - multiset(seq(|ops|, i requires 0 <= i < |ops| => ops[i].operator))["Tw"]
  {
    if ops != [] {
      var p := ops[..|ops| - 1];
      CountNonTwTw(p);
      var names := seq(|ops|, i requires 0 <= i < |ops| => ops[i].operator);
      var pnames := seq(|p|, i requires 0 <= i < |p| => p[i].operator);
      assert names == pnames + [ops[|ops| - 1].operator];
    }
  }

  // ---------------------------------------------------------------------------
  // A second pass changes nothing
  // ---------------------------------------------------------------------------

  /** An operator as the pass emits it: no Tw, a Tf with two operands, a TJ of arrays. */
  predicate Settled(o: Op)
  {
    o.operator != "Tw" &&
    (o.operator == "Tf" ==> |o.operands| == 2) &&
    (o.operator == "TJ" ==> forall x :: x in o.operands ==> x.Arr?)
  }

  /** Every operator the pass emits is settled. */
  lemma {:induction false} RunPrefixSettled(ops: seq<Op>, reg: Registry)
    requires RunPrefix(ops, reg).Ok?
    ensures forall o :: o in RunPrefix(ops, reg).value.out ==> Settled(o)
  {
    if ops != [] {
      var p := ops[..|ops| - 1];
      RunPrefixSettled(p, reg);
      var op := ops[|ops| - 1];
      var step := TransformOp(op, RunPrefix(p, reg).value.state, reg).value;
      if op.operator == "TJ" {
        var x := TJOperands(op.operands, RunPrefix(p, reg).value.state, reg).value;
        assert step.out == [Op(x, "TJ")];
        assert forall y :: y in x ==> y.Arr?;
      }
      assert forall o :: o in step.out ==> Settled(o);
    }
  }

  /** Under word spacing 0 and an empty registry, a TJ array is kept as it is. */
  lemma {:induction false} TJElemsUnchanged(es: seq<Operand>, st: State)
    requires IsZero(st.wordSpacing)
    ensures TJElems(es, st, map[]) == Ok(es)
  {
    if es != [] {
      TJElemsUnchanged(es[1..], st);
      assert ReencodeAll([es[0]], st.font, map[]) == [es[0]];
      assert es == [es[0]] + es[1..];
    }
  }

  /** Under word spacing 0 and an empty registry, the arrays of a TJ are kept as they are. */
  lemma {:induction false} TJOperandsUnchanged(ops: seq<Operand>, st: State)
    requires IsZero(st.wordSpacing)
    requires forall x :: x in ops ==> x.Arr?
    ensures TJOperands(ops, st, map[]) == Ok(ops)
  {
    if ops != [] {
      assert ops[0] in ops;
      assert forall x :: x in ops[1..] ==> x in ops;
      TJOperandsUnchanged(ops[1..], st);
      TJElemsUnchanged(ops[0].elems, st);
      assert ops == [Arr(ops[0].elems)] + ops[1..];
    }
  }

  /** A stream of settled operators passes through an empty registry unchanged. */
  lemma {:induction false} RunPrefixSettledFixed(ops: seq<Op>)
    requires forall o :: o in ops ==> Settled(o)
    ensures RunPrefix(ops, map[]).Ok?
    ensures RunPrefix(ops, map[]).value.out == ops
    ensures IsZero(RunPrefix(ops, map[]).value.state.wordSpacing)
  {
    if ops != [] {
      var p := ops[..|ops| - 1];
      var op := ops[|ops| - 1];
      assert forall o :: o in p ==> o in ops;
      RunPrefixSettledFixed(p);
      assert op in ops;
      var st := RunPrefix(p, map[]).value.state;
      if op.operator == "Tf" {
        assert [op.operands[0], op.operands[1]] == op.operands;
      } else if op.operator == "Tj" {
        assert ReencodeAll(op.operands, st.font, map[]) == op.operands;
      } else if op.operator == "TJ" {
        TJOperandsUnchanged(op.operands, st);
      }
      assert TransformOp(op, st, map[]).value.out == [op];
      assert ops == p + [op];
    }
  }

  /**
   * A second pass over the pass's own output, with the empty registry that the
   * updated fonts give, reproduces that output.
   */
  lemma TransformIdempotent(ops: seq<Op>, reg: Registry)
    requires Transform(ops, reg).Ok?
    ensures Transform(Transform(ops, reg).value, map[]) == Transform(ops, reg)
  {
    RunPrefixSettled(ops, reg);
    RunPrefixSettledFixed(Transform(ops, reg).value);
  }

  // ---------------------------------------------------------------------------
  // The imperative pass
  // ---------------------------------------------------------------------------

  /** The `Tj` branch: every operand reencoded, one after the other. */
  method ReencodeTjOperands(operands: seq<Operand>, font: Option<string>, reg: Registry)
    returns (newOperands: seq<Operand>)
    ensures newOperands == ReencodeAll(operands, font, reg)
  {
    newOperands := [];
    var i := 0;
    while i < |operands|
      invariant 0 <= i <= |operands|
      invariant newOperands == ReencodeAll(operands[..i], font, reg)
    {
      newOperands := newOperands + [ReencodeOperand(operands[i], font, reg)];
      i := i + 1;
    }
    assert operands[..i] == operands;
  }

  /** The body of the `TJ` branch for one array: split each element, reencode each piece. */
  method ReencodeTJArray(es: seq<Operand>, font: Option<string>, ws: Operand, reg: Registry)
    returns (r: Result<seq<Operand>>)
    ensures r == TJElems(es, State(font, ws), reg)
  {
    var st := State(font, ws);
    var noArray: seq<Operand> := [];
    var i := 0;
    assert es[0..] == es;
    PrependNothing(TJElems(es, st, reg));
    while i < |es|
      invariant 0 <= i <= |es|
      invariant TJElems(es, st, reg) == Prepend(noArray, TJElems(es[i..], st, reg))
    {
      assert es[i..][1..] == es[i + 1..];
      var spaced := AddSpacing(es[i], ws);
      if spaced.Err? {
        return Err(spaced.error);
      }
      var pieces := spaced.value;
      var j := 0;
      ghost var before := noArray;
      while j < |pieces|
        invariant 0 <= j <= |pieces|
        invariant noArray == before + ReencodeAll(pieces[..j], font, reg)
      {
        noArray := noArray + [ReencodeOperand(pieces[j], font, reg)];
        j := j + 1;
      }
      assert pieces[..j] == pieces;
      PrependPrepend(before, ReencodeAll(pieces, font, reg), TJElems(es[i + 1..], st, reg));
      i := i + 1;
    }
    assert es[i..] == [];
    assert noArray + [] == noArray;
    r := Ok(noArray);
  }

  /** The `TJ` branch: every operand must be an array, rebuilt by ReencodeTJArray. */
  method ReencodeTJOperands(operands: seq<Operand>, font: Option<string>, ws: Operand, reg: Registry)
    returns (r: Result<seq<Operand>>)
    ensures r == TJOperands(operands, State(font, ws), reg)
  {
    var st := State(font, ws);
    var newOperands: seq<Operand> := [];
    var i := 0;
    assert operands[0..] == operands;
    PrependNothing(TJOperands(operands, st, reg));
    while i < |operands|
      invariant 0 <= i <= |operands|
      invariant TJOperands(operands, st, reg) == Prepend(newOperands, TJOperands(operands[i..], st, reg))
    {
      assert operands[i..][1..] == operands[i + 1..];
      var operand := operands[i];
      if !operand.Arr? {
        return Err(UnexpectedTJOperand);
      }
      var noArray := ReencodeTJArray(operand.elems, font, ws, reg);
      if noArray.Err? {
        return Err(noArray.error);
      }
      PrependPrepend(newOperands, [Arr(noArray.value)], TJOperands(operands[i + 1..], st, reg));
      newOperands := newOperands + [Arr(noArray.value)];
      i := i + 1;
    }
    assert operands[i..] == [];
    assert newOperands + [] == newOperands;
    r := Ok(newOperands);
  }

  /**
   * `apply_enc_map`: the single pass over the parsed content stream, carrying
   * the last selected font and the last word spacing.
   */
  method ApplyEncMap(ops: seq<Op>, reg: Registry) returns (r: Result<seq<Op>>)
    ensures r == Transform(ops, reg)
  {
    var font: Option<string> := None;
    var wordSpacing := Num(0.0);
    var newCommands: seq<Op> := [];
    var i := 0;
    while i < |ops|
      invariant 0 <= i <= |ops|
      invariant RunPrefix(ops[..i], reg) == Ok(Progress(State(font, wordSpacing), newCommands))
    {
      assert ops[..i + 1][..i] == ops[..i];
      var op := ops[i];
      var operands := op.operands;
      ghost var old_state := State(font, wordSpacing);
      if op.operator == "Tw" {
        if |operands| == 0 {
          RunPrefixErrSticky(ops, i + 1, reg);
          return Err(MissingOperand("Tw"));
        }
        assert TransformOp(op, State(font, wordSpacing), reg)
          == Ok(Progress(State(font, operands[0]), []));
        assert newCommands + [] == newCommands;
        wordSpacing := operands[0];
        i := i + 1;
        continue;
      }
      if op.operator == "Tf" {
        if |operands| < 2 {
          RunPrefixErrSticky(ops, i + 1, reg);
          return Err(MissingOperand("Tf"));
        }
        var fontSize := operands[|operands| - 1];
        var fontName := operands[|operands| - 2];
        font := FontKey(fontName);
        operands := [fontName, fontSize];
      } else if op.operator == "Tj" {
        operands := ReencodeTjOperands(operands, font, reg);
      } else if op.operator == "TJ" {
        var newOperands := ReencodeTJOperands(operands, font, wordSpacing, reg);
        if newOperands.Err? {
          RunPrefixErrSticky(ops, i + 1, reg);
          return Err(newOperands.error);
        }
        operands := newOperands.value;
      }
      assert TransformOp(op, old_state, reg) == Ok(Progress(State(font, wordSpacing), [Op(operands, op.operator)]));
      newCommands := newCommands + [Op(operands, op.operator)];
      i := i + 1;
    }
    assert ops[..i] == ops;
    r := Ok(newCommands);
  }

  /** `transform_contents`: with font resources, the registry and the rewritten stream. */
  function ContentsResult(ops: seq<Op>, fonts: Option<map<string, Font>>): Result<(seq<Op>, Registry)>
  {
    match fonts
    case None => Ok((ops, map[]))
    case Some(fs) =>
      match Transform(ops, RegistryOf(fs))
      case Err(e) => Err(e)
      case Ok(out) => Ok((out, RegistryOf(fs)))
  }

  /**
   * `transform_contents`: a page without font resources keeps its stream and
   * gets an empty registry; otherwise the registry is built and the stream
   * rewritten through it. The first case is the evident intent of the
   * `contents.unparse()` call, which pikepdf answers with a reference such as
   * `4 0 R` when the stream is an indirect object; that is not modelled.
   */
  method TransformContents(ops: seq<Op>, fonts: Option<map<string, Font>>)
    returns (r: Result<(seq<Op>, Registry)>)
    ensures fonts.None? ==> r == Ok((ops, map[]))
    ensures fonts.Some? ==> r.Ok? ==> r.value.1 == RegistryOf(fonts.value)
    ensures r == ContentsResult(ops, fonts)
  {
    if fonts.None? {
      return Ok((ops, map[]));
    }
    var reg := BuildRegistry(fonts.value);
    var newContents := ApplyEncMap(ops, reg);
    if newContents.Err? {
      return Err(newContents.error);
    }
    r := Ok((newContents.value, reg));
  }
}
