/**
 Long immediates (DefaultDecoderGenerator.cc:1742-2030; tce/src/base/mach/InstructionTemplate.cc:387-508):
 the slots of an instruction template hold the pieces of an immediate, which are assembled in
 the write port of an immediate unit.
 */
module DecoderImmediates {
  import opened BitVectors
  import opened Sums
  import opened DecoderRules

  /** A slot of a template: its unit, its width, and its lowest bit in the instruction word. */
  datatype Slot = Slot(unit: nat, width: nat, position: nat)

  /** `registerFields` gives the position of the register index field for each destination. */
  datatype Template = Template(tag: nat, slots: seq<Slot>, registerFields: map<nat, nat>)

  datatype Unit = Unit(width: nat, signExtends: bool, opcodeWidth: nat)

  // ---------------------------------------------------------------------------------------
  // Slots of a destination
  // ---------------------------------------------------------------------------------------

  /** The slots that write one unit, most significant first. */
  function SlotsOf(slots: seq<Slot>, unit: nat): seq<Slot> {
    if slots == [] then []
    else
      var last := slots[|slots| - 1];
      var others := SlotsOf(slots[..|slots| - 1], unit);
      if last.unit == unit then others + [last] else others
  }

  function Widths(slots: seq<Slot>): seq<nat> {
    seq(|slots|, i requires 0 <= i < |slots| => slots[i].width)
  }

  /** InstructionTemplate::supportedWidth(unit). */
  method SupportedWidth(t: Template, unit: nat) returns (total: nat)
    ensures total == Sum(Widths(SlotsOf(t.slots, unit)))
  {
    total := 0;
    for i := 0 to |t.slots|
      invariant total == Sum(Widths(SlotsOf(t.slots[..i], unit)))
    {
      assert t.slots[..i + 1][..i] == t.slots[..i];
      if t.slots[i].unit == unit {
        var before := SlotsOf(t.slots[..i], unit);
        assert SlotsOf(t.slots[..i + 1], unit) == before + [t.slots[i]];
        assert Widths(before + [t.slots[i]]) == Widths(before) + [t.slots[i].width];
        SumAppend(Widths(before), t.slots[i].width);
        total := total + t.slots[i].width;
      }
    }
    assert t.slots[..|t.slots|] == t.slots;
  }

  // ---------------------------------------------------------------------------------------
  // Pieces
  // ---------------------------------------------------------------------------------------

  /** The lowest bit of piece j. */
  function Lsb(widths: seq<nat>, j: nat): int
    requires j < |widths|
  {
    Sum(widths) - Sum(widths[..j + 1])
  }

  /** The highest bit of piece j; the first piece reaches up to the top of the port. */
  function Msb(widths: seq<nat>, unitWidth: nat, j: nat): int
    requires j < |widths|
  {
    if j == 0 then unitWidth - 1 else Sum(widths) - Sum(widths[..j]) - 1
  }

  function Piece(slots: seq<Slot>, i: nat, u: Unit, j: nat): Statement
    requires j < |slots|
  {
    var msb, lsb := Msb(Widths(slots), u.width, j), Lsb(Widths(slots), j);
    var range := Range(slots[j].position, slots[j].width);
    AssignSlice(IuData(i), msb, lsb,
                if j == 0 then WordBits(range, u.signExtends, if msb - lsb + 1 > 0 then msb - lsb + 1 else 0)
                else WordBits(range, false, slots[j].width))
  }

  function Pieces(slots: seq<Slot>, i: nat, u: Unit, n: nat): seq<Statement>
    requires n <= |slots|
  {
    seq(n, j requires 0 <= j < n => Piece(slots, i, u, j))
  }

  method WritePieces(slots: seq<Slot>, i: nat, u: Unit, supported: nat) returns (pieces: seq<Statement>)
    requires slots != [] && supported == Sum(Widths(slots))
    ensures pieces == Pieces(slots, i, u, |slots|)
  {
    var widths := Widths(slots);
    var msb: int := u.width - 1;
    var lsb: int := supported - slots[0].width;
    assert widths[..1] == [slots[0].width];
    assert Sum(widths[..1]) == slots[0].width;
    pieces := [];
    var j := 0;
    while j < |slots|
      invariant j <= |slots| && pieces == Pieces(slots, i, u, j)
      invariant msb == if j == 0 then u.width - 1 else Msb(widths, u.width, j - 1)
      invariant lsb == if j == 0 then Lsb(widths, 0) else Lsb(widths, j - 1)
    {
      var s := slots[j];
      SumOfPrefix(widths, j);
      if j != 0 {
        msb := lsb - 1;
        lsb := msb - s.width + 1;
      }
      var immPartWidth := if msb - lsb + 1 > 0 then msb - lsb + 1 else 0;
      pieces := pieces + [AssignSlice(IuData(i), msb, lsb,
        if j == 0 then WordBits(Range(s.position, s.width), u.signExtends, immPartWidth)
        else WordBits(Range(s.position, s.width), false, s.width))];
      j := j + 1;
    }
  }

  /** The top of the port belongs to the first slot: it must not start above the port. */
  ghost predicate Assembles(slots: seq<Slot>, u: Unit) {
    && slots != []
    && (forall j :: 0 <= j < |slots| ==> slots[j].width > 0)
    && Sum(Widths(slots)) - slots[0].width <= u.width
  }

  /**
   The pieces partition the write port: they follow each other without gap or overlap from the
   top bit of the port down to bit 0.
   */
  lemma PiecesPartition(slots: seq<Slot>, u: Unit)
    requires Assembles(slots, u)
    ensures var w := Widths(slots);
            && Msb(w, u.width, 0) == u.width - 1
            && Lsb(w, |w| - 1) == 0
            && (forall j :: 0 < j < |w| ==> Msb(w, u.width, j) == Lsb(w, j - 1) - 1)
            && (forall j :: 0 <= j < |w| ==> Lsb(w, j) <= Msb(w, u.width, j) + 1)
  {
    var w := Widths(slots);
    assert w[..|w|] == w;
    assert w[..1] == [slots[0].width];
    assert Sum(w[..1]) == slots[0].width;
    forall j | 0 <= j < |w|
      ensures Lsb(w, j) <= Msb(w, u.width, j) + 1
      ensures j > 0 ==> Msb(w, u.width, j) == Lsb(w, j - 1) - 1
    {
      SumOfPrefix(w, j);
    }
  }

  // ---------------------------------------------------------------------------------------
  // The value that is assembled
  // ---------------------------------------------------------------------------------------

  ghost predicate SlotsInWord(slots: seq<Slot>, word: BitVector) {
    forall j :: 0 <= j < |slots| ==> slots[j].position + slots[j].width <= |word|
  }

  /** The fragments of the first n slots, concatenated. */
  function Fragments(slots: seq<Slot>, word: BitVector, n: nat): (b: BitVector)
    requires n <= |slots| && SlotsInWord(slots, word)
    ensures |b| == Sum(Widths(slots)[..n])
  {
    if n == 0 then []
    else
      SumOfPrefix(Widths(slots), n - 1);
      Fragments(slots, word, n - 1) + Slice(word, Range(slots[n - 1].position, slots[n - 1].width))
  }

  lemma ResizeAppend(sign: bool, a: BitVector, b: BitVector, width: nat)
    requires a != []
    ensures Resize(sign, a + b, width + |b|) == Resize(sign, a, width) + b
  {
    var r, s := Resize(sign, a + b, width + |b|), Resize(sign, a, width) + b;
    assert |r| == |s|;
    assert forall k :: 0 <= k < |r| ==> r[k] == s[k];
  }

  lemma OverwriteMiddle(top: BitVector, bottom: BitVector, piece: BitVector)
    requires |piece| <= |bottom|
    ensures Overwrite(top + bottom, |bottom| - 1, |bottom| - |piece|, piece) == top + piece + bottom[|piece|..]
  {
    var v := top + bottom;
    assert v[..|v| - |bottom|] == top;
    assert v[|v| - (|bottom| - |piece|)..] == bottom[|piece|..];
  }

  lemma {:induction false} LsbOrder(slots: seq<Slot>, u: Unit, j: nat)
    requires Assembles(slots, u) && j < |slots|
    ensures 0 <= Lsb(Widths(slots), j) <= u.width
    ensures j > 0 ==> Lsb(Widths(slots), j - 1) == Lsb(Widths(slots), j) + slots[j].width
    decreases j
  {
    var w := Widths(slots);
    assert w[..|w|] == w;
    SumMono(w, j + 1, |w|);
    SumOfPrefix(w, j);
    if j == 0 {
      assert w[..1] == [slots[0].width];
      assert Sum(w[..1]) == slots[0].width;
    } else {
      LsbOrder(slots, u, j - 1);
    }
  }

  lemma ExecSlice(m: Machine, x: Signal, hi: int, lo: int, value: Value, env: Env, regs: Registers)
    requires ValidCycle(m, env) && x in regs
    ensures ExecOne(m, AssignSlice(x, hi, lo, value), env, regs) == regs[x := Overwrite(regs[x], hi, lo, EvalValue(m, env, value))]
  {
  }

  /** The top of a port overwritten by extended fragments, the rest as it was. */
  function Filled(sign: bool, fragments: BitVector, top: nat, data: BitVector): (r: BitVector)
    requires top <= |data|
    ensures |r| == |data|
  {
    Resize(sign, fragments, top) + data[top..]
  }

  /** The number of bits above the lowest bit of piece j. */
  function Top(slots: seq<Slot>, u: Unit, j: nat): (top: nat)
    requires Assembles(slots, u) && j < |slots|
    ensures top == u.width - Lsb(Widths(slots), j) <= u.width
  {
    LsbOrder(slots, u, j);
    u.width - Lsb(Widths(slots), j)
  }

  function SlotBits(slots: seq<Slot>, word: BitVector, j: nat): BitVector
    requires SlotsInWord(slots, word) && j < |slots|
  {
    Slice(word, Range(slots[j].position, slots[j].width))
  }

  lemma FirstOverwrite(data: BitVector, piece: BitVector)
    requires |piece| <= |data|
    ensures Overwrite(data, |data| - 1, |data| - |piece|, piece) == piece + data[|piece|..]
  {
    OverwriteMiddle([], data, piece);
    assert [] + data == data && [] + piece == piece;
  }

  lemma OverwriteTail(head: BitVector, data: BitVector, slice: BitVector, top: nat, next: nat)
    requires next == top + |slice| <= |data|
    ensures Overwrite(head + data[top..], |data| - top - 1, |data| - next, slice) == head + slice + data[next..]
  {
    OverwriteMiddle(head, data[top..], slice);
    assert data[top..][|slice|..] == data[next..];
  }

  lemma NextOverwrite(sign: bool, fragments: BitVector, slice: BitVector, more: BitVector, data: BitVector, top: nat, next: nat)
    requires fragments != [] && more == fragments + slice && next == top + |slice| <= |data|
    ensures Overwrite(Filled(sign, fragments, top, data), |data| - top - 1, |data| - next, slice)
            == Filled(sign, more, next, data)
  {
    ResizeAppend(sign, fragments, slice, top);
    OverwriteTail(Resize(sign, fragments, top), data, slice, top, next);
  }

  lemma OneFragment(slots: seq<Slot>, word: BitVector)
    requires slots != [] && SlotsInWord(slots, word)
    ensures Fragments(slots, word, 1) == SlotBits(slots, word, 0)
  {
    assert Fragments(slots, word, 0) == [];
  }

  lemma FragmentsStep(slots: seq<Slot>, word: BitVector, j: nat)
    requires j < |slots| && SlotsInWord(slots, word)
    ensures Fragments(slots, word, j + 1) == Fragments(slots, word, j) + SlotBits(slots, word, j)
    ensures |SlotBits(slots, word, j)| == slots[j].width
  {
  }

  lemma FirstPiece(m: Machine, slots: seq<Slot>, i: nat, u: Unit, env: Env, regs: Registers)
    requires ValidCycle(m, env) && Assembles(slots, u) && SlotsInWord(slots, env.word)
    requires IuData(i) in regs && |regs[IuData(i)]| == u.width
    ensures ExecOne(m, Piece(slots, i, u, 0), env, regs)
            == regs[IuData(i) := Filled(u.signExtends, SlotBits(slots, env.word, 0), Top(slots, u, 0), regs[IuData(i)])]
  {
    var top, value := Top(slots, u, 0), WordBits(Range(slots[0].position, slots[0].width), u.signExtends, Top(slots, u, 0));
    var slice := Resize(u.signExtends, SlotBits(slots, env.word, 0), top);
    FirstOverwrite(regs[IuData(i)], slice);
    ExecSlice(m, IuData(i), u.width - 1, u.width - top, value, env, regs);
    assert Piece(slots, i, u, 0) == AssignSlice(IuData(i), u.width - 1, u.width - top, value);
    assert EvalValue(m, env, value) == slice;
  }

  lemma NextPiece(m: Machine, slots: seq<Slot>, i: nat, u: Unit, j: nat, env: Env, regs: Registers)
    requires ValidCycle(m, env) && Assembles(slots, u) && SlotsInWord(slots, env.word) && 0 < j < |slots|
    requires IuData(i) in regs
    ensures Top(slots, u, j) == Top(slots, u, j - 1) + slots[j].width
    ensures ExecOne(m, Piece(slots, i, u, j), env, regs)
            == regs[IuData(i) := Overwrite(regs[IuData(i)], u.width - Top(slots, u, j - 1) - 1, u.width - Top(slots, u, j),
                                           SlotBits(slots, env.word, j))]
  {
    LsbOrder(slots, u, j);
    PiecesPartition(slots, u);
    var slice := SlotBits(slots, env.word, j);
    assert Resize(false, slice, |slice|) == slice;
    ExecSlice(m, IuData(i), Msb(Widths(slots), u.width, j), Lsb(Widths(slots), j),
              WordBits(Range(slots[j].position, slots[j].width), false, slots[j].width), env, regs);
  }

  lemma FragmentsNotEmpty(slots: seq<Slot>, u: Unit, word: BitVector, j: nat)
    requires Assembles(slots, u) && SlotsInWord(slots, word) && 0 < j <= |slots|
    ensures Fragments(slots, word, j) != []
  {
    var w := Widths(slots);
    SumMono(w, 1, j);
    assert w[..1] == [slots[0].width];
    assert Sum(w[..1]) == slots[0].width;
  }

  lemma NextFilledValue(slots: seq<Slot>, u: Unit, word: BitVector, j: nat, data: BitVector)
    requires Assembles(slots, u) && SlotsInWord(slots, word) && 0 < j < |slots| && |data| == u.width
    requires Top(slots, u, j) == Top(slots, u, j - 1) + slots[j].width
    ensures Overwrite(Filled(u.signExtends, Fragments(slots, word, j), Top(slots, u, j - 1), data),
                      u.width - Top(slots, u, j - 1) - 1, u.width - Top(slots, u, j), SlotBits(slots, word, j))
            == Filled(u.signExtends, Fragments(slots, word, j + 1), Top(slots, u, j), data)
  {
    var f, b, more := Fragments(slots, word, j), SlotBits(slots, word, j), Fragments(slots, word, j + 1);
    var top, next := Top(slots, u, j - 1), Top(slots, u, j);
    assert f != [] by {
      FragmentsNotEmpty(slots, u, word, j);
    }
    assert more == f + b && |b| == slots[j].width by {
      FragmentsStep(slots, word, j);
    }
    NextOverwrite(u.signExtends, f, b, more, data, top, next);
  }

  lemma NextFilled(m: Machine, slots: seq<Slot>, i: nat, u: Unit, j: nat, env: Env, regs: Registers, data: BitVector)
    requires ValidCycle(m, env) && Assembles(slots, u) && SlotsInWord(slots, env.word) && 0 < j < |slots|
    requires |data| == u.width && IuData(i) in regs
    requires regs[IuData(i)] == Filled(u.signExtends, Fragments(slots, env.word, j), Top(slots, u, j - 1), data)
    ensures ExecOne(m, Piece(slots, i, u, j), env, regs)
            == regs[IuData(i) := Filled(u.signExtends, Fragments(slots, env.word, j + 1), Top(slots, u, j), data)]
  {
    NextPiece(m, slots, i, u, j, env, regs);
    NextFilledValue(slots, u, env.word, j, data);
  }

  /** After piece j the top of the port holds the extended fragments; the rest is as before. */
  lemma {:induction false} PiecesAssemble(m: Machine, slots: seq<Slot>, i: nat, u: Unit, j: nat, env: Env, regs: Registers)
    requires ValidCycle(m, env) && Assembles(slots, u) && SlotsInWord(slots, env.word) && j < |slots|
    requires IuData(i) in regs && |regs[IuData(i)]| == u.width
    ensures Exec(m, Pieces(slots, i, u, j + 1), env, regs)
            == regs[IuData(i) := Filled(u.signExtends, Fragments(slots, env.word, j + 1), Top(slots, u, j), regs[IuData(i)])]
    decreases j
  {
    if j == 0 {
      assert Pieces(slots, i, u, 1) == [] + [Piece(slots, i, u, 0)];
      ExecAppend(m, [], Piece(slots, i, u, 0), env, regs);
      OneFragment(slots, env.word);
      FirstPiece(m, slots, i, u, env, regs);
    } else {
      PiecesAssemble(m, slots, i, u, j - 1, env, regs);
      PieceAssembles(m, slots, i, u, j, env, regs, Exec(m, Pieces(slots, i, u, j), env, regs));
    }
  }

  lemma {:induction false} PieceAssembles(m: Machine, slots: seq<Slot>, i: nat, u: Unit, j: nat, env: Env, regs: Registers, before: Registers)
    requires ValidCycle(m, env) && Assembles(slots, u) && SlotsInWord(slots, env.word) && 0 < j < |slots|
    requires IuData(i) in regs && |regs[IuData(i)]| == u.width
    requires before == Exec(m, Pieces(slots, i, u, j), env, regs)
    requires before == regs[IuData(i) := Filled(u.signExtends, Fragments(slots, env.word, j), Top(slots, u, j - 1), regs[IuData(i)])]
    ensures Exec(m, Pieces(slots, i, u, j + 1), env, regs)
            == regs[IuData(i) := Filled(u.signExtends, Fragments(slots, env.word, j + 1), Top(slots, u, j), regs[IuData(i)])]
  {
    assert Pieces(slots, i, u, j + 1) == Pieces(slots, i, u, j) + [Piece(slots, i, u, j)];
    ExecAppend(m, Pieces(slots, i, u, j), Piece(slots, i, u, j), env, regs);
    NextFilled(m, slots, i, u, j, env, before, regs[IuData(i)]);
  }

  lemma AllFilled(sign: bool, fragments: BitVector, data: BitVector)
    ensures Filled(sign, fragments, |data|, data) == Resize(sign, fragments, |data|)
  {
  }

  lemma TopOfLast(slots: seq<Slot>, u: Unit)
    requires Assembles(slots, u)
    ensures Top(slots, u, |slots| - 1) == u.width
  {
    PiecesPartition(slots, u);
  }

  /**
   Whatever the number of slots, the write port receives the concatenated fragments, sign or
   zero extended to the width of the unit (and cut on the left if the port is narrower).
   */
  lemma AssembledImmediate(m: Machine, slots: seq<Slot>, i: nat, u: Unit, env: Env, regs: Registers)
    requires ValidCycle(m, env) && Assembles(slots, u) && SlotsInWord(slots, env.word)
    requires IuData(i) in regs && |regs[IuData(i)]| == u.width
    ensures Exec(m, Pieces(slots, i, u, |slots|), env, regs)
            == regs[IuData(i) := Resize(u.signExtends, Fragments(slots, env.word, |slots|), u.width)]
  {
    PiecesAssemble(m, slots, i, u, |slots| - 1, env, regs);
    TopOfLast(slots, u);
    AllFilled(u.signExtends, Fragments(slots, env.word, |slots|), regs[IuData(i)]);
  }

  // ---------------------------------------------------------------------------------------
  // The procedures of a template
  // ---------------------------------------------------------------------------------------

  function Zeros(n: nat): BitVector {
    seq(n, _ => false)
  }

  function RegisterIndexRules(t: Template, i: nat, u: Unit): seq<Statement> {
    if u.opcodeWidth > 0 && i in t.registerFields
    then [Assign(IuOpcode(i), WordBits(Range(t.registerFields[i], u.opcodeWidth), false, u.opcodeWidth))]
    else []
  }

  /** What the template does to unit i: clear its port, write its immediate, or only drop the load. */
  function UnitRules(t: Template, i: nat, u: Unit): seq<Statement> {
    var slots := SlotsOf(t.slots, i);
    if t.slots == [] then
      [Assign(IuLoad(i), Constant(ZERO)), AssignSlice(IuData(i), u.width - 1, 0, Constant(Zeros(u.width)))]
    else if slots != [] then
      Pieces(slots, i, u, |slots|) + RegisterIndexRules(t, i, u) + [Assign(IuLoad(i), Constant(ONE))]
    else
      [Assign(IuLoad(i), Constant(ZERO))]
  }

  function TemplateRules(t: Template, units: seq<Unit>, n: nat): seq<Statement>
    requires n <= |units|
  {
    if n == 0 then [] else TemplateRules(t, units, n - 1) + UnitRules(t, n - 1, units[n - 1])
  }

  method WriteInstructionTemplateProcedures(t: Template, units: seq<Unit>) returns (rules: seq<Statement>)
    ensures rules == TemplateRules(t, units, |units|)
  {
    rules := [];
    for i := 0 to |units|
      invariant rules == TemplateRules(t, units, i)
    {
      var u := units[i];
      ghost var before := rules;
      if t.slots == [] {
        rules := rules + [Assign(IuLoad(i), Constant(ZERO)),
                          AssignSlice(IuData(i), u.width - 1, 0, Constant(Zeros(u.width)))];
      } else {
        var slots := SlotsOf(t.slots, i);
        if slots != [] {
          var supported := SupportedWidth(t, i);
          var pieces := WritePieces(slots, i, u, supported);
          rules := rules + (pieces + RegisterIndexRules(t, i, u) + [Assign(IuLoad(i), Constant(ONE))]);
        } else {
          rules := rules + [Assign(IuLoad(i), Constant(ZERO))];
        }
      }
      assert rules == before + UnitRules(t, i, u);
    }
  }

  /** All templates, tried in order; the last one is not compared. */
  function TemplateBranches(templates: seq<Template>, units: seq<Unit>, n: nat): seq<Branch>
    requires n <= |templates|
  {
    seq(n, k requires 0 <= k < n => Branch(TagIs(templates[k].tag), TemplateRules(templates[k], units, |units|)))
  }

  /** No process is written for machines without templates, or with one template that is empty. */
  predicate NoProcess(templates: seq<Template>) {
    templates == [] || (|templates| == 1 && templates[0].slots == [])
  }

  function ImmediateProcess(templates: seq<Template>, units: seq<Unit>): seq<Statement> {
    if NoProcess(templates) then []
    else if |templates| == 1 then Chain(TemplateBranches(templates, units, 1), [])
    else
      var last := |templates| - 1;
      Chain(TemplateBranches(templates, units, last), TemplateRules(templates[last], units, |units|))
  }

  /** Writes a signal of unit i. */
  predicate OfUnit(x: Signal, i: nat) {
    x == IuLoad(i) || x == IuOpcode(i) || x == IuData(i)
  }

  lemma {:induction false} PiecesWrite(slots: seq<Slot>, i: nat, u: Unit, n: nat, x: Signal)
    requires n <= |slots|
    ensures Writes(Pieces(slots, i, u, n), x) ==> x == IuData(i)
    decreases n
  {
    if n > 0 {
      PiecesWrite(slots, i, u, n - 1, x);
      assert Pieces(slots, i, u, n) == Pieces(slots, i, u, n - 1) + [Piece(slots, i, u, n - 1)];
      WritesConcat(Pieces(slots, i, u, n - 1), [Piece(slots, i, u, n - 1)], x);
      WritesOnly(Piece(slots, i, u, n - 1), x);
    }
  }

  lemma WritesOnly(a: Statement, x: Signal)
    ensures Writes([a], x) <==> WritesOne(a, x)
  {
    assert [a][..0] == [];
    assert !Writes([], x);
  }

  lemma IndexWrites(t: Template, i: nat, u: Unit, x: Signal)
    ensures Writes(RegisterIndexRules(t, i, u), x) ==> x == IuOpcode(i)
  {
    if RegisterIndexRules(t, i, u) != [] {
      WritesOnly(RegisterIndexRules(t, i, u)[0], x);
    }
  }

  lemma UnitRulesWrite(t: Template, i: nat, u: Unit, x: Signal)
    ensures Writes(UnitRules(t, i, u), x) ==> OfUnit(x, i)
  {
    var slots := SlotsOf(t.slots, i);
    WritesOnly(Assign(IuLoad(i), Constant(ONE)), x);
    WritesOnly(Assign(IuLoad(i), Constant(ZERO)), x);
    if t.slots == [] {
      var r := UnitRules(t, i, u);
      assert r == [r[0]] + [r[1]];
      WritesConcat([r[0]], [r[1]], x);
      WritesOnly(r[1], x);
    } else if slots != [] {
      PiecesWrite(slots, i, u, |slots|, x);
      IndexWrites(t, i, u, x);
      WritesConcat(Pieces(slots, i, u, |slots|), RegisterIndexRules(t, i, u), x);
      WritesConcat(Pieces(slots, i, u, |slots|) + RegisterIndexRules(t, i, u), [Assign(IuLoad(i), Constant(ONE))], x);
    }
  }

  lemma LastUnitKeeps(m: Machine, t: Template, units: seq<Unit>, n: nat, i: nat, x: Signal, env: Env, regs: Registers)
    requires ValidCycle(m, env) && i < n - 1 < |units| && OfUnit(x, i)
    ensures SameAt(Exec(m, TemplateRules(t, units, n), env, regs), Exec(m, TemplateRules(t, units, n - 1), env, regs), x)
  {
    var before, last := TemplateRules(t, units, n - 1), UnitRules(t, n - 1, units[n - 1]);
    ExecConcat(m, before, last, env, regs);
    UnitRulesWrite(t, n - 1, units[n - 1], x);
    Unwritten(m, last, env, Exec(m, before, env, regs), x);
  }

  /** What a template does to unit i is decided by the rules of unit i. */
  lemma {:induction false} TemplateAtUnit(m: Machine, t: Template, units: seq<Unit>, n: nat, i: nat, x: Signal, env: Env, regs: Registers)
    requires ValidCycle(m, env) && i < n <= |units| && OfUnit(x, i)
    ensures SameAt(Exec(m, TemplateRules(t, units, n), env, regs),
                   Exec(m, UnitRules(t, i, units[i]), env, Exec(m, TemplateRules(t, units, i), env, regs)), x)
    decreases n
  {
    if i == n - 1 {
      ExecConcat(m, TemplateRules(t, units, i), UnitRules(t, i, units[i]), env, regs);
    } else {
      TemplateAtUnit(m, t, units, n - 1, i, x, env, regs);
      LastUnitKeeps(m, t, units, n, i, x, env, regs);
    }
  }

  lemma {:induction false} EarlierUnits(m: Machine, t: Template, units: seq<Unit>, n: nat, x: Signal, env: Env, regs: Registers)
    requires ValidCycle(m, env) && n <= |units|
    requires forall i :: 0 <= i < n ==> !OfUnit(x, i)
    ensures SameAt(Exec(m, TemplateRules(t, units, n), env, regs), regs, x)
    decreases n
  {
    if n > 0 {
      EarlierUnits(m, t, units, n - 1, x, env, regs);
      UnitRulesWrite(t, n - 1, units[n - 1], x);
      ExecConcat(m, TemplateRules(t, units, n - 1), UnitRules(t, n - 1, units[n - 1]), env, regs);
      Unwritten(m, UnitRules(t, n - 1, units[n - 1]), env, Exec(m, TemplateRules(t, units, n - 1), env, regs), x);
    }
  }

  lemma DestinationUnit(m: Machine, t: Template, i: nat, u: Unit, env: Env, regs: Registers)
    requires ValidCycle(m, env)
    requires var slots := SlotsOf(t.slots, i); Assembles(slots, u) && SlotsInWord(slots, env.word)
    requires IuData(i) in regs && |regs[IuData(i)]| == u.width
    ensures var after, slots := Exec(m, UnitRules(t, i, u), env, regs), SlotsOf(t.slots, i);
            && IuData(i) in after && IuLoad(i) in after && after[IuLoad(i)] == ONE
            && after[IuData(i)] == Resize(u.signExtends, Fragments(slots, env.word, |slots|), u.width)
  {
    var slots := SlotsOf(t.slots, i);
    var pieces, index := Pieces(slots, i, u, |slots|), RegisterIndexRules(t, i, u);
    AssembledImmediate(m, slots, i, u, env, regs);
    var assembled := Exec(m, pieces, env, regs);
    IndexWrites(t, i, u, IuData(i));
    Unwritten(m, index, env, assembled, IuData(i));
    ExecConcat(m, pieces, index, env, regs);
    ExecAppend(m, pieces + index, Assign(IuLoad(i), Constant(ONE)), env, regs);
  }

  lemma OtherUnit(m: Machine, t: Template, i: nat, u: Unit, env: Env, regs: Registers)
    requires ValidCycle(m, env) && SlotsOf(t.slots, i) == []
    ensures var after := Exec(m, UnitRules(t, i, u), env, regs); IuLoad(i) in after && after[IuLoad(i)] == ZERO
  {
    ExecSingleton(m, Assign(IuLoad(i), Constant(ZERO)), env, regs);
    var r := UnitRules(t, i, u);
    if t.slots == [] {
      assert r == [r[0]] + [r[1]];
      ExecAppend(m, [r[0]], r[1], env, regs);
    }
  }

  /** The empty template clears the port. */
  lemma ClearedUnit(m: Machine, t: Template, i: nat, u: Unit, env: Env, regs: Registers)
    requires ValidCycle(m, env) && t.slots == [] && IuData(i) in regs && |regs[IuData(i)]| == u.width
    ensures var after := Exec(m, UnitRules(t, i, u), env, regs); IuData(i) in after && after[IuData(i)] == Zeros(u.width)
  {
    var r := UnitRules(t, i, u);
    ExecSingleton(m, r[0], env, regs);
    assert r == [r[0]] + [r[1]];
    ExecAppend(m, [r[0]], r[1], env, regs);
    assert Overwrite(regs[IuData(i)], u.width - 1, 0, Zeros(u.width)) == Zeros(u.width);
  }

  /** The template writes the register index of unit i. */
  predicate WritesIndex(t: Template, i: nat, u: Unit) {
    SlotsOf(t.slots, i) != [] && u.opcodeWidth > 0 && i in t.registerFields
  }

  lemma IndexWritten(m: Machine, t: Template, i: nat, u: Unit, env: Env, regs: Registers)
    requires ValidCycle(m, env) && WritesIndex(t, i, u) && t.registerFields[i] + u.opcodeWidth <= |env.word|
    ensures var after := Exec(m, UnitRules(t, i, u), env, regs);
            IuOpcode(i) in after && after[IuOpcode(i)] == Slice(env.word, Range(t.registerFields[i], u.opcodeWidth))
  {
    var slots := SlotsOf(t.slots, i);
    var pieces, index := Pieces(slots, i, u, |slots|), RegisterIndexRules(t, i, u);
    var field := Slice(env.word, Range(t.registerFields[i], u.opcodeWidth));
    assert Resize(false, field, u.opcodeWidth) == field;
    ExecConcat(m, pieces, index, env, regs);
    ExecSingleton(m, index[0], env, Exec(m, pieces, env, regs));
    ExecAppend(m, pieces + index, Assign(IuLoad(i), Constant(ONE)), env, regs);
  }

  lemma IndexKept(m: Machine, t: Template, i: nat, u: Unit, env: Env, regs: Registers)
    requires ValidCycle(m, env) && !WritesIndex(t, i, u)
    ensures SameAt(Exec(m, UnitRules(t, i, u), env, regs), regs, IuOpcode(i))
  {
    var slots, x := SlotsOf(t.slots, i), IuOpcode(i);
    WritesOnly(Assign(IuLoad(i), Constant(ONE)), x);
    WritesOnly(Assign(IuLoad(i), Constant(ZERO)), x);
    if t.slots == [] {
      var r := UnitRules(t, i, u);
      assert r == [r[0]] + [r[1]];
      WritesConcat([r[0]], [r[1]], x);
      WritesOnly(r[1], x);
    } else if slots != [] {
      PiecesWrite(slots, i, u, |slots|, x);
      assert Pieces(slots, i, u, |slots|) + [] == Pieces(slots, i, u, |slots|);
      WritesConcat(Pieces(slots, i, u, |slots|), [Assign(IuLoad(i), Constant(ONE))], x);
    }
    Unwritten(m, UnitRules(t, i, u), env, regs, x);
  }

  ghost predicate DistinctTags(templates: seq<Template>) {
    forall a, b :: 0 <= a < b < |templates| ==> templates[a].tag != templates[b].tag
  }

  lemma FirstTakenTag(m: Machine, templates: seq<Template>, units: seq<Unit>, n: nat, k: nat, env: Env)
    requires ValidCycle(m, env) && n <= |templates| && k < |templates| && DistinctTags(templates)
    requires templates[k].tag == FromBits(Slice(env.word, m.tag))
    ensures FirstTaken(m, env, TemplateBranches(templates, units, n)) == if k < n then k else n
  {
    var i := FirstTaken(m, env, TemplateBranches(templates, units, n));
    assert i < n ==> templates[i].tag == templates[k].tag;
    if k < n {
      assert EvalCondition(m, env, TemplateBranches(templates, units, n)[k].cond);
    }
  }

  /** The branches for the first n templates carry out the first one whose tag is found, or the rest. */
  lemma BranchTakes(m: Machine, templates: seq<Template>, units: seq<Unit>, n: nat, els: seq<Statement>, k: nat, env: Env, regs: Registers)
    requires ValidCycle(m, env) && n <= |templates| && k == FirstTaken(m, env, TemplateBranches(templates, units, n))
    ensures k <= n
    ensures Exec(m, Chain(TemplateBranches(templates, units, n), els), env, regs)
            == Exec(m, if k < n then TemplateRules(templates[k], units, |units|) else els, env, regs)
  {
    ExecChain(m, TemplateBranches(templates, units, n), els, env, regs);
  }

  /** The template the process carries out, or their number if it does nothing. */
  function Selected(m: Machine, templates: seq<Template>, units: seq<Unit>, env: Env): (k: nat)
    requires ValidCycle(m, env)
    ensures k <= |templates|
  {
    if NoProcess(templates) then |templates|
    else FirstTaken(m, env, TemplateBranches(templates, units, if |templates| == 1 then 1 else |templates| - 1))
  }

  lemma ProcessTakes(m: Machine, templates: seq<Template>, units: seq<Unit>, k: nat, env: Env, regs: Registers)
    requires ValidCycle(m, env) && k == Selected(m, templates, units, env)
    ensures Exec(m, ImmediateProcess(templates, units), env, regs)
            == if k < |templates| then Exec(m, TemplateRules(templates[k], units, |units|), env, regs) else regs
  {
    if NoProcess(templates) {
    } else if |templates| == 1 {
      BranchTakes(m, templates, units, 1, [], k, env, regs);
    } else {
      var last := |templates| - 1;
      BranchTakes(m, templates, units, last, TemplateRules(templates[last], units, |units|), k, env, regs);
    }
  }

  /** The tag of an instruction selects its template, also when it is the last, uncompared one. */
  lemma TagSelectsTemplate(m: Machine, templates: seq<Template>, units: seq<Unit>, k: nat, env: Env, regs: Registers)
    requires ValidCycle(m, env) && k < |templates| && DistinctTags(templates)
    requires templates[k].tag == FromBits(Slice(env.word, m.tag))
    requires !NoProcess(templates)
    ensures Exec(m, ImmediateProcess(templates, units), env, regs)
            == Exec(m, TemplateRules(templates[k], units, |units|), env, regs)
  {
    FirstTakenTag(m, templates, units, if |templates| == 1 then 1 else |templates| - 1, k, env);
    ProcessTakes(m, templates, units, k, env, regs);
  }

  lemma DataKept(m: Machine, t: Template, i: nat, u: Unit, env: Env, regs: Registers)
    requires ValidCycle(m, env) && t.slots != [] && SlotsOf(t.slots, i) == []
    ensures SameAt(Exec(m, UnitRules(t, i, u), env, regs), regs, IuData(i))
  {
    WritesOnly(Assign(IuLoad(i), Constant(ZERO)), IuData(i));
    Unwritten(m, UnitRules(t, i, u), env, regs, IuData(i));
  }

  /** The template can be carried out for unit i: its slots and its register index lie in the word. */
  ghost predicate FitsUnit(t: Template, i: nat, u: Unit, word: BitVector) {
    && (var slots := SlotsOf(t.slots, i); slots != [] ==> Assembles(slots, u) && SlotsInWord(slots, word))
    && (WritesIndex(t, i, u) ==> t.registerFields[i] + u.opcodeWidth <= |word|)
  }

  /** A register of unit i after the process: what the rules of the unit make of it. */
  lemma ImmediateAtUnit(m: Machine, templates: seq<Template>, units: seq<Unit>, k: nat, i: nat, env: Env, regs: Registers, x: Signal)
    requires ValidCycle(m, env) && k < |templates| && i < |units| && DistinctTags(templates) && OfUnit(x, i)
    requires templates[k].tag == FromBits(Slice(env.word, m.tag)) && !NoProcess(templates)
    ensures var before := Exec(m, TemplateRules(templates[k], units, i), env, regs);
            && SameAt(before, regs, x)
            && SameAt(Exec(m, ImmediateProcess(templates, units), env, regs), Exec(m, UnitRules(templates[k], i, units[i]), env, before), x)
  {
    TagSelectsTemplate(m, templates, units, k, env, regs);
    EarlierUnits(m, templates[k], units, i, x, env, regs);
    TemplateAtUnit(m, templates[k], units, |units|, i, x, env, regs);
  }

  /**
   In an instruction of template k, every unit the template writes receives exactly the extension of
   the concatenated fragments, with its register index, and is loaded; no other unit is loaded, its
   register index stays, and so does its data, which only the empty template clears.
   */
  lemma LongImmediateWritten(m: Machine, templates: seq<Template>, units: seq<Unit>, k: nat, i: nat, env: Env, regs: Registers)
    requires ValidCycle(m, env) && k < |templates| && i < |units| && DistinctTags(templates)
    requires templates[k].tag == FromBits(Slice(env.word, m.tag)) && !NoProcess(templates)
    requires FitsUnit(templates[k], i, units[i], env.word)
    requires IuData(i) in regs && |regs[IuData(i)]| == units[i].width
    ensures Written(Exec(m, ImmediateProcess(templates, units), env, regs), regs, templates[k], i, units[i], env.word)
  {
    var t, u := templates[k], units[i];
    var before := Exec(m, TemplateRules(t, units, i), env, regs);
    ImmediateAtUnit(m, templates, units, k, i, env, regs, IuData(i));
    ImmediateAtUnit(m, templates, units, k, i, env, regs, IuLoad(i));
    ImmediateAtUnit(m, templates, units, k, i, env, regs, IuOpcode(i));
    UnitWritten(m, t, i, u, env, before);
    SameWritten(Exec(m, UnitRules(t, i, u), env, before), Exec(m, ImmediateProcess(templates, units), env, regs), before, regs, t, i, u,
                env.word);
  }

  lemma UnitWritten(m: Machine, t: Template, i: nat, u: Unit, env: Env, regs: Registers)
    requires ValidCycle(m, env) && FitsUnit(t, i, u, env.word)
    requires IuData(i) in regs && |regs[IuData(i)]| == u.width
    ensures Written(Exec(m, UnitRules(t, i, u), env, regs), regs, t, i, u, env.word)
  {
    if SlotsOf(t.slots, i) != [] {
      DestinationUnit(m, t, i, u, env, regs);
    } else {
      OtherUnit(m, t, i, u, env, regs);
      if t.slots == [] {
        ClearedUnit(m, t, i, u, env, regs);
      } else {
        DataKept(m, t, i, u, env, regs);
      }
    }
    if WritesIndex(t, i, u) {
      IndexWritten(m, t, i, u, env, regs);
    } else {
      IndexKept(m, t, i, u, env, regs);
    }
  }

  lemma SameWritten(a: Registers, b: Registers, before: Registers, start: Registers, t: Template, i: nat, u: Unit, word: BitVector)
    requires FitsUnit(t, i, u, word) && Written(a, before, t, i, u, word)
    requires SameAt(b, a, IuData(i)) && SameAt(b, a, IuLoad(i)) && SameAt(b, a, IuOpcode(i))
    requires SameAt(before, start, IuData(i)) && SameAt(before, start, IuOpcode(i))
    ensures Written(b, start, t, i, u, word)
  {
  }

  /** Load, data and register index of unit i after an instruction of template t. */
  ghost predicate Written(after: Registers, before: Registers, t: Template, i: nat, u: Unit, word: BitVector)
    requires FitsUnit(t, i, u, word)
  {
    var slots := SlotsOf(t.slots, i);
    && IuLoad(i) in after && after[IuLoad(i)] == (if slots != [] then ONE else ZERO)
    && (slots != [] ==>
          && IuData(i) in after
          && after[IuData(i)] == Resize(u.signExtends, Fragments(slots, word, |slots|), u.width))
    && (t.slots == [] ==> IuData(i) in after && after[IuData(i)] == Zeros(u.width))
    && (t.slots != [] && slots == [] ==> SameAt(after, before, IuData(i)))
    && if WritesIndex(t, i, u) then
         && IuOpcode(i) in after
         && after[IuOpcode(i)] == Slice(word, Range(t.registerFields[i], u.opcodeWidth))
       else SameAt(after, before, IuOpcode(i))
  }
}
