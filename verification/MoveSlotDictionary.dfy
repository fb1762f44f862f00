/**
 The move-slot dictionary compressor (tce/compressors/MoveSlotDictionary.cc) with the parts of
 its base class that place instructions in the program image
 (tce/src/applibs/PIG/CodeCompressorPlugin.cc).

 The functions say what is computed; the class in MoveSlotCompressor does it in place.
 */
module MoveSlotDictionary {
  import opened Wrappers
  import opened BitVectors
  import opened Sums

  // ---------------------------------------------------------------------------------------
  // Encoding and dictionaries
  // ---------------------------------------------------------------------------------------

  /** `first` bits of long-immediate control come before the move slots; `width` is the width of
      a whole instruction, which also holds any dedicated immediate slot fields. */
  datatype Encoding = Encoding(first: nat, slots: seq<nat>, width: nat)

  type Dictionary = map<BitVector, nat>

  datatype Program = Program(name: string, instructions: seq<BitVector>)

  datatype Error = OutOfRange | KeyNotFound | InvalidData

  /** Where slot i starts. */
  function Offset(enc: Encoding, i: nat): nat
    requires i <= |enc.slots|
  {
    enc.first + Sum(enc.slots[..i])
  }

  /** The bits the compressor reads: the control bits and the move slots. */
  function Covered(enc: Encoding): nat {
    Offset(enc, |enc.slots|)
  }

  ghost predicate ValidEncoding(enc: Encoding) {
    Covered(enc) <= enc.width && enc.first + |enc.slots| > 0
  }

  ghost predicate PositiveSlots(enc: Encoding) {
    forall i :: 0 <= i < |enc.slots| ==> enc.slots[i] > 0
  }

  ghost predicate ValidPrograms(enc: Encoding, programs: seq<Program>) {
    forall p, k :: 0 <= p < |programs| && 0 <= k < |programs[p].instructions| ==>
      |programs[p].instructions[k]| == enc.width
  }

  lemma OffsetStep(enc: Encoding, i: nat)
    requires i < |enc.slots|
    ensures Offset(enc, i + 1) == Offset(enc, i) + enc.slots[i]
  {
    assert enc.slots[..i + 1][..i] == enc.slots[..i];
  }

  lemma {:induction false} OffsetMono(enc: Encoding, i: nat, j: nat)
    requires i <= j <= |enc.slots|
    ensures Offset(enc, i) <= Offset(enc, j)
    decreases j - i
  {
    if i < j {
      OffsetStep(enc, j - 1);
      OffsetMono(enc, i, j - 1);
    }
  }

  /** The bits of slot i of an instruction. */
  function Key(enc: Encoding, bits: BitVector, i: nat): (key: BitVector)
    requires i < |enc.slots| && Covered(enc) <= |bits|
    ensures |key| == enc.slots[i]
  {
    OffsetStep(enc, i);
    OffsetMono(enc, i + 1, |enc.slots|);
    bits[Offset(enc, i)..Offset(enc, i + 1)]
  }

  function Insert(d: Dictionary, key: BitVector): Dictionary {
    if key in d then d else d[key := |d|]
  }

  ghost predicate HasCode(d: Dictionary, c: nat) {
    exists k :: k in d && d[k] == c
  }

  /** A dictionary is a bijection between its keys and 0..size-1. */
  ghost predicate Bijection(d: Dictionary) {
    && (forall k :: k in d ==> d[k] < |d|)
    && (forall k, l :: k in d && l in d && d[k] == d[l] ==> k == l)
    && (forall c :: 0 <= c < |d| ==> HasCode(d, c))
  }

  lemma InsertKeepsBijection(d: Dictionary, key: BitVector)
    requires Bijection(d)
    ensures Bijection(Insert(d, key))
    ensures key in Insert(d, key)
    ensures Grows(d, Insert(d, key))
  {
    var e := Insert(d, key);
    if key !in d {
      assert e.Keys == d.Keys + {key};
      forall c | 0 <= c < |e|
        ensures HasCode(e, c)
      {
        if c < |d| {
          assert HasCode(d, c);
          var k :| k in d && d[k] == c;
          assert k in e && e[k] == c;
        } else {
          assert e[key] == c;
        }
      }
    }
  }

  /** Adding the first n slots of an instruction. */
  function LearnSlots(enc: Encoding, ds: seq<Dictionary>, bits: BitVector, n: nat): (r: seq<Dictionary>)
    requires n <= |enc.slots| <= |ds| && Covered(enc) <= |bits|
    ensures |r| == |ds|
  {
    if n == 0 then ds
    else
      var prev := LearnSlots(enc, ds, bits, n - 1);
      prev[n - 1 := Insert(prev[n - 1], Key(enc, bits, n - 1))]
  }

  /** Adding the first n instructions of a program. */
  function LearnProgram(enc: Encoding, ds: seq<Dictionary>, instructions: seq<BitVector>, n: nat): (r: seq<Dictionary>)
    requires n <= |instructions| && |enc.slots| <= |ds|
    requires forall k :: 0 <= k < n ==> Covered(enc) <= |instructions[k]|
    ensures |r| == |ds|
  {
    if n == 0 then ds
    else LearnSlots(enc, LearnProgram(enc, ds, instructions, n - 1), instructions[n - 1], |enc.slots|)
  }

  /** Adding the first n programs. */
  function LearnAll(enc: Encoding, ds: seq<Dictionary>, programs: seq<Program>, n: nat): (r: seq<Dictionary>)
    requires n <= |programs| && |enc.slots| <= |ds| && Covered(enc) <= enc.width && ValidPrograms(enc, programs)
    ensures |r| == |ds|
  {
    if n == 0 then ds
    else
      var p := programs[n - 1].instructions;
      LearnProgram(enc, LearnAll(enc, ds, programs, n - 1), p, |p|)
  }

  function NoEntries(n: nat): seq<Dictionary> {
    seq(n, _ => map[])
  }

  /** The dictionaries built from all programs. */
  function Learned(enc: Encoding, programs: seq<Program>): (r: seq<Dictionary>)
    requires Covered(enc) <= enc.width && ValidPrograms(enc, programs)
    ensures |r| == |enc.slots|
  {
    LearnAll(enc, NoEntries(|enc.slots|), programs, |programs|)
  }

  // ---------------------------------------------------------------------------------------
  // What insertions keep
  // ---------------------------------------------------------------------------------------

  ghost predicate AllBijections(ds: seq<Dictionary>) {
    forall i :: 0 <= i < |ds| ==> Bijection(ds[i])
  }

  /** Every code given out stays what it was. */
  ghost predicate Extends(a: seq<Dictionary>, b: seq<Dictionary>) {
    && |a| == |b|
    && forall i :: 0 <= i < |a| ==> Grows(a[i], b[i])
  }

  ghost predicate Grows(d: Dictionary, e: Dictionary) {
    forall k :: k in d ==> k in e && e[k] == d[k]
  }

  /** Every slot of the instruction has a code. */
  ghost predicate Knows(enc: Encoding, ds: seq<Dictionary>, bits: BitVector)
    requires |ds| == |enc.slots| && Covered(enc) <= |bits|
  {
    forall i :: 0 <= i < |enc.slots| ==> Key(enc, bits, i) in ds[i]
  }

  /** Each slot changes its own dictionary only. */
  lemma {:induction false} LearnSlotsAt(enc: Encoding, ds: seq<Dictionary>, bits: BitVector, n: nat, i: nat)
    requires n <= |enc.slots| == |ds| && Covered(enc) <= |bits| && i < |ds|
    ensures LearnSlots(enc, ds, bits, n)[i] == if i < n then Insert(ds[i], Key(enc, bits, i)) else ds[i]
    decreases n
  {
    if n > 0 {
      LearnSlotsAt(enc, ds, bits, n - 1, i);
    }
  }

  lemma LearnSlotsStep(enc: Encoding, ds: seq<Dictionary>, bits: BitVector, i: nat)
    requires i < |enc.slots| == |ds| && Covered(enc) <= |bits| && Bijection(ds[i])
    ensures var e := LearnSlots(enc, ds, bits, |enc.slots|)[i];
            Bijection(e) && Grows(ds[i], e) && Key(enc, bits, i) in e
  {
    LearnSlotsAt(enc, ds, bits, |enc.slots|, i);
    InsertKeepsBijection(ds[i], Key(enc, bits, i));
  }

  lemma LearnSlotsKeeps(enc: Encoding, ds: seq<Dictionary>, bits: BitVector)
    requires |enc.slots| == |ds| && Covered(enc) <= |bits| && AllBijections(ds)
    ensures var r := LearnSlots(enc, ds, bits, |enc.slots|);
            AllBijections(r) && Extends(ds, r) && Knows(enc, r, bits)
  {
    forall i | 0 <= i < |ds|
      ensures var e := LearnSlots(enc, ds, bits, |enc.slots|)[i];
              Bijection(e) && Grows(ds[i], e) && Key(enc, bits, i) in e
    {
      LearnSlotsStep(enc, ds, bits, i);
    }
  }

  lemma ExtensionKnows(enc: Encoding, a: seq<Dictionary>, b: seq<Dictionary>, bits: BitVector)
    requires |a| == |enc.slots| && Covered(enc) <= |bits| && Extends(a, b) && Knows(enc, a, bits)
    ensures Knows(enc, b, bits)
  {
    forall i | 0 <= i < |enc.slots|
      ensures Key(enc, bits, i) in b[i]
    {
      assert Grows(a[i], b[i]);
    }
  }

  lemma ExtendsTransitive(a: seq<Dictionary>, b: seq<Dictionary>, c: seq<Dictionary>)
    requires Extends(a, b) && Extends(b, c)
    ensures Extends(a, c)
  {
    forall i | 0 <= i < |a|
      ensures Grows(a[i], c[i])
    {
      assert Grows(a[i], b[i]) && Grows(b[i], c[i]);
    }
  }

  ghost predicate KnowsAll(enc: Encoding, ds: seq<Dictionary>, instructions: seq<BitVector>) {
    && |ds| == |enc.slots|
    && forall k :: 0 <= k < |instructions| ==> Covered(enc) <= |instructions[k]| && Knows(enc, ds, instructions[k])
  }

  lemma ExtensionKnowsAll(enc: Encoding, a: seq<Dictionary>, b: seq<Dictionary>, instructions: seq<BitVector>)
    requires Extends(a, b) && KnowsAll(enc, a, instructions)
    ensures KnowsAll(enc, b, instructions)
  {
    forall k | 0 <= k < |instructions|
      ensures Covered(enc) <= |instructions[k]| && Knows(enc, b, instructions[k])
    {
      ExtensionKnows(enc, a, b, instructions[k]);
    }
  }

  lemma {:induction false} LearnProgramKeeps(enc: Encoding, ds: seq<Dictionary>, instructions: seq<BitVector>, n: nat)
    requires n <= |instructions| && |enc.slots| == |ds| && AllBijections(ds)
    requires forall k :: 0 <= k < |instructions| ==> Covered(enc) <= |instructions[k]|
    ensures var r := LearnProgram(enc, ds, instructions, n);
            AllBijections(r) && Extends(ds, r) && KnowsAll(enc, r, instructions[..n])
    decreases n
  {
    if n > 0 {
      var prev, r := LearnProgram(enc, ds, instructions, n - 1), LearnProgram(enc, ds, instructions, n);
      LearnProgramKeeps(enc, ds, instructions, n - 1);
      LearnSlotsKeeps(enc, prev, instructions[n - 1]);
      ExtendsTransitive(ds, prev, r);
      ExtensionKnowsAll(enc, prev, r, instructions[..n - 1]);
      KnowsOneMore(enc, r, instructions, n);
    }
  }

  lemma KnowsOneMore(enc: Encoding, ds: seq<Dictionary>, instructions: seq<BitVector>, n: nat)
    requires 0 < n <= |instructions| && KnowsAll(enc, ds, instructions[..n - 1])
    requires Covered(enc) <= |instructions[n - 1]| && Knows(enc, ds, instructions[n - 1])
    ensures KnowsAll(enc, ds, instructions[..n])
  {
    forall k | 0 <= k < n
      ensures Covered(enc) <= |instructions[k]| && Knows(enc, ds, instructions[k])
    {
      assert k < n - 1 ==> instructions[..n - 1][k] == instructions[k];
    }
  }

  ghost predicate KnowsPrograms(enc: Encoding, ds: seq<Dictionary>, programs: seq<Program>, n: nat) {
    forall p :: 0 <= p < n <= |programs| ==> KnowsAll(enc, ds, programs[p].instructions)
  }

  lemma LearnWholeProgramKeeps(enc: Encoding, ds: seq<Dictionary>, instructions: seq<BitVector>)
    requires |enc.slots| == |ds| && AllBijections(ds)
    requires forall k :: 0 <= k < |instructions| ==> Covered(enc) <= |instructions[k]|
    ensures var r := LearnProgram(enc, ds, instructions, |instructions|);
            AllBijections(r) && Extends(ds, r) && KnowsAll(enc, r, instructions)
  {
    LearnProgramKeeps(enc, ds, instructions, |instructions|);
    assert instructions[..|instructions|] == instructions;
  }

  lemma ExtensionKnowsPrograms(enc: Encoding, a: seq<Dictionary>, b: seq<Dictionary>, programs: seq<Program>, n: nat)
    requires n < |programs| && Extends(a, b) && KnowsPrograms(enc, a, programs, n)
    requires KnowsAll(enc, b, programs[n].instructions)
    ensures KnowsPrograms(enc, b, programs, n + 1)
  {
    forall p | 0 <= p < n
      ensures KnowsAll(enc, b, programs[p].instructions)
    {
      ExtensionKnowsAll(enc, a, b, programs[p].instructions);
    }
  }

  lemma LearnOneProgram(enc: Encoding, ds: seq<Dictionary>, prev: seq<Dictionary>, programs: seq<Program>, n: nat)
    requires 0 < n <= |programs| && Covered(enc) <= enc.width && ValidPrograms(enc, programs)
    requires |enc.slots| == |ds| && AllBijections(prev) && Extends(ds, prev) && KnowsPrograms(enc, prev, programs, n - 1)
    ensures var p := programs[n - 1].instructions;
            var r := LearnProgram(enc, prev, p, |p|);
            AllBijections(r) && Extends(ds, r) && KnowsPrograms(enc, r, programs, n)
  {
    var p := programs[n - 1].instructions;
    var r := LearnProgram(enc, prev, p, |p|);
    LearnWholeProgramKeeps(enc, prev, p);
    ExtendsTransitive(ds, prev, r);
    ExtensionKnowsPrograms(enc, prev, r, programs, n - 1);
  }

  lemma {:induction false} LearnAllKeeps(enc: Encoding, ds: seq<Dictionary>, programs: seq<Program>, n: nat)
    requires n <= |programs| && |enc.slots| == |ds| && AllBijections(ds)
    requires Covered(enc) <= enc.width && ValidPrograms(enc, programs)
    ensures var r := LearnAll(enc, ds, programs, n);
            AllBijections(r) && Extends(ds, r) && KnowsPrograms(enc, r, programs, n)
    decreases n
  {
    if n > 0 {
      LearnAllKeeps(enc, ds, programs, n - 1);
      LearnOneProgram(enc, ds, LearnAll(enc, ds, programs, n - 1), programs, n);
    }
  }

  /**
   Whatever the programs, each dictionary is a bijection onto 0..size-1, and every slot of
   every instruction of every program has a code: a later lookup cannot fail.
   */
  lemma LookupNeverFails(enc: Encoding, programs: seq<Program>)
    requires Covered(enc) <= enc.width && ValidPrograms(enc, programs)
    ensures AllBijections(Learned(enc, programs))
    ensures KnowsPrograms(enc, Learned(enc, programs), programs, |programs|)
  {
    assert AllBijections(NoEntries(|enc.slots|));
    LearnAllKeeps(enc, NoEntries(|enc.slots|), programs, |programs|);
  }

  // ---------------------------------------------------------------------------------------
  // Compressed instructions
  // ---------------------------------------------------------------------------------------

  function CodeWidth(d: Dictionary): nat {
    RequiredBits(|d|)
  }

  function CodeWidths(ds: seq<Dictionary>): seq<nat> {
    seq(|ds|, i requires 0 <= i < |ds| => CodeWidth(ds[i]))
  }

  /** The width of a compressed instruction. */
  function CompressedWidth(enc: Encoding, ds: seq<Dictionary>): nat {
    enc.first + Sum(CodeWidths(ds))
  }

  /** Control bits followed by the fields of the slots. */
  function Joined(control: BitVector, fields: seq<BitVector>): BitVector {
    if fields == [] then control else Joined(control, fields[..|fields| - 1]) + fields[|fields| - 1]
  }

  function Lengths(fields: seq<BitVector>): seq<nat> {
    seq(|fields|, i requires 0 <= i < |fields| => |fields[i]|)
  }

  /** The codes of all slots, each in the width its dictionary needs. */
  function Codes(enc: Encoding, ds: seq<Dictionary>, bits: BitVector): (codes: seq<BitVector>)
    requires |enc.slots| == |ds| && Covered(enc) <= |bits| && Knows(enc, ds, bits)
    ensures Lengths(codes) == CodeWidths(ds)
  {
    seq(|ds|, i requires 0 <= i < |ds| => ToBits(ds[i][Key(enc, bits, i)], CodeWidth(ds[i])))
  }

  /** The compressed instruction; the control bits are copied. */
  function CompressedInstruction(enc: Encoding, ds: seq<Dictionary>, bits: BitVector): (r: BitVector)
    requires |enc.slots| == |ds| && Covered(enc) <= |bits| && Knows(enc, ds, bits)
    ensures |r| == CompressedWidth(enc, ds)
  {
    OffsetMono(enc, 0, |enc.slots|);
    JoinedLength(bits[..enc.first], Codes(enc, ds, bits));
    Joined(bits[..enc.first], Codes(enc, ds, bits))
  }

  lemma {:induction false} JoinedLength(control: BitVector, fields: seq<BitVector>)
    ensures |Joined(control, fields)| == |control| + Sum(Lengths(fields))
  {
    if fields != [] {
      JoinedLength(control, fields[..|fields| - 1]);
      assert Lengths(fields)[..|fields| - 1] == Lengths(fields[..|fields| - 1]);
    }
  }

  lemma SliceOfConcat(a: BitVector, b: BitVector, lo: nat, hi: nat)
    requires lo <= hi
    ensures hi <= |a| ==> (a + b)[lo..hi] == a[lo..hi]
    ensures lo == |a| && hi == |a| + |b| ==> (a + b)[lo..hi] == b
  {
  }

  /** Field i is found at the sum of the lengths before it. */
  lemma {:induction false} JoinedAt(control: BitVector, fields: seq<BitVector>, i: nat)
    requires i < |fields|
    ensures var w, r := Lengths(fields), Joined(control, fields);
            && |control| + Sum(w[..i]) <= |control| + Sum(w[..i + 1]) <= |r|
            && r[|control| + Sum(w[..i])..|control| + Sum(w[..i + 1])] == fields[i]
    decreases |fields|
  {
    var w, n := Lengths(fields), |fields| - 1;
    assert w[..n] == Lengths(fields[..n]);
    assert w[..n + 1] == w;
    JoinedLength(control, fields[..n]);
    JoinedLength(control, fields);
    SumOfPrefix(w, i);
    SliceOfConcat(Joined(control, fields[..n]), fields[n], |control| + Sum(w[..i]), |control| + Sum(w[..i + 1]));
    if i < n {
      JoinedAt(control, fields[..n], i);
      assert w[..n][..i] == w[..i] && w[..n][..i + 1] == w[..i + 1];
    }
  }

  lemma {:induction false} JoinedControl(control: BitVector, fields: seq<BitVector>)
    ensures control <= Joined(control, fields)
  {
    if fields != [] {
      JoinedControl(control, fields[..|fields| - 1]);
    }
  }

  /** All the slots of an instruction. */
  function Keys(enc: Encoding, bits: BitVector): (keys: seq<BitVector>)
    requires Covered(enc) <= |bits|
    ensures |keys| == |enc.slots|
  {
    seq(|enc.slots|, i requires 0 <= i < |enc.slots| => Key(enc, bits, i))
  }

  /** The control bits and the first n slots are a prefix of the instruction. */
  lemma {:induction false} SlotsArePrefix(enc: Encoding, bits: BitVector, n: nat)
    requires n <= |enc.slots| && Covered(enc) <= |bits|
    ensures enc.first <= Offset(enc, n) <= |bits|
    ensures Joined(bits[..enc.first], Keys(enc, bits)[..n]) == bits[..Offset(enc, n)]
    decreases n
  {
    OffsetMono(enc, 0, n);
    OffsetMono(enc, n, |enc.slots|);
    if n > 0 {
      SlotsArePrefix(enc, bits, n - 1);
      OffsetStep(enc, n - 1);
      assert Keys(enc, bits)[..n][..n - 1] == Keys(enc, bits)[..n - 1];
    }
  }

  function Concat(words: seq<BitVector>): BitVector {
    if words == [] then [] else Concat(words[..|words| - 1]) + words[|words| - 1]
  }

  function CompressedWords(enc: Encoding, ds: seq<Dictionary>, instructions: seq<BitVector>): (words: seq<BitVector>)
    requires KnowsAll(enc, ds, instructions)
    ensures |words| == |instructions|
    ensures forall k :: 0 <= k < |words| ==> |words[k]| == CompressedWidth(enc, ds)
  {
    seq(|instructions|, k requires 0 <= k < |instructions| => CompressedInstruction(enc, ds, instructions[k]))
  }

  /** The program image: one compressed instruction after the other. */
  function Image(enc: Encoding, ds: seq<Dictionary>, instructions: seq<BitVector>): BitVector
    requires KnowsAll(enc, ds, instructions)
  {
    Concat(CompressedWords(enc, ds, instructions))
  }

  // ---------------------------------------------------------------------------------------
  // The decompressor
  // ---------------------------------------------------------------------------------------

  /** What the generated hardware holds for one slot: a constant, or a table read at a line. */
  datatype SlotTable = Constant(bits: BitVector) | Lookup(lines: seq<BitVector>)

  /** `boundaries` are the pairs written into the index expressions: slot i is
      fetchblock(length - boundaries[i].0 downto length - boundaries[i].1). */
  datatype Decompressor = Decompressor(first: nat, boundaries: seq<(nat, nat)>, tables: seq<SlotTable>)

  ghost predicate ValidDecompressor(dec: Decompressor, width: nat) {
    && dec.first <= width
    && |dec.boundaries| == |dec.tables|
    && forall i :: 0 <= i < |dec.boundaries| ==> 0 < dec.boundaries[i].0 <= dec.boundaries[i].1 + 1 <= width + 1
  }

  /** fetchblock(length - hi downto length - lo), read from the most significant bit. */
  function Field(fetchblock: BitVector, boundary: (nat, nat)): BitVector
    requires 0 < boundary.0 <= boundary.1 + 1 <= |fetchblock| + 1
  {
    fetchblock[boundary.0 - 1..boundary.1]
  }

  function TableEntry(t: SlotTable, field: BitVector): Option<BitVector> {
    match t
    case Constant(bits) => Some(bits)
    case Lookup(lines) => if FromBits(field) < |lines| then Some(lines[FromBits(field)]) else None
  }

  /** The slots read from the tables, up to slot n; None if a line index leaves its table. */
  function Entries(dec: Decompressor, fetchblock: BitVector, n: nat): Option<seq<BitVector>>
    requires ValidDecompressor(dec, |fetchblock|) && n <= |dec.tables|
  {
    if n == 0 then Some([])
    else
      match Entries(dec, fetchblock, n - 1)
      case None => None
      case Some(slots) =>
        match TableEntry(dec.tables[n - 1], Field(fetchblock, dec.boundaries[n - 1]))
        case None => None
        case Some(slot) => Some(slots + [slot])
  }

  /** The instruction word: the control bits and the slots, concatenated. */
  function Expand(dec: Decompressor, fetchblock: BitVector): Option<BitVector>
    requires ValidDecompressor(dec, |fetchblock|)
  {
    match Entries(dec, fetchblock, |dec.tables|)
    case None => None
    case Some(slots) => Some(Joined(fetchblock[..dec.first], slots))
  }

  /** The first and last position of code field i, counted from one. */
  function Boundary(enc: Encoding, widths: seq<nat>, i: nat): (nat, nat)
    requires i < |widths|
  {
    (enc.first + Sum(widths[..i]) + 1, enc.first + Sum(widths[..i + 1]))
  }

  /** The decompressor belongs to these dictionaries: tables inverse to them, boundaries at the
      ends of the code fields. */
  ghost predicate Describes(enc: Encoding, ds: seq<Dictionary>, dec: Decompressor) {
    && dec.first == enc.first
    && |dec.tables| == |dec.boundaries| == |ds|
    && (forall i :: 0 <= i < |ds| ==>
          dec.boundaries[i] == Boundary(enc, CodeWidths(ds), i))
    && (forall i :: 0 <= i < |ds| ==> Tabulates(dec.tables[i], ds[i]))
  }

  ghost predicate Tabulates(t: SlotTable, d: Dictionary) {
    match t
    case Constant(bits) => |d| == 1 && bits in d && d[bits] == 0
    case Lookup(lines) =>
      && |d| > 1 && |lines| == |d|
      && forall c :: 0 <= c < |lines| ==> lines[c] in d && d[lines[c]] == c
  }

  lemma TabulatedEntry(t: SlotTable, d: Dictionary, key: BitVector, field: BitVector)
    requires Bijection(d) && Tabulates(t, d) && key in d && FromBits(field) == d[key]
    ensures TableEntry(t, field) == Some(key)
  {
  }

  lemma DescribedIsValid(enc: Encoding, ds: seq<Dictionary>, dec: Decompressor)
    requires Describes(enc, ds, dec)
    ensures ValidDecompressor(dec, CompressedWidth(enc, ds))
  {
    var w := CodeWidths(ds);
    assert w[..|w|] == w;
    forall i | 0 <= i < |ds|
      ensures 0 < dec.boundaries[i].0 <= dec.boundaries[i].1 + 1 <= CompressedWidth(enc, ds) + 1
    {
      SumOfPrefix(w, i);
      SumMono(w, i + 1, |w|);
    }
  }

  lemma FieldOfJoined(control: BitVector, fields: seq<BitVector>, boundary: (nat, nat), i: nat)
    requires i < |fields|
    requires boundary.0 == |control| + Sum(Lengths(fields)[..i]) + 1
    requires boundary.1 == |control| + Sum(Lengths(fields)[..i + 1])
    ensures 0 < boundary.0 <= boundary.1 + 1 <= |Joined(control, fields)| + 1
    ensures Field(Joined(control, fields), boundary) == fields[i]
  {
    JoinedAt(control, fields, i);
  }

  lemma FieldIsCode(enc: Encoding, ds: seq<Dictionary>, dec: Decompressor, bits: BitVector, i: nat)
    requires i < |enc.slots| == |ds| && Covered(enc) <= |bits| && Knows(enc, ds, bits)
    requires Describes(enc, ds, dec) && ValidDecompressor(dec, CompressedWidth(enc, ds))
    ensures Field(CompressedInstruction(enc, ds, bits), dec.boundaries[i]) == Codes(enc, ds, bits)[i]
  {
    OffsetMono(enc, 0, |enc.slots|);
    var codes := Codes(enc, ds, bits);
    assert dec.boundaries[i] == Boundary(enc, Lengths(codes), i);
    FieldOfJoined(bits[..enc.first], codes, dec.boundaries[i], i);
  }

  lemma CodeReadsBack(enc: Encoding, ds: seq<Dictionary>, bits: BitVector, i: nat)
    requires i < |enc.slots| == |ds| && Covered(enc) <= |bits| && Knows(enc, ds, bits) && Bijection(ds[i])
    ensures FromBits(Codes(enc, ds, bits)[i]) == ds[i][Key(enc, bits, i)]
  {
    SmallFitsBits(ds[i][Key(enc, bits, i)], CodeWidth(ds[i]));
  }

  lemma FieldHoldsCode(enc: Encoding, ds: seq<Dictionary>, dec: Decompressor, bits: BitVector, i: nat)
    requires i < |enc.slots| == |ds| && Covered(enc) <= |bits| && Knows(enc, ds, bits)
    requires Bijection(ds[i]) && Describes(enc, ds, dec) && ValidDecompressor(dec, CompressedWidth(enc, ds))
    ensures TableEntry(dec.tables[i], Field(CompressedInstruction(enc, ds, bits), dec.boundaries[i]))
            == Some(Key(enc, bits, i))
  {
    FieldIsCode(enc, ds, dec, bits, i);
    CodeReadsBack(enc, ds, bits, i);
    assert Tabulates(dec.tables[i], ds[i]);
    TabulatedEntry(dec.tables[i], ds[i], Key(enc, bits, i), Codes(enc, ds, bits)[i]);
  }

  lemma {:induction false} EntriesAreSlots(dec: Decompressor, block: BitVector, keys: seq<BitVector>, n: nat)
    requires ValidDecompressor(dec, |block|) && n <= |keys| == |dec.tables|
    requires forall i :: 0 <= i < |keys| ==> TableEntry(dec.tables[i], Field(block, dec.boundaries[i])) == Some(keys[i])
    ensures Entries(dec, block, n) == Some(keys[..n])
    decreases n
  {
    if n > 0 {
      EntriesAreSlots(dec, block, keys, n - 1);
      assert keys[..n] == keys[..n - 1] + [keys[n - 1]];
    }
  }

  lemma ExpandCompressed(enc: Encoding, ds: seq<Dictionary>, dec: Decompressor, bits: BitVector)
    requires |enc.slots| == |ds| && Covered(enc) <= |bits| && Knows(enc, ds, bits)
    requires AllBijections(ds) && Describes(enc, ds, dec) && ValidDecompressor(dec, CompressedWidth(enc, ds))
    ensures Expand(dec, CompressedInstruction(enc, ds, bits)) == Some(bits[..Covered(enc)])
  {
    forall i | 0 <= i < |ds|
      ensures TableEntry(dec.tables[i], Field(CompressedInstruction(enc, ds, bits), dec.boundaries[i]))
              == Some(Keys(enc, bits)[i])
    {
      FieldHoldsCode(enc, ds, dec, bits, i);
    }
    EntriesAreSlots(dec, CompressedInstruction(enc, ds, bits), Keys(enc, bits), |ds|);
    OffsetMono(enc, 0, |enc.slots|);
    JoinedControl(bits[..enc.first], Codes(enc, ds, bits));
    assert CompressedInstruction(enc, ds, bits)[..enc.first] == bits[..enc.first];
    SlotsArePrefix(enc, bits, |enc.slots|);
    assert Keys(enc, bits)[..|ds|] == Keys(enc, bits);
  }

  /**
   Decompression undoes compression: for every instruction of every program, the described
   decompressor applied to the compressed instruction gives back the control bits and all move
   slots, and it gives back the whole instruction exactly when those are all its bits.
   */
  lemma DecompressionUndoesCompression(enc: Encoding, programs: seq<Program>, dec: Decompressor, p: nat, k: nat)
    requires ValidEncoding(enc) && ValidPrograms(enc, programs)
    requires p < |programs| && k < |programs[p].instructions|
    requires Describes(enc, Learned(enc, programs), dec)
    ensures var ds, bits := Learned(enc, programs), programs[p].instructions[k];
            && Knows(enc, ds, bits)
            && ValidDecompressor(dec, CompressedWidth(enc, ds))
            && Expand(dec, CompressedInstruction(enc, ds, bits)) == Some(bits[..Covered(enc)])
            && (Expand(dec, CompressedInstruction(enc, ds, bits)) == Some(bits)
                <==> Covered(enc) == enc.width)
  {
    var ds, bits := Learned(enc, programs), programs[p].instructions[k];
    LookupNeverFails(enc, programs);
    assert KnowsAll(enc, ds, programs[p].instructions);
    DescribedIsValid(enc, ds, dec);
    ExpandCompressed(enc, ds, dec, bits);
    assert |bits[..Covered(enc)]| == Covered(enc);
    assert bits[..|bits|] == bits;
  }

  lemma SamePrefixSameKeys(enc: Encoding, x: BitVector, y: BitVector)
    requires Covered(enc) <= |x| && Covered(enc) <= |y| && x[..Covered(enc)] == y[..Covered(enc)]
    ensures forall i :: 0 <= i < |enc.slots| ==> Key(enc, x, i) == Key(enc, y, i)
    ensures 0 <= enc.first <= Covered(enc) && x[..enc.first] == y[..enc.first]
  {
    var c := Covered(enc);
    OffsetMono(enc, 0, |enc.slots|);
    assert x[..enc.first] == x[..c][..enc.first] && y[..enc.first] == y[..c][..enc.first];
    forall i | 0 <= i < |enc.slots|
      ensures Key(enc, x, i) == Key(enc, y, i)
    {
      SamePrefixSameKey(enc, x, y, i);
    }
  }

  lemma SamePrefixSameKey(enc: Encoding, x: BitVector, y: BitVector, i: nat)
    requires Covered(enc) <= |x| && Covered(enc) <= |y| && x[..Covered(enc)] == y[..Covered(enc)] && i < |enc.slots|
    ensures Key(enc, x, i) == Key(enc, y, i)
  {
    var c := Covered(enc);
    OffsetStep(enc, i);
    OffsetMono(enc, i + 1, |enc.slots|);
    assert Key(enc, x, i) == x[..c][Offset(enc, i)..Offset(enc, i + 1)];
    assert Key(enc, y, i) == y[..c][Offset(enc, i)..Offset(enc, i + 1)];
  }

  /** Instructions with the same control bits and move slots get the same word, whatever else they hold. */
  lemma SamePrefixSameWord(enc: Encoding, ds: seq<Dictionary>, x: BitVector, y: BitVector)
    requires |enc.slots| == |ds| && Covered(enc) <= |x| && Covered(enc) <= |y| && Knows(enc, ds, x)
    requires x[..Covered(enc)] == y[..Covered(enc)]
    ensures Knows(enc, ds, y) && CompressedInstruction(enc, ds, x) == CompressedInstruction(enc, ds, y)
  {
    SamePrefixSameKeys(enc, x, y);
    assert Codes(enc, ds, x) == Codes(enc, ds, y);
  }

  /** Two known instructions are compressed to one word exactly if they agree on what the compressor reads. */
  lemma SameWordIff(enc: Encoding, ds: seq<Dictionary>, dec: Decompressor, x: BitVector, y: BitVector)
    requires |enc.slots| == |ds| && Covered(enc) <= |x| && Covered(enc) <= |y| && Knows(enc, ds, x) && Knows(enc, ds, y)
    requires AllBijections(ds) && Describes(enc, ds, dec) && ValidDecompressor(dec, CompressedWidth(enc, ds))
    ensures CompressedInstruction(enc, ds, x) == CompressedInstruction(enc, ds, y) <==> x[..Covered(enc)] == y[..Covered(enc)]
  {
    ExpandCompressed(enc, ds, dec, x);
    ExpandCompressed(enc, ds, dec, y);
    if x[..Covered(enc)] == y[..Covered(enc)] {
      SamePrefixSameWord(enc, ds, x, y);
    }
  }

  lemma OneSlotCovered()
    ensures Covered(Encoding(0, [1], 2)) == 1
  {
    var enc := Encoding(0, [1], 2);
    OffsetStep(enc, 0);
    assert Offset(enc, 0) == 0;
  }

  /** The first two instructions of a program, known and with the same covered bits, get one word. */
  lemma FirstTwoAreOne(enc: Encoding, programs: seq<Program>, x: BitVector, y: BitVector)
    requires Covered(enc) <= enc.width && ValidPrograms(enc, programs) && |programs| == 1 && programs[0].instructions == [x, y]
    requires Covered(enc) <= |x| && Covered(enc) <= |y| && x[..Covered(enc)] == y[..Covered(enc)]
    ensures var ds := Learned(enc, programs);
            && |ds| == |enc.slots| && Knows(enc, ds, x) && Knows(enc, ds, y)
            && CompressedInstruction(enc, ds, x) == CompressedInstruction(enc, ds, y)
  {
    LookupNeverFails(enc, programs);
    assert KnowsAll(enc, Learned(enc, programs), programs[0].instructions);
    assert programs[0].instructions[0] == x;
    SamePrefixSameWord(enc, Learned(enc, programs), x, y);
  }

  /** Two bits, of which one is a move slot and the other a dedicated immediate slot: the second is lost. */
  lemma ImmediateSlotIsLost()
    ensures var enc, x, y := Encoding(0, [1], 2), [false, false], [false, true];
            var programs := [Program("p", [x, y])];
            && Covered(enc) <= enc.width && ValidPrograms(enc, programs)
            && var ds := Learned(enc, programs);
               && |ds| == |enc.slots| && Covered(enc) <= |x| && Covered(enc) <= |y| && Knows(enc, ds, x) && Knows(enc, ds, y)
               && CompressedInstruction(enc, ds, x) == CompressedInstruction(enc, ds, y)
  {
    OneSlotCovered();
    var x, y := [false, false], [false, true];
    assert x[..1] == y[..1];
    FirstTwoAreOne(Encoding(0, [1], 2), [Program("p", [x, y])], x, y);
  }

  // ---------------------------------------------------------------------------------------
  // The program image
  // ---------------------------------------------------------------------------------------

  lemma WordsInOrder(k: nat, n: nat, w: nat)
    requires k < n
    ensures 0 <= k * w <= k * w + w <= n * w && (k + 1) * w == k * w + w
  {
    MultipleGap(w, k, n);
  }

  lemma {:induction false} ConcatLength(words: seq<BitVector>, w: nat)
    requires forall k :: 0 <= k < |words| ==> |words[k]| == w
    ensures |Concat(words)| == |words| * w
  {
    if words != [] {
      ConcatLength(words[..|words| - 1], w);
      WordsInOrder(|words| - 1, |words|, w);
    }
  }

  /** Word k of a concatenation of words of one width. */
  lemma {:induction false} ConcatWord(words: seq<BitVector>, w: nat, k: nat)
    requires k < |words| && forall k :: 0 <= k < |words| ==> |words[k]| == w
    ensures 0 <= k * w <= k * w + w <= |Concat(words)|
    ensures Concat(words)[k * w..k * w + w] == words[k]
    decreases |words|
  {
    var n := |words| - 1;
    ConcatLength(words, w);
    ConcatLength(words[..n], w);
    WordsInOrder(k, n + 1, w);
    SliceOfConcat(Concat(words[..n]), words[n], k * w, k * w + w);
    if k < n {
      ConcatWord(words[..n], w, k);
    }
  }

  lemma KnowsProgram(enc: Encoding, programs: seq<Program>, p: nat)
    requires ValidEncoding(enc) && ValidPrograms(enc, programs) && p < |programs|
    ensures KnowsAll(enc, Learned(enc, programs), programs[p].instructions)
  {
    LookupNeverFails(enc, programs);
  }

  lemma ImageWord(enc: Encoding, ds: seq<Dictionary>, instructions: seq<BitVector>, k: nat)
    requires KnowsAll(enc, ds, instructions) && k < |instructions|
    ensures var w, image := CompressedWidth(enc, ds), Image(enc, ds, instructions);
            && 0 <= k * w <= k * w + w <= |image|
            && image[k * w..k * w + w] == CompressedInstruction(enc, ds, instructions[k])
  {
    ConcatWord(CompressedWords(enc, ds, instructions), CompressedWidth(enc, ds), k);
  }

  /**
   The image is a faithful memory: fetching word k of the image of any program and expanding
   it gives the control bits and move slots of instruction k.
   */
  lemma FetchedWordExpands(enc: Encoding, programs: seq<Program>, dec: Decompressor, p: nat, k: nat)
    requires ValidEncoding(enc) && ValidPrograms(enc, programs)
    requires p < |programs| && k < |programs[p].instructions|
    requires Describes(enc, Learned(enc, programs), dec)
    ensures var ds, instructions := Learned(enc, programs), programs[p].instructions;
            && KnowsAll(enc, ds, instructions)
            && var w, image := CompressedWidth(enc, ds), Image(enc, ds, instructions);
            && 0 <= k * w <= k * w + w <= |image|
            && ValidDecompressor(dec, w)
            && Expand(dec, image[k * w..k * w + w]) == Some(instructions[k][..Covered(enc)])
  {
    var ds, instructions := Learned(enc, programs), programs[p].instructions;
    KnowsProgram(enc, programs, p);
    ImageWord(enc, ds, instructions, k);
    DecompressionUndoesCompression(enc, programs, dec, p, k);
  }
}
