/**
 The compressor plugin as the original runs it: dictionaries that grow in place, flags, and loops
 that move the ends of a slot along an instruction.
 */
module MoveSlotCompressor {
  import opened Wrappers
  import opened BitVectors
  import opened Sums
  import opened MoveSlotDictionary

  lemma NextUnit(position: nat, mau: nat)
    requires mau > 0
    ensures position % mau > 0 ==> (position + (mau - position % mau)) % mau == 0
  {
    var q, r := position / mau, position % mau;
    assert position == mau * q + r;
    if r > 0 {
      assert position + (mau - r) == mau * (q + 1) + 0;
      RemainderIsUnique(position + (mau - r), mau, q + 1, 0);
    }
  }

  /** Zero bits added before an instruction so that it starts at a memory unit. */
  function Padding(position: nat, mau: nat): (bits: nat)
    requires mau > 0
    ensures bits < mau && (position + bits) % mau == 0
  {
    NextUnit(position, mau);
    if position % mau == 0 then 0 else mau - position % mau
  }

  /** The memory unit at which the next instruction starts. */
  function Cell(position: nat, mau: nat): (unit: int)
    requires mau > 0
    ensures unit * mau == position + Padding(position, mau)
  {
    (position + Padding(position, mau)) / mau
  }

  function Zeros(n: nat): (bits: BitVector)
    ensures |bits| == n && true !in bits
  {
    seq(n, _ => false)
  }

  /** BitVector(vector, first, last): refused when the range is empty or ends past the vector. */
  method SubVector(vector: BitVector, first: nat, last: int) returns (r: Result<BitVector, Error>)
    ensures r == if last < first || last >= |vector| then Err(OutOfRange) else Ok(vector[first..last + 1])
  {
    if last < first || last >= |vector| {
      return Err(OutOfRange);
    }
    r := Ok(vector[first..last + 1]);
  }

  class Compressor {
    const enc: Encoding
    const programs: seq<Program>
    const start: nat

    var dictionary: seq<Dictionary>
    var dictionaryCreated: bool
    var compressedWidth: nat
    var mau: nat
    var programBits: BitVector
    var addresses: seq<nat>

    /** Slots of width zero cannot be cut out of an instruction. */
    ghost predicate Readable() {
      PositiveSlots(enc) || forall p :: 0 <= p < |programs| ==> programs[p].instructions == []
    }

    ghost predicate Valid()
      reads this
    {
      && ValidEncoding(enc) && ValidPrograms(enc, programs) && mau > 0
      && (dictionaryCreated ==>
            && Readable()
            && dictionary == Learned(enc, programs)
            && compressedWidth == mau == CompressedWidth(enc, dictionary))
      && (!dictionaryCreated ==> dictionary == [] || !Readable())
    }

    constructor (enc: Encoding, programs: seq<Program>, start: nat)
      requires ValidEncoding(enc) && ValidPrograms(enc, programs) && enc.width > 0
      ensures Valid() && !dictionaryCreated
      ensures this.enc == enc && this.programs == programs && this.start == start
    {
      this.enc, this.programs, this.start := enc, programs, start;
      dictionary, dictionaryCreated, compressedWidth := [], false, 0;
      mau, programBits, addresses := enc.width, [], [];
    }

    method AddToDictionary(key: BitVector, slotIndex: nat)
      requires slotIndex < |dictionary|
      modifies this`dictionary
      ensures dictionary == old(dictionary)[slotIndex := Insert(old(dictionary)[slotIndex], key)]
    {
      if key !in dictionary[slotIndex] {
        var code := |dictionary[slotIndex]|;
        dictionary := dictionary[slotIndex := dictionary[slotIndex][key := code]];
      }
    }

    method LearnInstruction(bits: BitVector) returns (error: Option<Error>)
      requires Covered(enc) <= |bits| && |enc.slots| <= |dictionary|
      modifies this`dictionary
      ensures error == if PositiveSlots(enc) then None else Some(OutOfRange)
      ensures error == None ==> dictionary == LearnSlots(enc, old(dictionary), bits, |enc.slots|)
      ensures |dictionary| == old(|dictionary|)
    {
      var begin := enc.first;
      var i := 0;
      while i < |enc.slots|
        invariant i <= |enc.slots| && begin == Offset(enc, i)
        invariant forall j :: 0 <= j < i ==> enc.slots[j] > 0
        invariant dictionary == LearnSlots(enc, old(dictionary), bits, i)
      {
        OffsetStep(enc, i);
        OffsetMono(enc, i + 1, |enc.slots|);
        var end: int := begin + enc.slots[i] - 1;
        var moveSlot := SubVector(bits, begin, end);
        if moveSlot.Err? {
          assert enc.slots[i] == 0;
          return Some(moveSlot.error);
        }
        AddToDictionary(moveSlot.value, i);
        begin := end + 1;
        i := i + 1;
      }
      error := None;
    }

    method UpdateDictionary(program: Program) returns (error: Option<Error>)
      requires forall k :: 0 <= k < |program.instructions| ==> Covered(enc) <= |program.instructions[k]|
      requires |enc.slots| <= |dictionary|
      modifies this`dictionary
      ensures error == if PositiveSlots(enc) || program.instructions == [] then None else Some(OutOfRange)
      ensures error == None ==>
                dictionary == LearnProgram(enc, old(dictionary), program.instructions, |program.instructions|)
      ensures |dictionary| == old(|dictionary|)
    {
      var k := 0;
      while k < |program.instructions|
        invariant k <= |program.instructions|
        invariant k > 0 ==> PositiveSlots(enc)
        invariant dictionary == LearnProgram(enc, old(dictionary), program.instructions, k)
      {
        error := LearnInstruction(program.instructions[k]);
        if error != None {
          return;
        }
        k := k + 1;
      }
      error := None;
    }

    method CreateDictionary() returns (error: Option<Error>)
      requires Valid() && !dictionaryCreated
      modifies this`dictionary, this`dictionaryCreated
      ensures error == if Readable() then None else Some(OutOfRange)
      ensures error == None ==> dictionaryCreated && dictionary == Learned(enc, programs)
      ensures error != None ==> !dictionaryCreated
    {
      ghost var before := dictionary;
      var i := 0;
      while i < |enc.slots|
        invariant i <= |enc.slots| && dictionary == before + NoEntries(i) && !dictionaryCreated
      {
        dictionary := dictionary + [map[]];
        assert NoEntries(i + 1) == NoEntries(i) + [map[]];
        i := i + 1;
      }
      ghost var empty := dictionary;
      assert before == [] ==> empty == NoEntries(|enc.slots|);
      var p := 0;
      while p < |programs|
        invariant p <= |programs|
        invariant PositiveSlots(enc) || forall q :: 0 <= q < p ==> programs[q].instructions == []
        invariant !dictionaryCreated
        invariant |dictionary| == |empty| && dictionary == LearnAll(enc, empty, programs, p)
      {
        error := UpdateDictionary(programs[p]);
        if error != None {
          return;
        }
        p := p + 1;
      }
      dictionaryCreated := true;
      error := None;
    }

    /** Places one instruction at the next memory unit and records its address. */
    method AddInstruction(bits: BitVector)
      requires mau > 0
      modifies this`programBits, this`addresses
      ensures programBits == old(programBits) + Zeros(Padding(|old(programBits)|, mau)) + bits
      ensures addresses == old(addresses) + [start + Cell(|old(programBits)|, mau)]
    {
      var firstFree := |programBits|;
      var position := if firstFree % mau == 0 then firstFree else firstFree + mau - firstFree % mau;
      var i := firstFree;
      while i < position
        invariant firstFree <= i <= position
        invariant programBits == old(programBits) + Zeros(i - firstFree)
        invariant addresses == old(addresses)
      {
        programBits := programBits + [false];
        i := i + 1;
      }
      programBits := programBits + bits;
      addresses := addresses + [start + position / mau];
    }

    /** Cuts slot i out of the instruction and appends its code. */
    method AppendCode(compressed: BitVector, bits: BitVector, begin: nat, i: nat)
      returns (r: Result<BitVector, Error>, end: int)
      requires Covered(enc) <= |bits| && i < |enc.slots| == |dictionary| && enc.slots[i] > 0
      requires begin == Offset(enc, i)
      ensures r == if Key(enc, bits, i) in dictionary[i]
                   then Ok(compressed + ToBits(dictionary[i][Key(enc, bits, i)], CodeWidth(dictionary[i])))
                   else Err(KeyNotFound)
      ensures end + 1 == Offset(enc, i + 1)
    {
      OffsetStep(enc, i);
      OffsetMono(enc, i + 1, |enc.slots|);
      end := begin + enc.slots[i] - 1;
      var moveSlot := SubVector(bits, begin, end);
      if moveSlot.value !in dictionary[i] {
        return Err(KeyNotFound), end;
      }
      var width := CountRequiredBits(|dictionary[i]|);
      var longer := PushBack(compressed, dictionary[i][moveSlot.value], width);
      r := Ok(longer);
    }

    method CompressInstruction(bits: BitVector) returns (r: Result<BitVector, Error>)
      requires Covered(enc) <= |bits| && |enc.slots| == |dictionary| && PositiveSlots(enc)
      ensures r == if Knows(enc, dictionary, bits) then Ok(CompressedInstruction(enc, dictionary, bits))
                   else Err(KeyNotFound)
    {
      OffsetMono(enc, 0, |enc.slots|);
      var compressed := CopyControl(bits);
      ghost var codes := [];
      var begin := enc.first;
      var i := 0;
      while i < |enc.slots|
        invariant i <= |enc.slots| && begin == Offset(enc, i) && compressed == Joined(bits[..enc.first], codes)
        invariant SlotsCoded(enc, dictionary, bits, i, codes)
      {
        var appended, end := AppendCode(compressed, bits, begin, i);
        if appended.Err? {
          return Err(appended.error);
        }
        ghost var code := ToBits(dictionary[i][Key(enc, bits, i)], CodeWidth(dictionary[i]));
        JoinOneMore(bits[..enc.first], codes, code);
        OneMoreCoded(enc, dictionary, bits, i, codes);
        codes := codes + [code];
        compressed := appended.value;
        begin := end + 1;
        i := i + 1;
      }
      AllCoded(enc, dictionary, bits, codes);
      r := Ok(compressed);
    }

    /** The first n slots have codes, and these are they. */
    ghost predicate SlotsCoded(enc: Encoding, ds: seq<Dictionary>, bits: BitVector, n: nat, codes: seq<BitVector>) {
      && n <= |enc.slots| == |ds| && Covered(enc) <= |bits| && |codes| == n
      && forall j :: 0 <= j < n ==>
                       && Key(enc, bits, j) in ds[j]
                       && codes[j] == ToBits(ds[j][Key(enc, bits, j)], CodeWidth(ds[j]))
    }

    lemma OneMoreCoded(enc: Encoding, ds: seq<Dictionary>, bits: BitVector, n: nat, codes: seq<BitVector>)
      requires n < |enc.slots| && SlotsCoded(enc, ds, bits, n, codes) && Key(enc, bits, n) in ds[n]
      ensures SlotsCoded(enc, ds, bits, n + 1, codes + [ToBits(ds[n][Key(enc, bits, n)], CodeWidth(ds[n]))])
    {
    }

    lemma AllCoded(enc: Encoding, ds: seq<Dictionary>, bits: BitVector, codes: seq<BitVector>)
      requires SlotsCoded(enc, ds, bits, |enc.slots|, codes)
      ensures Knows(enc, ds, bits) && CompressedInstruction(enc, ds, bits) == Joined(bits[..enc.first], codes)
    {
      assert codes == Codes(enc, ds, bits);
    }

    method CopyControl(bits: BitVector) returns (compressed: BitVector)
      requires enc.first <= |bits|
      ensures compressed == bits[..enc.first]
    {
      compressed := [];
      var i := 0;
      while i < enc.first
        invariant i <= enc.first && compressed == bits[..i]
      {
        compressed := compressed + [bits[i]];
        i := i + 1;
      }
    }

    lemma JoinOneMore(control: BitVector, fields: seq<BitVector>, field: BitVector)
      ensures Joined(control, fields + [field]) == Joined(control, fields) + field
    {
      var longer := fields + [field];
      assert longer[..|longer| - 1] == fields;
    }

    /** The words of a program, one per memory unit, at consecutive addresses.  Every slot has a
        code, so the lookup in CompressInstruction does not fail here. */
    method AddInstructions(program: Program)
      requires Valid() && dictionaryCreated && program in programs
      requires programBits == [] && addresses == []
      modifies this`programBits, this`addresses
      ensures Valid()
      ensures KnowsAll(enc, dictionary, program.instructions)
      ensures programBits == Image(enc, dictionary, program.instructions)
      ensures |addresses| == |program.instructions|
      ensures forall k :: 0 <= k < |addresses| ==> addresses[k] == start + k
    {
      ghost var words := WordsOf(program);
      CompressAll(program.instructions);
    }

    /** The loop over the instructions: each is compressed and placed. */
    method CompressAll(instructions: seq<BitVector>)
      requires programBits == [] && addresses == [] && |enc.slots| == |dictionary|
      requires KnowsAll(enc, dictionary, instructions) && mau > 0 && mau == CompressedWidth(enc, dictionary)
      requires instructions != [] ==> PositiveSlots(enc)
      modifies this`programBits, this`addresses
      ensures programBits == Image(enc, dictionary, instructions)
      ensures |addresses| == |instructions| && forall k :: 0 <= k < |addresses| ==> addresses[k] == start + k
    {
      ghost var words := CompressedWords(enc, dictionary, instructions);
      var k := 0;
      while k < |instructions|
        invariant k <= |instructions| && programBits == Concat(words[..k]) && |addresses| == k
        invariant forall j :: 0 <= j < k ==> addresses[j] == start + j
      {
        var compressed := CompressInstruction(instructions[k]);
        ConcatBoundary(words, k, mau);
        ConcatOneMore(words, k);
        StoreWord(compressed.value, k);
        k := k + 1;
      }
      assert words[..|words|] == words;
    }

    /** An instruction that starts a memory unit, with its address. */
    method StoreWord(word: BitVector, ghost k: nat)
      requires mau > 0 && Padding(|programBits|, mau) == 0 && Cell(|programBits|, mau) == k
      modifies this`programBits, this`addresses
      ensures programBits == old(programBits) + Zeros(0) + word
      ensures addresses == old(addresses) + [start + k]
    {
      AddInstruction(word);
    }

    lemma ConcatBoundary(words: seq<BitVector>, k: nat, w: nat)
      requires k <= |words| && w > 0 && forall j :: 0 <= j < |words| ==> |words[j]| == w
      ensures var size := |Concat(words[..k])|; Padding(size, w) == 0 && Cell(size, w) == k
    {
      ConcatLength(words[..k], w);
      AtWordBoundary(k, w);
    }

    lemma ConcatOneMore(words: seq<BitVector>, k: nat)
      requires k < |words|
      ensures Concat(words[..k + 1]) == Concat(words[..k]) + Zeros(0) + words[k]
    {
      assert words[..k + 1][..k] == words[..k];
    }

    /** The compressed words of one of the programs; all its slots have codes. */
    lemma WordsOf(program: Program) returns (words: seq<BitVector>)
      requires Valid() && dictionaryCreated && program in programs
      ensures KnowsAll(enc, dictionary, program.instructions)
      ensures words == CompressedWords(enc, dictionary, program.instructions)
      ensures program.instructions != [] ==> PositiveSlots(enc)
    {
      LookupNeverFails(enc, programs);
      var p :| 0 <= p < |programs| && programs[p] == program;
      assert KnowsAll(enc, dictionary, programs[p].instructions);
      words := CompressedWords(enc, dictionary, program.instructions);
    }

    lemma AtWordBoundary(k: nat, w: nat)
      requires w > 0
      ensures k * w % w == 0 && k * w / w == k
      ensures Padding(k * w, w) == 0
    {
      RemainderIsUnique(k * w, w, k, 0);
    }

    /** Position of the program of this name; programs are kept in a map, so the first is the only one. */
    function IndexOf(name: string, from: nat): (p: Option<nat>)
      requires from <= |programs|
      ensures p.Some? ==> from <= p.value < |programs| && programs[p.value].name == name
      ensures p == None ==> forall q :: from <= q < |programs| ==> programs[q].name != name
      decreases |programs| - from
    {
      if from == |programs| then None
      else if programs[from].name == name then Some(from)
      else IndexOf(name, from + 1)
    }

    /**
     compress: the first call builds the dictionaries from all programs and fixes the memory
     width; every call then returns the image of the named program, whatever was compressed
     before.
     */
    method Compress(name: string) returns (r: Result<BitVector, Error>)
      requires Valid()
      modifies this
      ensures Valid()
      ensures r.Ok? <==> Readable() && IndexOf(name, 0).Some?
      ensures r.Err? ==> r.error == if Readable() then InvalidData else OutOfRange
      ensures dictionaryCreated <==> Readable()
      ensures r.Ok? ==>
                var instructions := programs[IndexOf(name, 0).value].instructions;
                && KnowsAll(enc, Learned(enc, programs), instructions)
                && r.value == Image(enc, Learned(enc, programs), instructions)
                && |addresses| == |instructions|
                && forall k :: 0 <= k < |addresses| ==> addresses[k] == start + k
    {
      if !dictionaryCreated {
        var error := CreateDictionary();
        if error != None {
          return Err(error.value);
        }
        var imemWidth := 0;
        var i := 0;
        while i < |dictionary|
          invariant i <= |dictionary| && imemWidth == Sum(CodeWidths(dictionary)[..i])
          invariant dictionaryCreated && dictionary == Learned(enc, programs)
        {
          SumOfPrefix(CodeWidths(dictionary), i);
          var bits := CountRequiredBits(|dictionary[i]|);
          imemWidth := imemWidth + bits;
          i := i + 1;
        }
        assert CodeWidths(dictionary)[..|dictionary|] == CodeWidths(dictionary);
        imemWidth := imemWidth + enc.first;
        compressedWidth := imemWidth;
        mau := imemWidth;
        WidthIsPositive();
      }
      var p := IndexOf(name, 0);
      if p == None {
        return Err(InvalidData);
      }
      programBits, addresses := [], [];
      AddInstructions(programs[p.value]);
      ImagePadding(p.value);
      r := Ok(programBits + Zeros(Padding(|programBits|, mau)));
      assert Zeros(0) == [];
    }

    lemma WidthIsPositive()
      requires ValidEncoding(enc) && |dictionary| == |enc.slots|
      ensures CompressedWidth(enc, dictionary) > 0
    {
      if |dictionary| > 0 {
        var w := CodeWidths(dictionary);
        assert w[|w| - 1] > 0;
      }
    }

    /** The image ends at a memory unit, so no bits are added at the end. */
    lemma ImagePadding(p: nat)
      requires Valid() && dictionaryCreated && p < |programs|
      requires KnowsAll(enc, dictionary, programs[p].instructions)
      ensures Padding(|Image(enc, dictionary, programs[p].instructions)|, mau) == 0
    {
      var words := CompressedWords(enc, dictionary, programs[p].instructions);
      ConcatLength(words, mau);
      AtWordBoundary(|words|, mau);
    }

    // -------------------------------------------------------------------------------------
    // The generated decompressor
    // -------------------------------------------------------------------------------------

    /** The table of one slot: key for value 0, 1, ...; fails on a dictionary without entries. */
    method DictionaryTable(d: Dictionary) returns (r: Result<SlotTable, Error>)
      requires Bijection(d)
      ensures r.Ok? <==> |d| > 0
      ensures r.Ok? ==> Tabulates(r.value, d)
      ensures r.Err? ==> r.error == KeyNotFound
    {
      if |d| > 1 {
        var lines := [];
        var j := 0;
        while j < |d|
          invariant j <= |d| && |lines| == j
          invariant forall c :: 0 <= c < j ==> lines[c] in d && d[lines[c]] == c
        {
          assert HasCode(d, j);
          var key :| key in d && d[key] == j;
          lines := lines + [key];
          j := j + 1;
        }
        r := Ok(Lookup(lines));
      } else if |d| == 0 {
        r := Err(KeyNotFound);
      } else {
        assert HasCode(d, 0);
        var key :| key in d && d[key] == 0;
        r := Ok(Constant(key));
      }
    }

    method EvaluateMoveSlotBoundaries() returns (boundaries: seq<(nat, nat)>)
      requires |dictionary| == |enc.slots|
      ensures |boundaries| == |enc.slots|
      ensures forall i :: 0 <= i < |boundaries| ==> boundaries[i] == Boundary(enc, CodeWidths(dictionary), i)
    {
      boundaries := [];
      var i := 0;
      while i < |enc.slots|
        invariant i <= |enc.slots| && |boundaries| == i
        invariant forall j :: 0 <= j < i ==> boundaries[j] == Boundary(enc, CodeWidths(dictionary), j)
      {
        var temp := if |boundaries| == 0 then enc.first else boundaries[|boundaries| - 1].1;
        var width := CountRequiredBits(|dictionary[i]|);
        SumOfPrefix(CodeWidths(dictionary), i);
        boundaries := boundaries + [(temp + 1, temp + width)];
        i := i + 1;
      }
    }

    /** generateDecompressor, called after compress; it fails when no program has an instruction. */
    method GenerateDecompressor() returns (r: Result<Decompressor, Error>)
      requires Valid() && dictionaryCreated
      ensures r.Ok? <==> forall i :: 0 <= i < |dictionary| ==> |dictionary[i]| > 0
      ensures r.Ok? ==> Describes(enc, Learned(enc, programs), r.value)
      ensures r.Err? ==> r.error == KeyNotFound
    {
      LookupNeverFails(enc, programs);
      var tables := [];
      var i := 0;
      while i < |enc.slots|
        invariant i <= |enc.slots| && |tables| == i
        invariant forall j :: 0 <= j < i ==> |dictionary[j]| > 0 && Tabulates(tables[j], dictionary[j])
      {
        var table := DictionaryTable(dictionary[i]);
        if table.Err? {
          return Err(table.error);
        }
        tables := tables + [table.value];
        i := i + 1;
      }
      var boundaries := EvaluateMoveSlotBoundaries();
      r := Ok(Decompressor(enc.first, boundaries, tables));
    }
  }
}
