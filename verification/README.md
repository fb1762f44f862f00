# TCE in Dafny

A model of parts of the TTA-based codesign environment, with proofs about what they compute.

- **Half-precision floats** (`HalfFloat`, `HalfArithmetic`, `HalfSum`, `HalfQuotient`): conversion from binary32 with round to nearest even, conversion back, and arithmetic through binary32. Magnitudes are exact natural numbers in units of 2^-149.
- **Move-slot dictionary compressor** (`MoveSlotDictionary`, `MoveSlotCompressor`, `BitVectors`): dictionaries, compressed instructions, program images, and the decompressor that the generated hardware describes.
- **Instruction decoder** (`DecoderRules`, `DecoderSources`, `DecoderDestinations`, `DecoderImmediates`, `DecoderProcess`, `DecoderResets`, `DecoderRuns`, `DecoderMeaning`, `DecoderEffects`): the generated rules as a small hardware language with a meaning, and the clocked processes as a step function for any machine and encoding.
- **ARM monitor calls** (`FileTable`, `FileTableInvariant`, `FilePositions`, `FileReplies`, `MonitorCalls`): the table of open files over a host that is an oracle.
- **Clustered machines** (`ClusterNames`, `ClusterRing`, `ClusterTopology`, `ClusterMeaning`, `ClusterBuilder`): the ring of register files and its construction in place.
- **Vector load/store units** (`VectorGenerator`, `VectorWiring`, `VectorLanes`, `VectorRounds`, `VectorBuilder`): generating a unit and wiring it to the lanes.
- **GDB stub** (`GdbPackets`, `GdbMemory`, `GdbStub`, `GdbReplies`): frames, hex coding, the memory commands and the event loop.
- **Object state trees** (`ObjectTree`, `ObjectNodes`, `DomMeaning`): comparison, and the mapping to DOM trees and back.
- **Growth loop** (`GrowMachine`) and **relative directories** (`RelativePath`).

Each component has a part on values, where its properties are proved, and where the original changes state, a class or methods with loops that are proved to compute those values.

`dafny verify dfyconfig.toml` checks the project.

## What the proofs found

- The compressor copies control bits and move slots only. With dedicated immediate slot fields in the instruction the rest is lost; the round trip holds exactly if the two cover the instruction width.
- The monitor's exclusive create loses a host handle exactly if the file existence test opened the file, failed to read its length, and the host then refused to close it. The overflow error of a seek can never be reported, as its test looks at the sum (`FilePositions.OverflowNeverReported`).
- A soft reset from the debugger during a lock is the only thing that changes a locked decoder.
- The direct opcode slice differs from the comparison chain on fields that carry no code of the unit.
- `getpacket` accepts any checksum. It returns a full buffer without end mark if the characters of an overlong packet add up to 255 modulo 256.
- A memory write that ends at address 0 is answered by an error although all bytes are written.
- `operator!=` is reflexive exactly on trees whose attributes of one name have one value, and symmetric exactly on those with unique names and those that equal nothing; it is always transitive. `setAttribute`, copies and `createState` keep names unique; repeated names arise only by writing through the pointer of `attribute(int)`.
- The growth loop ends by `std::out_of_range`, which its handler for `Exception` does not take, exactly if an evaluation succeeds without cycle counts.
- `relativeDir` is documented to refuse relative directories; it refuses only directories without a common first component (`RelativePath.FailsIff`).

## Model

| member | source | states |
|---|---|---|
| `HalfFloat.ConversionRoundsToNearestEven` | tce/src/tools/HalfFloatWord.cc:55-90 | For every finite float: the conversion gives the nearest half, ties to even, exactly if the exponent field is at least 113 or the magnitude is at most 2^-25 (IEEE 754-2008, section 4.3.1), carry into the exponent and overflow to infinity included |
| `HalfFloat.ConversionIsMonotone` | tce/src/tools/HalfFloatWord.cc:55-90 | The order of any two finite floats is kept by the conversion |
| `HalfFloat.NearestAboveUnderflow` | tce/src/tools/HalfFloatWord.cc:72-89 | Above the flushing threshold the result is at least as near as every other half, and even on a tie |
| `HalfFloat.NearestWhenFlushed` | tce/src/tools/HalfFloatWord.cc:66-70 | A flushed value is correctly rounded exactly if its magnitude is at most 2^-25 |
| `HalfFloat.ConvertFloatToHalfWordRep` | tce/src/tools/HalfFloatWord.cc:55-90 | The step-by-step bit operations on `binary16` and `expon` compute the function the rounding theorems are about |
| `HalfArithmetic.OperatorFloat` | tce/src/tools/HalfFloatWord.cc:113-137 | The steps on `value` give sign, magnitude or NaN of the half; subnormal halves are scaled by 2^-15 as the code does |
| `HalfArithmetic.HalfIsExactFloat` | tce/src/tools/HalfFloatWord.cc:113-137 | The value of every half is a binary32 number: the conversion to float loses nothing |
| `HalfArithmetic.RoundTrip` | tce/src/tools/HalfFloatWord.cc:55-137 | Half to float and back is the identity exactly on zeros, normal numbers and the one NaN pattern the conversion produces |
| `HalfArithmetic.ProductIsExact` | tce/src/tools/HalfFloatWord.cc:151-153 | The product of any two finite halves is a binary32 number |
| `HalfArithmetic.MultiplicationRoundsOnce` | tce/src/tools/HalfFloatWord.cc:151-153 | The product of two normal halves is the exact product rounded once to nearest even exactly if it reaches 2^-14 or is at most 2^-25 (IEEE 754-2008, section 5.4.1) |
| `HalfSum.AdditionRoundsOnce` | tce/src/tools/HalfFloatWord.cc:143-145 | For normal halves and zeros the two roundings of a sum give the half nearest to the exact sum exactly if the sum reaches the half normal range or is zero |
| `HalfSum.SubtractionRoundsOnce` | tce/src/tools/HalfFloatWord.cc:147-149 | The same for differences |
| `HalfQuotient.DivisionRoundsOnce` | tce/src/tools/HalfFloatWord.cc:155-157 | For a normal half or a zero divided by a normal half the two roundings of the quotient give the half nearest to the exact quotient exactly if the quotient reaches 2^-14 or is at most 2^-25 |
| `HalfQuotient.RoundingKeepsSide` | tce/src/tools/HalfFloatWord.cc:155-157 | Rounding such a quotient to binary32 never moves it onto or across a half or the middle of two halves |
| `BitVectors.FromToBits` | tce/src/applibs/PIG/BitVector.cc:99-110 | Reading back the pushed digits gives the number modulo 2 to the width |
| `BitVectors.PushBack` | tce/src/applibs/PIG/BitVector.cc:99-110 | The loop appends the digits of the integer, most significant first |
| `BitVectors.RequiredBits` | tce/src/tools/MathTools.icc:50-61 | The result is the least positive number of binary digits that can hold n |
| `BitVectors.CountRequiredBits` | tce/src/tools/MathTools.icc:50-61 | The shifting loop counts exactly those digits |
| `MoveSlotDictionary.LookupNeverFails` | tce/compressors/MoveSlotDictionary.cc:164-216 | For every set of programs each dictionary is a bijection onto 0..size-1, and every slot of every instruction has a code |
| `MoveSlotDictionary.LearnSlotsAt` | tce/compressors/MoveSlotDictionary.cc:184-216 | Each slot of an instruction goes to its own dictionary and to no other |
| `MoveSlotDictionary.InsertKeepsBijection` | tce/compressors/MoveSlotDictionary.cc:209-216 | An insertion keeps a dictionary a bijection onto 0..size-1 and never changes the code of a key |
| `MoveSlotDictionary.LearnAllKeeps` | tce/compressors/MoveSlotDictionary.cc:164-207 | So do all insertions of any programs, in any state |
| `MoveSlotDictionary.CodeReadsBack` | tce/compressors/MoveSlotDictionary.cc:234-252 | Every code fits in the digits required by the size of its dictionary and reads back as itself |
| `MoveSlotDictionary.CompressedInstruction` | tce/compressors/MoveSlotDictionary.cc:222-257 | Every compressed instruction has exactly the compressed width |
| `MoveSlotDictionary.DecompressionUndoesCompression` | tce/compressors/MoveSlotDictionary.cc:97-257 | The described decompressor gives back the control bits and move slots of every instruction of every program, and the whole instruction exactly if these cover the instruction width |
| `MoveSlotDictionary.SamePrefixSameWord` | tce/compressors/MoveSlotDictionary.cc:222-257 | For every encoding and all dictionaries, two instructions with the same control bits and move slots are compressed to the same word |
| `MoveSlotDictionary.SameWordIff` | tce/compressors/MoveSlotDictionary.cc:222-257 | Two instructions of known slots are compressed to the same word exactly if their control bits and move slots are the same |
| `MoveSlotDictionary.ImmediateSlotIsLost` | tce/compressors/MoveSlotDictionary.cc:222-257 | An instance: a program of two instructions that differ in a dedicated immediate slot only, which the compressor maps to one word |
| `MoveSlotDictionary.ConcatWord` | tce/src/applibs/PIG/CodeCompressorPlugin.cc:397-430 | Words of one width stand at multiples of it in the program image |
| `MoveSlotDictionary.FetchedWordExpands` | tce/compressors/MoveSlotDictionary.cc:97-122 | Fetching word k of the image of any program and expanding it gives the control bits and move slots of instruction k |
| `MoveSlotCompressor.Compressor.AddToDictionary` | tce/compressors/MoveSlotDictionary.cc:209-216 | A new key receives the size of the dictionary as its code; other slots and known keys are unchanged |
| `MoveSlotCompressor.Compressor.UpdateDictionary` | tce/compressors/MoveSlotDictionary.cc:184-207 | The loops over instructions and slots learn exactly the program |
| `MoveSlotCompressor.Compressor.CreateDictionary` | tce/compressors/MoveSlotDictionary.cc:164-182 | The dictionaries of all programs and the compressed width are those of the specification |
| `MoveSlotCompressor.Compressor.AppendCode` | tce/compressors/MoveSlotDictionary.cc:234-252 | The slot cut out of the instruction is replaced by its code; an unknown slot is an error |
| `MoveSlotCompressor.Compressor.CompressInstruction` | tce/compressors/MoveSlotDictionary.cc:222-257 | The loop over the slots builds the compressed instruction, or fails exactly on an unknown slot |
| `MoveSlotCompressor.Compressor.AddInstruction` | tce/src/applibs/PIG/CodeCompressorPlugin.cc:397-430 | The instruction is placed at the next memory unit, after zero padding, and its address recorded |
| `MoveSlotCompressor.Compressor.AddInstructions` | tce/compressors/MoveSlotDictionary.cc:222-257 | The image of a program is the concatenation of its compressed words at consecutive addresses |
| `MoveSlotCompressor.Compressor.CompressAll` | tce/compressors/MoveSlotDictionary.cc:222-257 | The loop over the instructions of a program appends exactly the image of the program |
| `MoveSlotCompressor.Compressor.Compress` | tce/compressors/MoveSlotDictionary.cc:97-122 | The first call builds the dictionaries and fixes the memory width; every call, in any order, returns the image of the named program or reports that there is none |
| `MoveSlotCompressor.Compressor.DictionaryTable` | tce/compressors/MoveSlotDictionary.cc:259-314 | The table of a slot lists the key of each code; an empty dictionary is an error |
| `MoveSlotCompressor.Compressor.EvaluateMoveSlotBoundaries` | tce/compressors/MoveSlotDictionary.cc:426-439 | The boundaries of slot i are those of its code in the compressed instruction |
| `MoveSlotCompressor.Compressor.GenerateDecompressor` | tce/compressors/MoveSlotDictionary.cc:133-143 | The generated decompressor describes exactly the dictionaries of the programs; it fails exactly if a dictionary is empty |
| `DecoderSources.OutputSocketCntrlPin` | tce/icdecoder_plugins/DefaultICGenerator.cc:363-380 | The pin of a bus is the first segment of an output socket on that bus; there is none for other sockets and buses |
| `DecoderSources.WriteBusControlRulesOfOutputSocket` | tce/icdecoder_plugins/DefaultDecoderGenerator.cc:2692-2734 | The loop over the connected buses writes one rule for each pin of the socket |
| `DecoderSources.WriteRulesForSourceControlSignals` | tce/icdecoder_plugins/DefaultDecoderGenerator.cc:2549-2574 | The rules of all sockets and of all short immediates are written |
| `DecoderSources.PinAfterDecoding` | tce/icdecoder_plugins/DefaultDecoderGenerator.cc:2692-2734 | After the source rules a control pin is high exactly if the move on its bus is not squashed and the source field names the socket |
| `DecoderSources.ImmediateAfterDecoding` | tce/icdecoder_plugins/DefaultDecoderGenerator.cc:2745-2812 | After the source rules a short immediate is enabled exactly if its move is not squashed and the source field carries its code |
| `DecoderSources.OtherPinsUntouched` | tce/icdecoder_plugins/DefaultDecoderGenerator.cc:2692-2734 | Pins that belong to no bus keep their value |
| `DecoderSources.OtherSignalsUntouched` | tce/icdecoder_plugins/DefaultDecoderGenerator.cc:2549-2574 | The source rules write nothing but control pins and the registers of short immediates |
| `DecoderMeaning.HappensIff` | tce/icdecoder_plugins/DefaultDecoderGenerator.cc:1486-1572 | With distinct codes and outside its templates, a move takes effect exactly if its guard field selects no choice, or a guard that is true where it is taken as it is and false where it is inverted; never under the code of no move |
| `DecoderDestinations.CheckOrdered` | tce/icdecoder_plugins/DefaultDecoderGenerator.cc:3083-3110 | The check succeeds exactly if the code of each operation equals its opcode |
| `DecoderDestinations.WriteOperationChain` | tce/icdecoder_plugins/DefaultDecoderGenerator.cc:3110-3170 | The loop writes the chain of comparisons |
| `DecoderDestinations.WriteControlRulesOfFUInputPort` | tce/icdecoder_plugins/DefaultDecoderGenerator.cc:3065-3339 | The loops over the routes of a port write its rules in either language |
| `DecoderDestinations.SliceRefinesChain` | tce/icdecoder_plugins/DefaultDecoderGenerator.cc:3083-3170 | Taking the opcode directly from the field does the same as the chain of comparisons exactly on fields that carry the code of one of the operations |
| `DecoderDestinations.SliceLoadsUnknownCode` | tce/icdecoder_plugins/DefaultDecoderGenerator.cc:3083-3170 | A machine and cycle in which the field carries no operation code: the slice loads the port, the chain of comparisons does not |
| `DecoderDestinations.LanguagesAgree` | tce/icdecoder_plugins/DefaultDecoderGenerator.cc:3065-3339 | VHDL and Verilog rules of a port have the same effect exactly in the cycles in which a sliced move carries a code of the unit |
| `DecoderImmediates.SupportedWidth` | tce/src/base/mach/InstructionTemplate.cc:477-493 | The width a template supports for a unit is the sum of its slot widths |
| `DecoderImmediates.WritePieces` | tce/icdecoder_plugins/DefaultDecoderGenerator.cc:1884-1930 | The loop over the slots of a destination keeps msb and lsb so that each slot gets its piece of the port |
| `DecoderImmediates.PiecesPartition` | tce/icdecoder_plugins/DefaultDecoderGenerator.cc:1969-2013 | The pieces follow each other without gap or overlap from the top bit of the write port to bit 0 |
| `DecoderImmediates.AssembledImmediate` | tce/icdecoder_plugins/DefaultDecoderGenerator.cc:1884-2013 | The write port receives the sign or zero extension of the concatenated slot fragments |
| `DecoderImmediates.WriteInstructionTemplateProcedures` | tce/icdecoder_plugins/DefaultDecoderGenerator.cc:1863-1952 | A template writes the rules of every immediate unit |
| `DecoderImmediates.TagSelectsTemplate` | tce/icdecoder_plugins/DefaultDecoderGenerator.cc:1742-1850 | The tag of the instruction selects its template, the last and uncompared one included |
| `DecoderImmediates.LongImmediateWritten` | tce/icdecoder_plugins/DefaultDecoderGenerator.cc:1742-2013 | In an instruction of template k every unit of the template receives exactly its extended immediate and its register index and is loaded; the other units are not loaded and keep their register index and, unless the template is empty, their data |
| `DecoderProcess.BusesAreExclusive` | tce/icdecoder_plugins/DefaultDecoderGenerator.cc:2231-2330 | In every run that starts with a reset, whatever resets, locks and instructions follow, at most one socket or short immediate drives each bus |
| `DecoderProcess.RunExecutesMoves` | tce/icdecoder_plugins/DefaultDecoderGenerator.cc:2231-2290 | After an unlocked cycle of any such run a source drives a bus exactly if its move takes effect (with a guard field: the field selects no choice, or a guard whose value makes the choice hold, and no template uses the slot) and the source field names that source |
| `DecoderEffects.RunGivesImmediates` | tce/icdecoder_plugins/DefaultDecoderGenerator.cc:2745-2812 | After an unlocked cycle of any run in which an unsquashed move carries the immediate code the data register has the width of the bus: its low bits are the field of the instruction, every higher bit the top bit of the field if the bus sign-extends and 0 otherwise; in other cycles it keeps its value |
| `DecoderProcess.DriversAfterDecoding` | tce/icdecoder_plugins/DefaultDecoderGenerator.cc:2533-2574 | The same for one decoding cycle from any state in which unused pins are low |
| `DecoderProcess.ResetSilencesBuses` | tce/icdecoder_plugins/DefaultDecoderGenerator.cc:2299-2330 | After a reset nothing drives any bus |
| `DecoderResets.ResetClears` | tce/icdecoder_plugins/DefaultDecoderGenerator.cc:2299-2430 | After a reset, from any state, every control pin, input socket control, short immediate register, load, opcode and long immediate register is all zeros and as wide as the machine makes it, and nothing else has changed |
| `DecoderProcess.LockStuttersIff` | tce/icdecoder_plugins/DefaultDecoderGenerator.cc:2231-2290 | A locked cycle leaves every state as it is exactly if no soft reset of the debugger is active in it |
| `DecoderProcess.LockCyclesStutter` | tce/icdecoder_plugins/DefaultDecoderGenerator.cc:1742-1850 | Without such soft resets, removing all locked cycles from any run leaves the same sequence of register states, long immediate registers included |
| `DecoderRuns.RunLoadsPorts` | tce/icdecoder_plugins/DefaultDecoderGenerator.cc:2231-2330 | After an unlocked cycle of any run a function unit port is loaded exactly if the first of its routes whose condition holds loads it, and a port that sets opcodes then gives its unit the opcode of that route, and leaves it as it was otherwise |
| `DecoderRuns.DecodingLoads` | tce/icdecoder_plugins/DefaultDecoderGenerator.cc:3065-3339 | The same for one decoding cycle from any state, whatever the other ports do |
| `DecoderEffects.RunLoadsFromWord` | tce/icdecoder_plugins/DefaultDecoderGenerator.cc:3065-3339 | After an unlocked cycle of any run the load of a port and the opcode of its unit follow from the bits of the instruction: the first route whose destination field reaches the port with a code it uses, on a bus whose move takes effect |
| `DecoderEffects.RunSteersSockets` | tce/icdecoder_plugins/DefaultDecoderGenerator.cc:3065-3339 | The control of an input socket gets the value of the last route through it that is taken, and keeps its value in a cycle in which none is |
| `DecoderRuns.RunsHaveWidths` | tce/icdecoder_plugins/DefaultDecoderGenerator.cc:2299-2330 | In every run that starts with a reset the long immediate ports keep their widths |
| `DecoderRuns.RunWritesImmediates` | tce/icdecoder_plugins/DefaultDecoderGenerator.cc:1742-2013 | After an unlocked cycle of any run that starts with a reset the units of the template that the tag selects hold exactly their immediates and register indices and are loaded; the others are not loaded and keep their register index and, unless the template is empty, their data |
| `DecoderEffects.RunWritesFromWord` | tce/icdecoder_plugins/DefaultDecoderGenerator.cc:1742-2013 | Bit by bit: after an unlocked cycle every bit of a long immediate port is the bit of the instruction that its slots place there, or the extension bit, and register index and load follow the tag |
| `FileTableInvariant.OpenKeepsIff` | tce/newlib-1.17.0/libgloss/arm/syscalls.c:452-528 | An open keeps the table right (every used slot open on the host, every open handle in a slot, only slots 1 and 2 share one) exactly if it does not lose a handle in its existence test |
| `FileTableInvariant.CloseKeeps` | tce/newlib-1.17.0/libgloss/arm/syscalls.c:553-582 | A close keeps the table right, whatever the host answers |
| `FileTableInvariant.StatKeeps` | tce/newlib-1.17.0/libgloss/arm/syscalls.c:663-677 | The slot a stat borrows is free again afterwards unless the host opened the file and refused to close it |
| `FileTableInvariant.RunKeepsIff` | tce/newlib-1.17.0/libgloss/arm/syscalls.c:100-582 | In every run over a host with fresh handles the table is right after every call exactly if no exclusive create loses a handle |
| `FileTableInvariant.RunKeepsWhenClosesSucceed` | tce/newlib-1.17.0/libgloss/arm/syscalls.c:100-677 | Over a host whose closes succeed the table is right after every run |
| `FileTableInvariant.HandleCanBeLost` | tce/newlib-1.17.0/libgloss/arm/syscalls.c:466-480 | There is a host on which an exclusive create loses the handle its nested stat opened |
| `FilePositions.RunKeepsPositions` | tce/newlib-1.17.0/libgloss/arm/syscalls.c:270-450 | In every run each slot with an unshared handle, opened without append, records the offset of its file on the host |
| `FilePositions.RelativeSeekRefined` | tce/newlib-1.17.0/libgloss/arm/syscalls.c:298-381 | A relative seek asks the host to seek to exactly offset plus distance if that is a non-negative C int, and fails with EINVAL without asking otherwise |
| `MonitorCalls.Monitor.constructor` | tce/newlib-1.17.0/libgloss/arm/syscalls.c:134-204 | The static table after initialisation is that of the specification |
| `MonitorCalls.Monitor.FindSlot` | tce/newlib-1.17.0/libgloss/arm/syscalls.c:100-112 | A descriptor is found exactly if it is in range and open |
| `MonitorCalls.Monitor.FindNewSlot` | tce/newlib-1.17.0/libgloss/arm/syscalls.c:119-132 | The first free slot is found, or -1 |
| `MonitorCalls.Monitor.SwiOpen` | tce/newlib-1.17.0/libgloss/arm/syscalls.c:452-528 | The new table, trace, errno and result are those of the specified open |
| `MonitorCalls.Monitor.Close` | tce/newlib-1.17.0/libgloss/arm/syscalls.c:553-582 | Likewise for close, aliasing of stdout and stderr included |
| `MonitorCalls.Monitor.Read` | tce/newlib-1.17.0/libgloss/arm/syscalls.c:270-295 | Likewise for read |
| `MonitorCalls.Monitor.Write` | tce/newlib-1.17.0/libgloss/arm/syscalls.c:421-450 | Likewise for write |
| `MonitorCalls.Monitor.SwiLseek` | tce/newlib-1.17.0/libgloss/arm/syscalls.c:298-381 | Likewise for seek |
| `MonitorCalls.Monitor.Stat` | tce/newlib-1.17.0/libgloss/arm/syscalls.c:663-677 | Likewise for stat |
| `FileReplies.ReadReturns` | tce/newlib-1.17.0/libgloss/arm/syscalls.c:270-295 | The result of a read is the distance by which the host offset of the file moves, which is the count less the reply; -1 and the error number of the host if the host answers -1; -1 and EBADF, without asking the host, if the descriptor is not open |
| `FileReplies.WriteReturns` | tce/newlib-1.17.0/libgloss/arm/syscalls.c:421-450 | The same for a write; a write that moves the offset by nothing asks for the error number of the host |
| `FileReplies.SeekReturns` | tce/newlib-1.17.0/libgloss/arm/syscalls.c:298-381 | The position asked from the host is the argument, the recorded position plus the argument, or the length plus the argument; an unknown origin and a negative position counted from the recorded one are refused with EINVAL; the position is the result exactly if the host agrees |
| `FileReplies.OpenReturns` | tce/newlib-1.17.0/libgloss/arm/syscalls.c:452-528 | An open takes the lowest free slot and its number is the result; the mode sent to the host has the binary, update, write and append bits of the flags; without a free slot it is EMFILE |
| `FileReplies.ExclusiveOpenReturns` | tce/newlib-1.17.0/libgloss/arm/syscalls.c:466-480 | An exclusive create fails with EEXIST exactly if the file can be looked up, and otherwise opens like any other |
| `FileReplies.CloseReturns` | tce/newlib-1.17.0/libgloss/arm/syscalls.c:553-582 | A slot is freed exactly if the host answers 0 or the slot is 1 or 2 and the other has the same handle, in which case the host is not asked |
| `FileReplies.StatReturns` | tce/newlib-1.17.0/libgloss/arm/syscalls.c:663-677 | A stat succeeds exactly if the host opens the file for reading and reports its length |
| `FileReplies.FstatReturns` | tce/newlib-1.17.0/libgloss/arm/syscalls.c:629-661 | An fstat asks for the length of the open file and succeeds unless the host answers -1; the table stays as it is |
| `FileReplies.InitialisedIs` | tce/newlib-1.17.0/libgloss/arm/syscalls.c:134-204 | The three console handles are opened for reading, writing and appending; error output falls back to that of slot 1; the other slots are free |
| `ClusterNames.LaneNameInjective` | tce/explorer/ADFCombiner.cc:955-961 | Lane names determine the lane and the original name |
| `ClusterNames.ConnectNamesDiffer` | tce/explorer/ADFCombiner.cc:633-650 | Connect ports of different register files, and read and write ports, have different names |
| `ClusterRing.LinksMakeRing` | tce/explorer/ADFCombiner.cc:514-699 | Without name clashes all connections are made; each register file ends with exactly one read and one write connect port whose sockets are attached to exactly its connection buses; everything else is unchanged |
| `ClusterRing.LinksSucceedIff` | tce/explorer/ADFCombiner.cc:601-620 | All connections are made exactly if every register file exists and every bus name is new when it is used |
| `ClusterRing.FarthestIsLongest` | tce/explorer/ADFCombiner.cc:514-620 | The machine left by the loops is that of the longest prefix of the connections that can be made |
| `ClusterTopology.CountEdges` | tce/explorer/ADFCombiner.cc:531-596 | Two register files get one connection if they are to be joined and none otherwise |
| `ClusterTopology.SharedBuses` | tce/explorer/ADFCombiner.cc:514-597 | In the finished machine two register files share exactly one connect bus, in each direction, if they are the same file of neighbouring lanes, or one is in the first or last lane and the other an extra file of equal width; otherwise none |
| `ClusterTopology.LanesAreChained` | tce/explorer/ADFCombiner.cc:531-560 | Lanes i and i + n are joined by a chain of n distinct connect buses through the lanes between |
| `ClusterMeaning.LanesAreJoined` | tce/explorer/ADFCombiner.cc:531-560 | The bus connect_<file>_<i>_<i+1> is as wide as the file and joins L_<i>_<file> and L_<i+1>_<file>: it is on the output socket of the read connect port and on the input socket of the write connect port of both |
| `ClusterMeaning.ExtrasAreJoined` | tce/explorer/ADFCombiner.cc:561-597 | The bus connect_EX_<extra>_L_<i>_<file> likewise joins a file of the first or last lane and every extra file of its width |
| `ClusterBuilder.Combiner.AddBus` | tce/explorer/ADFCombiner.cc:601-620 | A bus is added, or refused if its name is taken |
| `ClusterBuilder.Combiner.FindConnectPorts` | tce/explorer/ADFCombiner.cc:633-640 | The search loop finds the last port of each name, or none |
| `ClusterBuilder.Combiner.AddPortsAndSockets` | tce/explorer/ADFCombiner.cc:626-699 | Ports and sockets are made where missing, attached, and the bus is attached once; the rest of the machine is unchanged |
| `ClusterBuilder.Combiner.ConnectRegisterFiles` | tce/explorer/ADFCombiner.cc:514-597 | The nested loops make exactly the connections of the specification, and fail exactly if it does; after a failure the machine has the connections before the one that failed and no other |
| `VectorWiring.ChooseFirst` | tce/explorer/ADFCombiner.cc:717-752 | The unit chosen is the first memory unit whose last operation port has no socket; none is chosen exactly if there is none |
| `VectorWiring.ConnectPortIff` | tce/explorer/ADFCombiner.cc:758-816 | A port can be connected exactly if all its buses exist and no other socket of the same direction is on it; it then has its named socket with that direction, attached to its former buses and the new ones once each |
| `VectorWiring.WireReachesBuses` | tce/explorer/ADFCombiner.cc:845-862 | An operand is wired only if the bus <bus>_connect_<k-2 modulo the lanes> exists for every bus of the node machine, and its socket is then on all of them |
| `VectorWiring.RoundProgress` | tce/explorer/ADFCombiner.cc:160-165 | For every machine, each call that asks to be called again leaves fewer units without a socket for their extra input |
| `VectorWiring.NoneLeft` | tce/explorer/ADFCombiner.cc:160-165 | If the loop ends without an exception, no memory unit is left with an unconnected last port |
| `VectorRounds.GeneratedUnitIsWired` | tce/explorer/ADFCombiner.cc:754-937 | One call wires a generated unit completely and changes no other socket |
| `VectorRounds.RoundConnectsOne` | tce/explorer/ADFCombiner.cc:160-165 | Each call takes exactly one unit from the unconnected memory units |
| `VectorRounds.AllUnitsWired` | tce/explorer/ADFCombiner.cc:160-939 | If the unconnected memory units are generated ones without sockets, the loop ends without exception, every used data port carrying operand k is attached to exactly the buses of lane k-2, and nothing else has changed |
| `VectorRounds.OnlyItsLane` | tce/explorer/ADFCombiner.cc:845-862 | Lanes share no bus names, so a data port reaches no other lane |
| `VectorRounds.UnitSocketsApart` | tce/explorer/ADFCombiner.cc:758-768 | Socket names determine the unit and the port |
| `VectorBuilder.Builder.FindUnit` | tce/explorer/ADFCombiner.cc:717-752 | The nested loops find the chosen unit and the trigger index carried from unit to unit |
| `VectorBuilder.Builder.Connect` | tce/explorer/ADFCombiner.cc:818-863 | One port: socket made or reused, attached, its buses attached once, direction set; or a failure |
| `VectorBuilder.Builder.ConnectOperations` | tce/explorer/ADFCombiner.cc:828-937 | The loops over operations and operands make exactly the specified connections |
| `VectorBuilder.Builder.ConnectVectorUnit` | tce/explorer/ADFCombiner.cc:705-939 | One call does what the specified round does |
| `VectorBuilder.Builder.ConnectVectorUnits` | tce/explorer/ADFCombiner.cc:160-165 | The do-while loop ends for every machine and computes the specified result |
| `VectorGenerator.CreatePorts` | tce/explorer/VectorLSGenerator.cc:228-262 | The port list: in1t, in2, out1, in3, out2, ..., in_extra2, out_extra1 |
| `VectorGenerator.AddOperation` | tce/explorer/VectorLSGenerator.cc:185-222 | The operation gets its ports and operands, or fails exactly if the unit has too few ports |
| `VectorGenerator.FitsIff` | tce/explorer/VectorLSGenerator.cc:185-222 | The unit has enough ports for an operation exactly if it is scalar or every port that the two loops ask for by name exists |
| `VectorGenerator.CreateVectorLSU` | tce/explorer/VectorLSGenerator.cc:185-304 | Fails for fewer than two lanes and on operations with too many operands; otherwise the unit is a generated one with exactly the selected operations |
| `VectorGenerator.SelectionIs` | tce/explorer/VectorLSGenerator.cc:268-302 | The operations of a unit are, in the order of the pool, the first of each name (letter case apart) that uses memory and either ends in 2, 4 or 8 and fits the lanes, or is a scalar load or store |
| `VectorGenerator.WidthIs` | tce/explorer/VectorLSGenerator.cc:234-242 | The greatest of the widths 8, 4 and 2 that is no more than the number of lanes; none below two lanes |
| `VectorGenerator.OperandsBound` | tce/explorer/VectorLSGenerator.cc:185-222 | Operand 1 of an operation is bound to the trigger port and each other operand to the data or extra port of its place |
| `VectorGenerator.OpIsGenerated` | tce/explorer/VectorLSGenerator.cc:185-222 | Every data port carries one operand, and that operand belongs to an existing lane |
| `GdbPackets.ReceivedIff` | tce/newlib-1.17.0/libgloss/debug.c:266-358 | A frame is received as sent exactly if the payload is shorter than BUFMAX and made of seven-bit characters other than the end mark |
| `GdbPackets.ReceivedIsPlain` | tce/newlib-1.17.0/libgloss/debug.c:269-327 | Whatever arrives, a completed payload is short and plain |
| `GdbPackets.StreamIsReceived` | tce/newlib-1.17.0/libgloss/debug.c:266-358 | A sequence of frames with noise between them is received in order, each call using exactly its frame |
| `GdbPackets.SentUntilAcked` | tce/newlib-1.17.0/libgloss/debug.c:332-357 | One frame is sent for every answer up to the first + |
| `GdbPackets.CopiesAreReceived` | tce/newlib-1.17.0/libgloss/debug.c:266-358 | All copies that bad answers cause are received as the same payload |
| `GdbPackets.AnyChecksumIsAccepted` | tce/newlib-1.17.0/libgloss/debug.c:269-327 | A packet is accepted with any two characters in the place of its checksum |
| `GdbPackets.OverlongIff` | tce/newlib-1.17.0/libgloss/debug.c:269-327 | A full buffer without end mark is returned exactly if, after dropped overlong bodies, a start mark is followed by BUFMAX characters without end mark that add up to 255 modulo 256 |
| `GdbPackets.FullBufferIsReturned` | tce/newlib-1.17.0/libgloss/debug.c:269-327 | An input for which that happens |
| `GdbMemory.HexRoundTrip` | tce/newlib-1.17.0/libgloss/debug.c:149-239 | Decoding the hex text of bytes, wherever it stands in a buffer, gives back the bytes |
| `GdbMemory.HexIntReads` | tce/newlib-1.17.0/libgloss/debug.c:245-264 | Reading a number stops after its digits, with the number they denote in positional notation modulo 2^32 |
| `GdbMemory.NumberRoundTrip` | tce/newlib-1.17.0/libgloss/debug.c:245-264 | The hex text of every number denotes that number |
| `GdbMemory.NumberReadsBack` | tce/newlib-1.17.0/libgloss/debug.c:245-264 | The hex text of every number below 2^32 is read back as that number |
| `GdbMemory.WriteSucceedsIff` | tce/newlib-1.17.0/libgloss/debug.c:217-239 | A write succeeds exactly if every byte of the range can be accessed |
| `GdbMemory.WriteStopsAtFault` | tce/newlib-1.17.0/libgloss/debug.c:217-239 | With a fault at byte k the k bytes before it are written and no other |
| `GdbMemory.Written` | tce/newlib-1.17.0/libgloss/debug.c:217-239 | A write leaves its bytes in memory and everything else as it was |
| `GdbMemory.StoreReply` | tce/newlib-1.17.0/libgloss/debug.c:559-567 | The reply to a write is OK exactly if no byte faults and the range does not end at address 0 |
| `GdbMemory.WriteReply` | tce/newlib-1.17.0/libgloss/debug.c:559-567 | A write command with as many bytes as announced stores those bytes at the address it names, with that reply |
| `GdbMemory.AnyWriteReply` | tce/newlib-1.17.0/libgloss/debug.c:559-567 | A write command with any text after the colon stores as many bytes as announced, taken from the buffer and with the reader treating the end of the text as digit 0 |
| `GdbMemory.LastByteIsRefused` | tce/newlib-1.17.0/libgloss/debug.c:559-567 | A byte written to the last address is stored, and the command is answered by error 3 |
| `GdbMemory.WriteThenRead` | tce/newlib-1.17.0/libgloss/debug.c:543-567 | Reading a range just written replies with the hex text of the bytes written |
| `GdbReplies.UnknownIsEmpty` | tce/newlib-1.17.0/libgloss/debug.c:363-447 | After noise and a frame with any checksum whose command is none of m, M, ?, d, g, G, c, k, r, acknowledged at once, the stub sends exactly +$#00 and leaves memory as it was |
| `GdbReplies.MalformedReadIsError` | tce/newlib-1.17.0/libgloss/debug.c:363-447 | A read command without digits, comma and digits is answered by exactly +$E01#a6 and does nothing |
| `GdbReplies.MalformedWriteIsError` | tce/newlib-1.17.0/libgloss/debug.c:363-447 | A write command without digits, comma, digits and colon is answered by exactly +$E02#a7 and does nothing |
| `GdbReplies.ReadIsAnswered` | tce/newlib-1.17.0/libgloss/debug.c:543-550 | A read of a range that can be accessed sends the acknowledge, the two hex digits of each byte, and their sum in hex; any other read sends exactly +$E03#a8 |
| `GdbReplies.WriteIsAnswered` | tce/newlib-1.17.0/libgloss/debug.c:559-567 | A write sends exactly +$OK#9a if the range can be accessed and does not end at address 0, and otherwise +$E03#a8 |
| `GdbReplies.TargetIsUndefined` | tce/newlib-1.17.0/libgloss/debug.c:363-447 | The commands left to the target are those that start with ?, d, g, G, c, k or r |
| `GdbStub.Stub.ReadBody` | tce/newlib-1.17.0/libgloss/debug.c:282-295 | The buffer loop stores the characters up to the end mark or the end of the buffer, with their sum |
| `GdbStub.Stub.ReceivePacket` | tce/newlib-1.17.0/libgloss/debug.c:269-327 | The loops of getpacket do what the specification says of the input, dropped overlong packets and the early exit included |
| `GdbStub.Stub.SendPacket` | tce/newlib-1.17.0/libgloss/debug.c:332-357 | The loops of putpacket send and read what the specification says, refusals by outbyte included |
| `GdbStub.Stub.Mem2Hex` | tce/newlib-1.17.0/libgloss/debug.c:187-211 | The reply buffer holds the hex text of the range, or the call fails at a fault |
| `GdbStub.Stub.Hex2Mem` | tce/newlib-1.17.0/libgloss/debug.c:217-239 | Memory is written byte by byte up to the first fault |
| `GdbStub.Stub.HandleCommand` | tce/newlib-1.17.0/libgloss/debug.c:363-447 | The switch leaves in memory and reply buffer what the specification says |
| `GdbStub.Stub.Turn` | tce/newlib-1.17.0/libgloss/debug.c:363-447 | One pass of the event loop |
| `GdbStub.Session` | tce/newlib-1.17.0/libgloss/debug.c:266-567 | Over the serial line: a write command and then a read command for the same range, each in a frame after noise, are both carried out and acknowledged, and the second reply carries the bytes of the first |
| `ObjectTree.SetChangesOne` | tce/src/tools/ObjectState.cc:96-113 | Setting an attribute changes that name and no other, and keeps names unique |
| `ObjectTree.SetKeepsPlaces` | tce/src/tools/ObjectState.cc:96-113 | In any list the first attribute of that name changes in its place, all others stay, and a new name goes to the end |
| `ObjectTree.AttributesEqualIff` | tce/src/tools/ObjectState.cc:496-506 | For unique names the attribute comparison is equality of the name-value maps, whatever the order |
| `ObjectTree.EqualIff` | tce/src/tools/ObjectState.cc:484-515 | On a tree with unique names no difference is found exactly for trees that are the same up to the order of attributes |
| `ObjectTree.EqualityIsTransitive` | tce/src/tools/ObjectState.cc:484-515 | The comparison is transitive on all trees |
| `ObjectTree.EqualityOnUnique` | tce/src/tools/ObjectState.cc:484-515 | On trees with unique names it is reflexive and symmetric as well |
| `ObjectTree.SymmetricIff` | tce/src/tools/ObjectState.cc:484-515 | Equality with a tree can be turned round for every other tree exactly if its names are unique or it equals nothing |
| `ObjectTree.ReflexiveIff` | tce/src/tools/ObjectState.cc:484-515 | A tree equals itself exactly if attributes of one name have one value in each node |
| `ObjectTree.AsymmetricWithDuplicates` | tce/src/tools/ObjectState.cc:209-223 | A tree from setAttribute with one name written over through the pointer of attribute(int) equals another tree that does not equal it |
| `ObjectTree.RoundTrip` | tce/src/tools/XMLSerializer.cc:546-697 | DOM document and back, attributes listed in any order, gives the tree without the values of inner nodes |
| `DomMeaning.DocumentIsWritten` | tce/src/tools/XMLSerializer.cc:546-653 | Place by place: elements stand for nodes with their names, attributes and children, and the value of a leaf or of the root is its first text child |
| `DomMeaning.DomIsRead` | tce/src/tools/XMLSerializer.cc:664-697 | Place by place: a node stands for each element child, its attributes are those of the element in the order they are listed, and its value is the text before the first element |
| `ObjectTree.RoundTripEqualIff` | tce/src/tools/XMLSerializer.cc:546-697 | The round trip equals the tree exactly if names are unique and values sit on leaves only |
| `ObjectTree.ReadIsUnique` | tce/src/tools/XMLSerializer.cc:664-697 | Trees read from a DOM have unique attribute names |
| `ObjectNodes.Node.SetAttribute` | tce/src/tools/ObjectState.cc:96-113 | The loop replaces the attribute in place or appends it |
| `ObjectNodes.Node.ReplaceChild` | tce/src/tools/ObjectState.cc:394-418 | The new child takes the place of the old one and nothing else moves; a child with a parent is refused; parent links stay right |
| `ObjectNodes.Node.NotEqual` | tce/src/tools/ObjectState.cc:484-515 | The loops over attributes and children compute the comparison |
| `ObjectNodes.Node.CreateDom` | tce/src/tools/XMLSerializer.cc:621-653 | The recursion over nodes builds the specified element |
| `ObjectNodes.Node.CreateDocument` | tce/src/tools/XMLSerializer.cc:546-586 | Likewise for the document, with the root value written even before child elements |
| `ObjectNodes.HasChildElements` | tce/src/tools/XMLSerializer.cc:707-717 | True exactly if some child is an element |
| `ObjectNodes.CreateState` | tce/src/tools/XMLSerializer.cc:664-697 | The recursion over siblings builds new nodes that show the specified tree, with parent links |
| `ObjectNodes.Copy` | tce/src/tools/ObjectState.cc:62-71 | The copy shows the same tree with new nodes only, with parent links |
| `GrowMachine.RunIsGreedy` | tce/explorer/GrowMachine.cc:168-241 | A run without exceptions accepts the configurations of its first rounds, each with 100 c < (100 - s) b for its cycle count c and that before it b, up to the first round with cycle counts of which none satisfies it |
| `GrowMachine.SuperiorIff` | tce/explorer/GrowMachine.cc:282-292 | For every percentage s the test holds exactly if 100 times the new cycle count is less than (100 - s) times the old one |
| `GrowMachine.CyclesShrink` | tce/explorer/GrowMachine.cc:282-292 | After k accepted rounds 100^k c_k <= (100-s)^k c_0 |
| `GrowMachine.CyclesFall` | tce/explorer/GrowMachine.cc:282-292 | Cycle counts fall strictly, so there are at most as many rounds as cycles at the start |
| `GrowMachine.ResultsAreReversed` | tce/explorer/GrowMachine.cc:243-247 | No result is lost to an equal map key; iteration gives the reverse order of acceptance |
| `GrowMachine.AllReturnedBestFirst` | tce/explorer/GrowMachine.cc:168-252 | Without exceptions all accepted configurations are returned, best first; the original one if there is none |
| `GrowMachine.NoResultIff` | tce/explorer/GrowMachine.cc:196-241 | The plugin ends without a result, by std::out_of_range, exactly if after accepted rounds only an evaluation succeeds without cycle counts |
| `GrowMachine.InterruptedReturnsOriginal` | tce/explorer/GrowMachine.cc:143-256 | A run that an exception ends returns the original configuration only, whatever it has accepted |
| `GrowMachine.StoppedIff` | tce/explorer/GrowMachine.cc:143-256 | The loop stops by its own test exactly if neither an exception nor an evaluation without cycle counts ends it |
| `GrowMachine.Explore` | tce/explorer/GrowMachine.cc:143-256 | The loop ends for every sequence of answers and returns the specified result; an exception returns only the original configuration, and std::out_of_range leaves the plugin |
| `RelativePath.RelativeLeadsBack` | tce/src/tools/FileSystem.cc:758-825 | For normalized absolute directories the result followed from the base leads to the target, below the base or not |
| `RelativePath.RelativeIsTaken` | tce/src/tools/FileSystem.cc:758-780 | Two relative directories with a common first component are not refused |
| `RelativePath.RelativeDir` | tce/src/tools/FileSystem.cc:758-825 | The iterator loops build the specified text |

## Left out

- C++ and VHDL text, netlist ports, sensitivity lists and file writing: the rules of the decoder and decompressor are modelled, not their text.
- Decoder rules of register file and immediate unit ports, output data control of function units, the SRAM register file process, machines without an immediate control field, and the Verilog squash logic of slots without a guard field.
- The tests of slots with a guard field are given as guard conditions of the environment; how guard signals are registered is not part of the model.
- Dictionary codes beyond 2^32 entries, where the original's unsigned counter would wrap.
- Relocation of jump addresses and the building of uncompressed instruction bits: the programs are given as bit vectors.
- The signs of zero results, division by zero, and arithmetic with infinities and subnormal halves, whose products alone are covered.
- C signed overflow in file positions is taken as two's complement wrap-around; the contents of stat structures and `__sinit` are left out, and the host is an oracle over the history of requests.
- Copying of guards to connection buses, and the copying and renaming of whole machines before the register files are connected.
- Design space database, evaluation and estimation: their answers are parameters. Cycle counts are natural numbers and the percentage test is exact where the original computes in double.
- Xerces and Boost: DOM trees and path components are values; comments and invalid XML names do not occur.
- The destructor of an object state, except where replaceChild removes the old child.
- GdbStub.Stub.Turn: does not describe overlong packets that are returned without end mark, reads whose reply does not fit the buffer, and the commands that depend on the target.
- VectorBuilder.Builder.ConnectVectorUnits: does not say what is left of the machine after an exception; the sockets of the three control ports are finished one after another instead of step by step together.
- DecoderRuns.RunLoadsPorts: takes as a precondition that the ports of a unit are told apart and only one of them sets its opcode, as in every machine object.
- DecoderEffects.RunLoadsFromWord: takes that as well, and that the destination and operation codes of the port fit their fields.
- GdbReplies.ReadIsAnswered: takes only reads whose reply fits the buffer.
- DecoderProcess.BusesAreExclusive: takes the unambiguity of the source encodings of a slot as a precondition, as the binary encoding is to guarantee it.
