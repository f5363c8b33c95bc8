# The bamts-bytecode load boundary, modelled and proved

`bamts-bytecode` turns untrusted bytes into a verified module or a verified, linked program. This
project models that boundary in Dafny, end to end: the strict wire format and the decoders that read
it, the verifier that decides whether a function may run, the linker that decides whether a program's
exports and imports hang together, and the resolver that later relies on the linker. It also models
the layout step of `Number::toString`.

The project verifies with `dafny verify dfyconfig.toml`.

## What is proved

**Verification is exact.** A run is a sequence of states `(pc, initialised registers)` starting at
entry with captures and parameters initialised; a normal step adds what the instruction writes and
moves to a successor, a resume point included, and an exceptional step moves from anywhere in a
protected range to the handler and adds its catch register. `Fixpoint.DefiniteInitialization` issues a
certificate if and only if *every* run of the function stays inside the code and reads only
initialised registers; otherwise it names the first read, by instruction and then by operand, that some
run reaches uninitialised. The certificate is exactly the registers that all runs reaching each instruction have
initialised, it is the greatest solution of the dataflow inequations, and it is unique. The iteration
updates facts in place mid-round and stops within instructions × registers + 1 rounds. Beneath it the
64-bit-word bitsets are proved to be sets; words are integers and `&` and `|` are defined by recursion
on halves, so nothing about bits is taken for granted.

**The instruction tables agree.** What each operand is for (read, written, loaded constant, name,
function, target) is written down once more, by wire tag. The read, write and successor tables are that
table, operand for operand; the operand checks bound exactly the registers read or written; and an
instruction is accepted exactly when every operand is what its role requires, the outputs do not clash
and every successor is an instruction (`Acceptance.AcceptedExactly`).

**The handler sweep is the pairwise definition.** Sort-and-stack accepts exactly the bounded families
in which every two ranges are disjoint or nested, and reports only pairs that really cross, in table
order.

**Linking and resolving fit together.** The three-colour walk accepts if and only if every export's
hop chain reaches a leaf; a reported cycle is a real cycle and a reported gap a real gap. A chain that
settles visits each export at most once, so it has fewer hops than the program has exports. That is
why the resolver, which keeps no visit set, never falls out of its loop bound: on a linked program it
returns the unique leaf for every exported name and nothing for any other name.

**Errors mean what they say.** Each verifier error is the first fault in checking order, each metadata
error a fault of the first faulty module, and for every error kind there is a proof that its meaning
excludes acceptance (`Verifier.ErrorRejects`, `Metadata.ErrorRejects`, `Loading.VerifyErrorRejects`).

**The wire format is canonical.** For every byte string, limit setting and module, `Decode(bytes) ==
Ok(m)` if and only if `bytes` is the encoding of `m` and `m` fits the limits
(`ModuleWire.DecodeExact`); the program envelope, with module blobs read by a nested decoder, obeys
the same law (`ProgramWire.DecodeProgramExact`). Round trip, canonicity, prefix-freeness and
conservation follow. The decoders and encoders as they run (mutable offset, running totals, appended
output) are separate classes and methods proved equal to these functions on every input, error kinds
and offsets included.

**Loading is one law.** `Loading.LoadProgram` returns the verified program `v` if and only if `v` is a
verified program, certificates included, whose encoding is the input and which fits the limits.

**Number layout keeps the value.** For every non-zero decimal text the formatted text denotes exactly
the same real number, and two numbers are written alike if and only if they are equal. The form required
by section 6.1.6.1.20 of ECMA-262 (2022 edition) is stated from the value alone: no redundant zeros, an
exponent exactly below 10^-6 and from 10^21 on, otherwise a point exactly for fractions. No other text
of that form has the value (`NumberForm.FormattedTextIsUnique`).

## How the model is laid out

| file | content |
|---|---|
| `Base`, `Instructions`, `Bytecode` | integers and results; the 58 instructions with their read, write, successor, check and wire tables; functions and modules |
| `RegisterSets`, `Dataflow`, `Fixpoint` | bitsets; runs and the all-runs facts; the iteration and the read check |
| `Handlers`, `Verifier` | handler laminarity; the function and module verifier |
| `Signatures`, `Acceptance` | operand roles by wire tag; what acceptance of an instruction means |
| `Programs`, `Exports`, `Linker`, `Resolver`, `Metadata` | linkage tables; hop chains; the walk; the resolver; metadata checks |
| `Wire`, `Codec`, `ModuleCodec`, `ModuleWire`, `ModuleTheorems` | LEB128; constants; instructions and functions; modules; consequences |
| `BigInts`, `Utf8` | what canonical bigint text and well-formed UTF-8 are |
| `Decoding`, `Encoding` | the module decoders and encoders as they run |
| `ProgramCodec`, `ProgramWire`, `ProgramTheorems`, `ProgramDecoding`, `ProgramEncoding` | the same for the program envelope |
| `Loading` | linking, program verification, loading |
| `NumberFormat`, `NumberForm` | the number layout; its form, from the value |

A few things found on the way:

- A verified module always satisfies the structural decode limits, and under the default limits the one
  on the total number of instructions never decides: it equals the limit on bytes, and every
  instruction takes a byte (`ModuleTheorems.InstructionsTakeBytes`).
- The module decoder reports a truncated integer at the missing byte, the program decoder at the
  integer's start. The model keeps both (`Codec.LebFailure`, `ProgramCodec.ReadInteger`).
- A length is written as its low 32 bits. Every round-trip law therefore carries the limits, under
  which no length reaches 2^32.

## Model

| member | source | states |
|---|---|---|
| `Instructions.AssembleInvertsDisassemble` | crates/bamts-bytecode/src/lib.rs:3540-3900 | what the encoder pushes for an instruction is what the reader expects behind its tag, from two separate tables, and rebuilds the instruction exactly |
| `Instructions.DisassembleInvertsAssemble` | crates/bamts-bytecode/src/lib.rs:3105-3342 | every well-shaped tag, integer list and operator byte is the wire form of the instruction it builds, so no two wire forms share an instruction |
| `Signatures.AccessesFollowRoles` | crates/bamts-bytecode/src/lib.rs:1082-1331 | what an instruction reads and writes are, in wire order, exactly its operands with those roles, by an independent table of operand roles |
| `Signatures.SuccessorsFollowRoles` | crates/bamts-bytecode/src/lib.rs:1334-1394 | control goes to the operand that is a target, if there is one, and to the next instruction unless the opcode diverts it |
| `RegisterSets.BitOfAnd` | crates/bamts-bytecode/src/lib.rs:1711-1721 | a bit of a conjunction is the conjunction of the bits |
| `RegisterSets.MaskTestsBit` | crates/bamts-bytecode/src/lib.rs:1691-1696 | the mask test of `contains` reads the register's bit, in the words' binary expansion |
| `RegisterSets.RegistersDetermineWords` | crates/bamts-bytecode/src/lib.rs:1664-1722 | two word vectors of one length that stand for the same set are equal |
| `RegisterSets.RegistersOfConjunction` | crates/bamts-bytecode/src/lib.rs:1711-1721 | word-wise conjunction is set intersection |
| `RegisterSets.RegistersOfInsert` | crates/bamts-bytecode/src/lib.rs:1698-1703 | setting one bit adds exactly one register |
| `RegisterSets.RegisterSet.Empty` | crates/bamts-bytecode/src/lib.rs:1673-1677 | the new set has the right width and no members |
| `RegisterSets.RegisterSet.Full` | crates/bamts-bytecode/src/lib.rs:1679-1689 | the new set holds exactly the registers below the count, the last partial word included |
| `RegisterSets.RegisterSet.Contains` | crates/bamts-bytecode/src/lib.rs:1691-1696 | membership, for registers outside the words too |
| `RegisterSets.RegisterSet.Insert` | crates/bamts-bytecode/src/lib.rs:1698-1703 | adds the register if a word exists for it and nothing otherwise |
| `RegisterSets.RegisterSet.InsertPrefix` | crates/bamts-bytecode/src/lib.rs:1705-1709 | adds exactly the registers below the count |
| `RegisterSets.RegisterSet.Intersect` | crates/bamts-bytecode/src/lib.rs:1711-1721 | the set becomes the intersection, and a change is reported if and only if the set shrank |
| `Dataflow.SolutionHoldsOnRuns` | crates/bamts-bytecode/src/lib.rs:2659-2698 | along every run, any solution of the inequations under-approximates what is initialised |
| `Dataflow.EntryOnAllRuns` | crates/bamts-bytecode/src/lib.rs:2670-2674 | captures and parameters, as many registers as both counts together, are initialised on all runs everywhere |
| `Dataflow.EntryIsExact` | crates/bamts-bytecode/src/lib.rs:1519-1524 | on entry exactly the captures and parameters are initialised |
| `Dataflow.FactFlows` | crates/bamts-bytecode/src/lib.rs:2676-2684 | the all-runs facts satisfy the transfer inequation of every normal and resume edge |
| `Dataflow.FactThrows` | crates/bamts-bytecode/src/lib.rs:2685-2694 | the all-runs facts satisfy the inequation of every handler edge |
| `Dataflow.OnAllRunsIsGreatestSolution` | crates/bamts-bytecode/src/lib.rs:2659-2698 | the all-runs facts solve the inequations, and every other solution lies pointwise below them |
| `Dataflow.SafeIffReadsOnAllRuns` | crates/bamts-bytecode/src/lib.rs:2699-2714 | all runs are safe if and only if every read is initialised on all runs that reach it |
| `Fixpoint.CertificateUnique` | crates/bamts-bytecode/src/lib.rs:1621-1627 | a function has at most one certificate, word for word |
| `Fixpoint.InitializedBeforeIsOnAllRuns` | crates/bamts-bytecode/src/lib.rs:1652-1661 | the certificate query answers, within bounds, whether every run reaching the instruction has initialised the register, and nothing out of bounds |
| `Fixpoint.WeightShrinks` | crates/bamts-bytecode/src/lib.rs:2676-2698 | facts that shrink pointwise and differ have strictly fewer members in total |
| `Fixpoint.Meet` | crates/bamts-bytecode/src/lib.rs:1711-1721 | meeting one fact in place keeps every fact above its goal and reports a change exactly when the facts changed |
| `Fixpoint.MeetSuccessors` | crates/bamts-bytecode/src/lib.rs:2678-2684 | one instruction's outgoing fact is met into all its successors |
| `Fixpoint.TransferRound` | crates/bamts-bytecode/src/lib.rs:2676-2684 | a pass over the instructions keeps the facts above the goal, and if it changes nothing every transfer inequation holds |
| `Fixpoint.MeetProtected` | crates/bamts-bytecode/src/lib.rs:2685-2691 | the words computed for a protected range stand for the intersection of its facts |
| `Fixpoint.HandlerRound` | crates/bamts-bytecode/src/lib.rs:2685-2694 | a pass over the handlers keeps the facts above the goal, and if it changes nothing every handler inequation holds |
| `Fixpoint.Initialize` | crates/bamts-bytecode/src/lib.rs:2670-2674 | the start is the entry prefix at instruction 0 and everything elsewhere |
| `Fixpoint.Stabilize` | crates/bamts-bytecode/src/lib.rs:2670-2698 | the iteration ends with exactly the all-runs facts, after at most instructions times registers plus one rounds |
| `Fixpoint.CheckReads` | crates/bamts-bytecode/src/lib.rs:2699-2714 | no error if and only if every read is in its fact; an error is the first missing operand, in visiting order, of the first instruction that has one |
| `Fixpoint.DefiniteInitialization` | crates/bamts-bytecode/src/lib.rs:2666-2719 | a certificate if and only if every run is safe, and then the all-runs facts; otherwise a read that some run reaches uninitialised, the first by instruction and then by operand |
| `Handlers.CoveringHandlersNest` | crates/bamts-bytecode/src/lib.rs:2193-2236 | in a laminar family the handlers covering an instruction form an inclusion chain |
| `Handlers.CompatibleIsSets` | crates/bamts-bytecode/src/lib.rs:2212-2233 | two ranges are compatible exactly when the sets of instructions they protect are disjoint or nested |
| `Handlers.SweepOrder` | crates/bamts-bytecode/src/lib.rs:2199-2206 | the order lists each handler once, by start ascending, then end descending, then position |
| `Handlers.Enter` | crates/bamts-bytecode/src/lib.rs:2207-2234 | one step of the sweep keeps the open ranges a nested stack in sweep order and all met ranges laminar, or names the first crossing pair |
| `Handlers.Sweep` | crates/bamts-bytecode/src/lib.rs:2193-2236 | the stack sweep accepts if and only if every two ranges are disjoint or nested; the reported pair is the first range in sweep order that crosses an earlier one, with the last earlier range still open there, in table order |
| `Handlers.VerifyHandlers` | crates/bamts-bytecode/src/lib.rs:2165-2236 | accepts exactly bounded ranges with catch registers in range that are pairwise disjoint or nested; otherwise reports the first handler out of range or, if there is none, the first crossing |
| `Handlers.HandlerErrorRejects` | crates/bamts-bytecode/src/lib.rs:2165-2236 | whatever is reported of the handlers, they are not in order |
| `Verifier.ChecksCoverRegisters` | crates/bamts-bytecode/src/lib.rs:2238-2636 | the operand checks of an instruction bound exactly the registers its read and write tables visit, extensions included |
| `Verifier.StructuredIsWired` | crates/bamts-bytecode/src/lib.rs:2074-2138 | the structural checks imply everything the dataflow pass needs: targets, handlers, reads and writes in bounds |
| `Verifier.VerifyShape` | crates/bamts-bytecode/src/lib.rs:2074-2163 | the size, register and name checks; an error is the first one that fails, in checking order |
| `Verifier.VerifyInstruction` | crates/bamts-bytecode/src/lib.rs:2238-2657 | no error if and only if every operand, alias and target check holds; an error is the first failing check |
| `Acceptance.AcceptedExactly` | crates/bamts-bytecode/src/lib.rs:2238-2657 | an instruction is accepted exactly when every operand is what its role requires, no forbidden pair of operands coincides and every successor is an instruction |
| `Acceptance.ChecksAreExpected` | crates/bamts-bytecode/src/lib.rs:2238-2623 | the checks of every instruction, in order: registers and names in wire order, then constants, functions and targets, then the forbidden coincidences |
| `Acceptance.AcceptedReferencesExist` | crates/bamts-bytecode/src/lib.rs:2238-2637 | every name an accepted instruction uses is a string constant, and the constant or function it refers to exists |
| `Acceptance.AcceptedOutputsDiffer` | crates/bamts-bytecode/src/lib.rs:2238-2637 | an accepted instruction with two outputs, unless it is a suspension, writes two registers, and a copy does not write over its inputs |
| `Verifier.VerifyFunction` | crates/bamts-bytecode/src/lib.rs:2074-2138 | a certificate if and only if the function is well structured and all its runs are safe; an error is the first fault in checking order |
| `Verifier.FaultRejects` | crates/bamts-bytecode/src/lib.rs:2074-2138 | whatever is reported of a function, the function does not verify |
| `Verifier.CheckFactWords` | crates/bamts-bytecode/src/lib.rs:2047-2058 | the saturating, early-exit sum rejects if and only if the true sum of instructions times words exceeds 2^23, and reports the first partial sum that does |
| `Verifier.VerifyModule` | crates/bamts-bytecode/src/lib.rs:2017-2072 | accepts exactly the modules that satisfy every module and function condition, with their certificates; an error is the first fault of the module, or of its first faulty function |
| `Verifier.ErrorRejects` | crates/bamts-bytecode/src/lib.rs:2017-2072 | whatever is reported of a module, the module does not verify |
| `Verifier.VerifiedUnique` | crates/bamts-bytecode/src/lib.rs:1541-1547 | a module has at most one verified form |
| `Verifier.VerifiedStorageIsBounded` | crates/bamts-bytecode/src/lib.rs:2047-2058 | the certificates of a verified module together take at most 2^23 words |
| `Verifier.VerifiedEntryStarts` | crates/bamts-bytecode/src/lib.rs:2032-2037 | a verified module has an entry function with a run |
| `Verifier.VerifiedRunsAreSafe` | crates/bamts-bytecode/src/lib.rs:2625-2719 | in a verified module every point of every run of every function is an instruction whose reads are initialised |
| `Exports.FindExport` | crates/bamts-bytecode/src/program.rs:337-340 | the front-to-back search finds the first entry bearing the name, or there is none |
| `Exports.FoundIsUnique` | crates/bamts-bytecode/src/program.rs:337-340 | where names are unique, the entry bearing a name is the one found |
| `Exports.HopMeans` | crates/bamts-bytecode/src/program.rs:341-388 | one hop leads to an export exactly when it bears the name referred to, in the module behind the local edge, and to a leaf exactly when that is a binding that is not an import or a name behind an external edge |
| `Exports.SettlesOnce` | crates/bamts-bytecode/src/program.rs:323-391 | a chain has one length and one leaf |
| `Exports.SettlesAtLeaf` | crates/bamts-bytecode/src/program.rs:323-391 | a chain that settles does so at an export whose leaf it is |
| `Exports.CycleNeverSettles` | crates/bamts-bytecode/src/program.rs:1659-1757 | an export on a cycle has no leaf |
| `Exports.ChainIsInjective` | crates/bamts-bytecode/src/program.rs:323-391 | a settling chain goes through one more export than it has hops, all different |
| `Exports.ChainIsShort` | crates/bamts-bytecode/src/program.rs:323-391 | a settling chain has fewer hops than the program has exports, even if it re-enters modules |
| `Linker.BuildIndex` | crates/bamts-bytecode/src/program.rs:1308-1327 | the hash index answers every name exactly as the linear search does |
| `Linker.NextExport` | crates/bamts-bytecode/src/program.rs:1690-1745 | the next export through the index is the hop of the chain; a missing target is reported as a real gap |
| `Linker.StepOn` | crates/bamts-bytecode/src/program.rs:1688-1749 | one step colours one unseen export grey, keeps grey equal to the chain under way, and never un-blackens |
| `Linker.Trace` | crates/bamts-bytecode/src/program.rs:1659-1757 | following a chain ends at a leaf, at a known export or with an error that is real and means some export has no leaf |
| `Linker.Blacken` | crates/bamts-bytecode/src/program.rs:1751-1753 | a chain that ends is marked as ended, nothing stays grey and every other export keeps its colour |
| `Linker.VerifyExportResolutions` | crates/bamts-bytecode/src/program.rs:1659-1757 | accepts if and only if every export's chain reaches a leaf; a reported cycle is a real cycle, a reported gap a real gap |
| `Resolver.ResolutionIsUnique` | crates/bamts-bytecode/src/program.rs:323-391 | an export resolves to one leaf only |
| `Resolver.ResolutionIsALeaf` | crates/bamts-bytecode/src/program.rs:323-391 | what an export resolves to is an existing binding that is not an import, or a name behind an existing external edge |
| `Resolver.TakeTurn` | crates/bamts-bytecode/src/program.rs:335-388 | one turn of the loop is one hop of the chain; where a target is missing it moves on to a module that does not export the name |
| `Resolver.ResolveExport` | crates/bamts-bytecode/src/program.rs:323-391 | on a linked program, answers exactly the exported names, with the leaf of the chain, which is a binding that is not an import or a name behind an external edge, and never reaches the end of its bounded loop |
| `Resolver.VerifyImportedBindings` | crates/bamts-bytecode/src/program.rs:1628-1657 | accepts if and only if no local import names something its target does not export; a reported import dangles |
| `Resolver.ImportsResolve` | crates/bamts-bytecode/src/program.rs:1628-1657 | on a linked program every import over a local edge resolves through its target to a leaf |
| `Metadata.MetadataBounds` | crates/bamts-bytecode/src/program.rs:1332-1594 | accepted metadata bounds every reference the export walk and the resolver follow |
| `Metadata.WellFormedIsPaired` | crates/bamts-bytecode/src/string.rs:139-160 | a text is well formed exactly when every high surrogate is followed by a low one and every low one preceded by a high one |
| `Metadata.PartsMean` | crates/bamts-bytecode/src/program.rs:1766-1785 | the parts of a module name hold no slash and give back the name when joined by slashes |
| `Metadata.AbsoluteSpecifierForms` | crates/bamts-bytecode/src/program.rs:1787-1799 | a specifier is absolute exactly when it starts with a slash, a backslash, a file scheme or a drive, in either case |
| `Programs.KindIsCapabilities` | crates/bamts-bytecode/src/program.rs:44-67 | an edge kind is determined by its two capabilities, has at least one, and union joins them |
| `Metadata.RequiredString` | crates/bamts-bytecode/src/program.rs:1596-1612 | succeeds exactly on a well-formed string constant, and returns it; an error is real |
| `Metadata.CheckEdges` | crates/bamts-bytecode/src/program.rs:1362-1404 | accepts exactly edges with distinct, well-formed, relative specifiers and existing targets, and returns an index of the specifiers |
| `Metadata.CheckBindings` | crates/bamts-bytecode/src/program.rs:1406-1470 | accepts exactly bindings with distinct names whose imports use existing static edges and well-formed names |
| `Metadata.CheckExports` | crates/bamts-bytecode/src/program.rs:1472-1540 | accepts exactly exports with distinct names that refer to existing bindings or static edges |
| `Metadata.CheckFunction` | crates/bamts-bytecode/src/program.rs:1542-1592 | accepts exactly functions with well-formed names, no snapshot export and a dynamic edge for every import |
| `Metadata.CheckProgram` | crates/bamts-bytecode/src/program.rs:1259-1306 | accepts exactly programs whose entry, module names and tables are in order; an error is about the program as a whole or a fault of its first faulty module |
| `Metadata.FaultRejects` | crates/bamts-bytecode/src/program.rs:1332-1594 | whatever is reported of a module, every error kind included, its metadata is not in order |
| `Metadata.ErrorRejects` | crates/bamts-bytecode/src/program.rs:1259-1306 | whatever is reported of a program, its metadata is not in order |
| `Wire.WriteU32` | crates/bamts-bytecode/src/lib.rs:3471-3482 | appends the minimal base-128 form |
| `Wire.LebMeans` | crates/bamts-bytecode/src/lib.rs:3471-3482 | the encoding denotes its number in base 128, marks every byte but the last and has no empty last group |
| `Wire.ReadLeb128` | crates/bamts-bytecode/src/program.rs:1223-1251 | the shifting reader gives the value, length, error kind and stopping point of the group-by-group definition on every input |
| `Wire.PlacedAdds` | crates/bamts-bytecode/src/program.rs:1223-1251 | joining a seven-bit group to the lower ones with a bitwise or adds it, and stays below the next group |
| `Wire.LebExact` | crates/bamts-bytecode/src/lib.rs:3411-3431 | a 32-bit value is read exactly where its minimal encoding lies, and everything read is a minimal encoding |
| `Wire.FromInvertsLittleEndian` | crates/bamts-bytecode/src/lib.rs:3484-3497 | reading back the little-endian bytes of a value gives the value |
| `Wire.LittleEndianInvertsFrom` | crates/bamts-bytecode/src/lib.rs:2999-3012 | writing what little-endian bytes denote gives the bytes |
| `Bytecode.NanIsMaskTest` | crates/bamts-bytecode/src/lib.rs:305-316 | the two intervals above the infinities are what the bitwise exponent and fraction masks select |
| `Codec.DecodeInvertsEncodeUnits` | crates/bamts-bytecode/src/string.rs:33-43 | the byte-pair decoder inverts the byte-pair encoder, lone surrogates included |
| `Codec.UnitsAreLittleEndian` | crates/bamts-bytecode/src/lib.rs:3509-3514 | each string unit takes two bytes, the low one first |
| `Codec.CanonicalBigIntIsUtf8` | crates/bamts-bytecode/src/lib.rs:342-361 | canonical bigint text is valid UTF-8, so the decoder's text check never rejects it |
| `BigInts.CanonicalExactly` | crates/bamts-bytecode/src/lib.rs:342-361 | the canonical texts are exactly the decimal texts of the integers |
| `BigInts.CanonicalIsUnique` | crates/bamts-bytecode/src/lib.rs:342-361 | two canonical texts of one integer are the same text |
| `Utf8.Utf8Exactly` | crates/bamts-bytecode/src/lib.rs:3038-3045 | the text check accepts exactly the UTF-8 encodings of sequences of Unicode scalar values |
| `Codec.TwosComplement` | crates/bamts-bytecode/src/lib.rs:3484-3497 | the unsigned form of a 32-bit integer is congruent to it modulo 2^32, and the two forms invert each other |
| `Codec.ConstantSound` | crates/bamts-bytecode/src/lib.rs:2999-3045 | a decoded constant is within limits and its encoding is the bytes consumed |
| `Codec.ConstantComplete` | crates/bamts-bytecode/src/lib.rs:3484-3519 | a constant within limits is decoded from its encoding |
| `ModuleCodec.InstructionSound` | crates/bamts-bytecode/src/lib.rs:3105-3342 | a decoded instruction's encoding is the bytes consumed |
| `ModuleCodec.InstructionComplete` | crates/bamts-bytecode/src/lib.rs:3540-3900 | every instruction is decoded from its encoding |
| `ModuleCodec.CodeSound` | crates/bamts-bytecode/src/lib.rs:3079-3082 | a decoded instruction list has the announced length and encodes to the bytes consumed |
| `ModuleCodec.HandlersSound` | crates/bamts-bytecode/src/lib.rs:3084-3093 | a decoded handler table has the announced length and encodes to the bytes consumed |
| `ModuleCodec.FunctionSound` | crates/bamts-bytecode/src/lib.rs:3047-3103 | a decoded function is within limits, with the running instruction total, and encodes to the bytes consumed |
| `ModuleCodec.FunctionComplete` | crates/bamts-bytecode/src/lib.rs:3521-3538 | a function within limits is decoded from its encoding |
| `ModuleCodec.FlagBitsMean` | crates/bamts-bytecode/src/lib.rs:1415-1447 | the flag byte has one bit per flag, in the documented positions, and no other |
| `ModuleWire.ModuleSound` | crates/bamts-bytecode/src/lib.rs:2970-2997 | a decoded module fits the limits and encodes to the bytes consumed |
| `ModuleWire.ModuleComplete` | crates/bamts-bytecode/src/lib.rs:1604-1618 | a module within limits is decoded from its encoding, wherever the input goes on |
| `ModuleWire.DecodeExact` | crates/bamts-bytecode/src/lib.rs:2922-2948 | a byte string decodes to a module if and only if it is exactly that module's encoding and within the limits |
| `ModuleTheorems.AcceptedBytesAreCanonical` | crates/bamts-bytecode/src/lib.rs:2922-2948 | two accepted byte strings that give the same module are equal, under any limits |
| `ModuleTheorems.AcceptedBytesArePrefixFree` | crates/bamts-bytecode/src/lib.rs:2922-2948 | no accepted byte string is a proper prefix of another, even under different limits |
| `ModuleTheorems.VerifiedRoundTrip` | crates/bamts-bytecode/src/lib.rs:1604-1618 | a verified module comes back from its encoding under the default limits if and only if its texts and its size are within them |
| `ModuleTheorems.InstructionsTakeBytes` | crates/bamts-bytecode/src/lib.rs:3521-3538 | a module has fewer instructions than its encoding has bytes |
| `ModuleTheorems.DecodingConserves` | crates/bamts-bytecode/src/lib.rs:2970-3103 | constants, functions, instructions and handlers together number at most the bytes decoded |
| `ModuleTheorems.DecodedRespectsLimits` | crates/bamts-bytecode/src/lib.rs:2723-2754 | whatever is decoded respects every limit |
| `Decoding.Cursor.Byte` | crates/bamts-bytecode/src/isa.rs:330-342 | returns the next byte and advances, or reports the end of input and stays |
| `Decoding.Cursor.Leb128` | crates/bamts-bytecode/src/isa.rs:344-377 | the second integer reader gives the value, length, error kind and error offset of the root reader on every input |
| `Decoding.Cursor.Integers` | crates/bamts-bytecode/src/isa.rs:274-322 | consecutive extension operands, as the parser has them |
| `Decoding.ExtensionAgrees` | crates/bamts-bytecode/src/isa.rs:274-322 | both readers take the same operands behind an extension tag and build the same instruction from them |
| `Decoding.DecodeFromTag` | crates/bamts-bytecode/src/isa.rs:274-322 | the extension reader, with its own operand counts and constructors, builds the instruction the root reader would, and rejects every other tag |
| `Decoding.Decoder.Capacity` | crates/bamts-bytecode/src/lib.rs:3433-3437 | a reservation is at most the remaining input, and the whole count if that fits |
| `Decoding.Decoder.Byte` | crates/bamts-bytecode/src/lib.rs:3439-3445 | the byte read, as the parser has it |
| `Decoding.Decoder.Slice` | crates/bamts-bytecode/src/lib.rs:3447-3464 | the slice read, as the parser has it |
| `Decoding.Decoder.Leb128` | crates/bamts-bytecode/src/lib.rs:3411-3431 | the integer read, with the root decoder's error offsets |
| `Decoding.Decoder.Bounded` | crates/bamts-bytecode/src/lib.rs:3392-3406 | an integer within its limit, or the limit error at the integer's start |
| `Decoding.Decoder.Instruction` | crates/bamts-bytecode/src/lib.rs:3105-3390 | the stateful instruction reader is the parser, for all 58 tags, both integer readers and every enum byte |
| `Decoding.Decoder.ConstantValue` | crates/bamts-bytecode/src/lib.rs:2999-3045 | the stateful constant reader is the parser |
| `Decoding.Decoder.Code` | crates/bamts-bytecode/src/lib.rs:3063-3082 | the instruction loop is the parser, adds to the running total, and reserves at most what it consumes |
| `Decoding.Decoder.HandlerTable` | crates/bamts-bytecode/src/lib.rs:3084-3093 | the handler loop is the parser and reserves at most what it consumes |
| `Decoding.Decoder.FunctionRecord` | crates/bamts-bytecode/src/lib.rs:3047-3103 | the function reader is the parser and reserves strictly less than it consumes |
| `Decoding.Decoder.ConstantPool` | crates/bamts-bytecode/src/lib.rs:2984-2989 | the constant loop is the parser and reserves at most what it consumes |
| `Decoding.Decoder.FunctionTable` | crates/bamts-bytecode/src/lib.rs:2990-2996 | the function loop is the parser and reserves at most what it consumes |
| `Decoding.DecodeBytes` | crates/bamts-bytecode/src/lib.rs:2922-2948 | the decoder as it runs is the parser on every input and limit; all reservations together are at most twice the input, and at most the input on success |
| `Encoding.WriteConstant` | crates/bamts-bytecode/src/lib.rs:3484-3519 | appends the constant's encoding |
| `Encoding.WriteInstruction` | crates/bamts-bytecode/src/lib.rs:3540-3900 | appends the instruction's encoding |
| `Encoding.WriteFunction` | crates/bamts-bytecode/src/lib.rs:3521-3538 | appends the function's encoding |
| `Encoding.WriteModule` | crates/bamts-bytecode/src/lib.rs:1604-1618 | the encoder's loops produce exactly the module's encoding |
| `ProgramCodec.ReadIntegerExact` | crates/bamts-bytecode/src/program.rs:1183-1193 | an envelope integer is read exactly where its minimal encoding lies |
| `ProgramCodec.RowSound` | crates/bamts-bytecode/src/program.rs:1008-1093 | a decoded table row is well formed and encodes to the bytes consumed |
| `ProgramCodec.RowComplete` | crates/bamts-bytecode/src/program.rs:249-294 | a well-formed row is decoded from its encoding |
| `ProgramCodec.RowsAreEntities` | crates/bamts-bytecode/src/program.rs:249-294 | edges, bindings and exports are each recovered exactly from their row |
| `ProgramWire.BlobSound` | crates/bamts-bytecode/src/program.rs:973-997 | a decoded blob was consumed whole by the module decoder and is within the per-module and total limits |
| `ProgramWire.BlobComplete` | crates/bamts-bytecode/src/program.rs:246-248 | a module within limits is decoded from its length-delimited encoding |
| `ProgramWire.ProgramModulesSound` | crates/bamts-bytecode/src/program.rs:968-1128 | decoded modules fit every per-module limit and, with the running totals, every total limit, and encode to the bytes consumed |
| `ProgramWire.DecodeProgramExact` | crates/bamts-bytecode/src/program.rs:894-944 | a byte string decodes to a program if and only if it is exactly that program's encoding and within the limits |
| `ProgramTheorems.AcceptedProgramsAreCanonical` | crates/bamts-bytecode/src/program.rs:894-944 | two accepted byte strings that give the same program are equal, under any limits |
| `ProgramTheorems.AcceptedProgramsArePrefixFree` | crates/bamts-bytecode/src/program.rs:894-944 | no accepted program is a proper prefix of another, even under different limits |
| `ProgramTheorems.ProgramDecodingConserves` | crates/bamts-bytecode/src/program.rs:968-1148 | modules, edges, bindings, exports and everything inside the modules together number at most the bytes decoded |
| `ProgramTheorems.DecodedProgramRespectsLimits` | crates/bamts-bytecode/src/program.rs:396-427 | whatever program is decoded respects every limit, per module and in total |
| `ProgramDecoding.ProgramDecoder.Unsigned` | crates/bamts-bytecode/src/program.rs:1183-1193 | the integer read, with every error at the integer's start |
| `ProgramDecoding.ProgramDecoder.AddTotal` | crates/bamts-bytecode/src/program.rs:1104-1128 | adds to one running total, leaves the others, and reports the total if and only if it is over its limit |
| `ProgramDecoding.ProgramDecoder.TableRows` | crates/bamts-bytecode/src/program.rs:999-1094 | a table's count, limit checks and row loop are the parser, with the total advanced |
| `ProgramDecoding.ProgramDecoder.Blob` | crates/bamts-bytecode/src/program.rs:973-997 | the length, slice and nested module decoder are the parser, error offsets shifted into the envelope |
| `ProgramDecoding.ProgramDecoder.ModuleRecord` | crates/bamts-bytecode/src/program.rs:968-1102 | one module with its three tables is the parser, with all totals advanced |
| `ProgramDecoding.DecodeProgramBytes` | crates/bamts-bytecode/src/program.rs:894-944 | the program decoder as it runs is the parser on every input and limit |
| `ProgramEncoding.WriteProgramModule` | crates/bamts-bytecode/src/program.rs:245-294 | appends one module's record: name, length-delimited blob and the three tables |
| `ProgramEncoding.WriteProgram` | crates/bamts-bytecode/src/program.rs:236-297 | the encoder's loops produce exactly the program's encoding |
| `Loading.Link` | crates/bamts-bytecode/src/program.rs:221-231 | verified modules link if and only if metadata is in order, every export chain reaches a leaf and no import dangles; every error is real |
| `Loading.LinkErrorRejects` | crates/bamts-bytecode/src/program.rs:1259-1329 | whatever linking reports, the program does not link |
| `Loading.VerifiedProgramUnique` | crates/bamts-bytecode/src/program.rs:145-149 | a program has at most one verified form, certificates included |
| `Loading.VerifyProgram` | crates/bamts-bytecode/src/program.rs:179-202 | verifies if and only if every module verifies and the program links; a module error is the first fault of the first failing module |
| `Loading.VerifyErrorRejects` | crates/bamts-bytecode/src/program.rs:179-202 | whatever is reported of a program, the program does not verify |
| `Loading.LoadModule` | crates/bamts-bytecode/src/lib.rs:2955-2960 | loads a verified module if and only if the input is its encoding and it fits the limits |
| `Loading.LoadProgram` | crates/bamts-bytecode/src/program.rs:947-955 | loads a verified program if and only if the input is its encoding and it fits the limits; a failure is the decoder's or a fault of the decoded program |
| `Loading.LoadedRunsAreSafe` | crates/bamts-bytecode/src/program.rs:947-955 | in a loaded program every run of every function of every module is safe |
| `Loading.LoadedNamesResolve` | crates/bamts-bytecode/src/program.rs:323-391 | in a loaded program every exported name has exactly one leaf |
| `NumberFormat.NormalizationPreservesValue` | crates/bamts-bytecode/src/lib.rs:224-242 | the trimmed digits start and end with a non-zero digit and, with the computed exponent, denote the text's value |
| `NumberFormat.LayoutPreservesValue` | crates/bamts-bytecode/src/lib.rs:248-269 | each of the layouts is a numeral that denotes the digits at their scale |
| `NumberFormat.ScaledUnique` | crates/bamts-bytecode/src/lib.rs:235-242 | a value has one string of significant digits and one scale |
| `NumberFormat.AppendDigits` | crates/bamts-bytecode/src/lib.rs:248-269 | the code's choice by exponent is the standard's choice by digit count |
| `NumberFormat.FormatNumber` | crates/bamts-bytecode/src/lib.rs:208-271 | the appended text is the standard's text, special values included |
| `NumberFormat.FormattingPreservesValue` | crates/bamts-bytecode/src/lib.rs:222-271 | the formatted text of a finite non-zero number denotes exactly its value |
| `NumberFormat.FormattingIsCanonical` | crates/bamts-bytecode/src/lib.rs:222-271 | two finite non-zero numbers are written alike if and only if they are equal |
| `NumberForm.LayoutUsesExponent` | crates/bamts-bytecode/src/lib.rs:248-269 | the text has an exponent exactly when the value is below 10^-6 or at least 10^21 |
| `NumberForm.LayoutHasPoint` | crates/bamts-bytecode/src/lib.rs:248-269 | a text without an exponent has a point exactly when the value is not an integer |
| `NumberForm.FormattedForm` | crates/bamts-bytecode/src/lib.rs:222-271 | a sign exactly for negative numbers, no redundant zeros, an exponent exactly out of range and otherwise a point exactly for fractions, all from the value |
| `NumberForm.FormattedTextIsUnique` | crates/bamts-bytecode/src/lib.rs:222-271 | no other text of that form has the value |

## Left out

- What opcodes do at run time: only reads, writes, control flow, checks and wire form are modelled.
- The second instruction type of `isa.rs`: its six instructions are constructors of the one instruction type, and its read, write and successor tables are part of the root tables; its integer reader and tag decoder are modelled on their own.
- Allocation failure and the retained-bytes accounting: host memory only.
- Error display text, and the merging of some error kinds: the alias errors of five opcodes are one kind carrying the register, the seven enum-tag errors one kind carrying the enum family, the bounds and type errors of metadata names one pair of kinds carrying the role, and limit errors carry a quantity instead of a field name.
- Facts held between rounds: they are values, and a bitset object exists only while one fact is read or met; sharing and aliasing between bitsets is not modelled.
- Output buffers of the encoders: a sequence passed and returned, not one mutable vector.
- Colour table, chain and handler stack: local variables of sequence type, as in the source, with no array identity.
- The three loops over edges, bindings and exports in the program decoder: one row shape read by one loop and proved to be the three entities.
- `NumberFormat.FormatNumber`: takes decimal text as given; IEEE-754 values, `f64::to_string` and the 32-bit range of the exponent arithmetic are not modelled.
- Accessors, constructors and default limits of the program decoder: nothing to prove beyond their definitions.
- The corpus, the npm loaders, the command line, the benchmarks and the formal ledger: not part of the load boundary.
