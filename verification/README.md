# LDC: compile-time real bridge and per-function codegen record

This project models two small, sequential pieces of the LDC backend
(the LLVM-based D compiler) in Dafny. It also proves properties of both.

**`CTFloat::toAPFloat`** (module `CTFloat`, `ctfloat.dfy`) turns a host
`real_t` into an `llvm::APFloat`.

- When `sizeof(real_t) == 8`, the value is converted numerically to a double.
- Otherwise the size is asserted to be above 8. The storage is then
  reinterpreted through a union as `(sizeof(real_t) + 7) / 8` words of type
  `uint64_t`.
- The host architecture the compiler was built for then picks the format:
  - x86: x87 double-extended, an 80-bit APInt;
  - aarch64: IEEE quad, a 128-bit APInt;
  - ppc: PowerPC double-double, a 128-bit APInt.
- Each APInt is read from the first two words.
- Any other architecture is unreachable.

The model makes each build-time choice a field of `HostConfig`:
`sizeof(real_t)`, the architecture and the byte order. That way every
`#if` branch is one case of a single function. The union bytes that
`u.fp = src` leaves unwritten form a parameter (`tail`), so the model
assumes nothing about them. `Pack`/`Unpack` read and write storage as
words, and their round trip is proved in both directions.

**`IrFunction` and its registry** (module `IrFunctions`, `irfunction.dfy`)
cover the codegen state of one D function:

- the record's members and their in-class defaults;
- the private LLVM function handle and its setter;
- the two read paths `getLLVMFunc` and `getLLVMCallee`;
- the `diLexicalBlocks` stack and the `variableMap`;
- the registry API `getIrFunc(decl, create = false)`, `isIrFuncCreated`,
  `DtoFunction` and `DtoCallee`.

The record is an immutable value, and so is the registry: each call takes
it and returns the new one. LLVM objects are opaque nullable pointers
(`Ptr`).

## Model

| member | source | states |
|---|---|---|
| `CTFloat.ToAPFloat` | gen/ctfloat.cpp:15-48 | A double-sized `real_t` gives a binary64 APFloat of `static_cast<double>(src)`, before any architecture test; the binary64 case happens exactly then. A smaller one fails the size assertion, and only it does. A wider one on an unknown host is unreachable, and only that case is. On x86, aarch64 and ppc the result is tagged x87DoubleExtended/80, IEEEquad/128 and PPCDoubleDouble/128 respectively. It carries exactly the first two union words, and those, written back, are the first sixteen storage bytes unchanged. The bit width never exceeds the words supplied. |
| `CTFloat.UnionBits` | gen/ctfloat.cpp:23-27 | The union holds exactly `(sizeof(real_t) + 7) / 8` words, and writing them back yields the `real_t` bytes unchanged and in order. |
| `CTFloat.WordCount` | gen/ctfloat.cpp:25 | The `bits` array has the fewest 64-bit words that cover `sizeof(real_t)` bytes. |
| `CTFloat.TailLength` | gen/ctfloat.cpp:23-26 | The union is padded to a whole number of words, with fewer than eight unwritten bytes. |
| `CTFloat.Pack` | gen/ctfloat.cpp:23-27 | Storage read as words: word `i` is made of bytes `8i .. 8i+7` in host byte order, and there are `|mem| / 8` words. |
| `CTFloat.Unpack` | gen/ctfloat.cpp:23-27 | Words written back take eight bytes each. |
| `CTFloat.UnpackPack` | gen/ctfloat.cpp:23-27 | Reading storage as words and writing them back returns the storage. |
| `CTFloat.PackUnpack` | gen/ctfloat.cpp:23-27 | Writing words to storage and reading them back returns the words. |
| `CTFloat.WordOfBytesOf` | gen/ctfloat.cpp:25 | A `uint64_t` stored in host byte order and read back is unchanged. |
| `CTFloat.BytesOfWordOf` | gen/ctfloat.cpp:25 | Eight bytes read as a `uint64_t` and stored back are unchanged. |
| `CTFloat.LeValueBound` | gen/ctfloat.cpp:25 | Eight bytes always make a value that fits in a `uint64_t`. |
| `CTFloat.LeBytesOfLeValue` | gen/ctfloat.cpp:25 | Base-256 digits survive conversion to a number and back. |
| `CTFloat.LeValueOfLeBytes` | gen/ctfloat.cpp:25 | A number that fits in `k` bytes survives conversion to digits and back. |
| `CTFloat.UnpackPrefix` | gen/ctfloat.cpp:40-44 | Writing the first `k` words gives the first `8k` storage bytes, so `APInt(…, 2, u.bits)` sees exactly the first sixteen bytes. |
| `CTFloat.WideRealHasTwoWords` | gen/ctfloat.cpp:21-26 | A `real_t` wider than 8 bytes makes at least the two words that the APInt constructors read. |
| `CTFloat.UnionBitsIgnoreTailInFullWords` | gen/ctfloat.cpp:23-27 | Every word made entirely of `real_t` bytes is independent of the unwritten union bytes. |
| `CTFloat.UnwrittenTailReachesUnionWords` | gen/ctfloat.cpp:23-40 | A 12-byte `real_t` on x86 shows that the unwritten union bytes reach the second union word and so the words handed to APInt. Nothing may take them as zero. |
| `IrFunctions.NewIrFunction` | ir/irfunction.h:55-93 | A new record is tied to its declaration and its declared type. It has `depth == -1`, no frame type, alignment 0 and no nested context created. No argument slot (`sretArg`, `thisArg`, `nestArg`, `_arguments`, `_argptr`) is set. There is no subprogram, no lexical block and no debug variable. No fast-math flag is on, and there is no LLVM function. |
| `IrFunctions.SetLLVMFunc` | ir/irfunction.h:37-41 | `getLLVMFunc` returns the stored handle afterwards; no other member changes. |
| `IrFunctions.GetLLVMFunc` | ir/irfunction.h:39-41 | Reads the private handle and nothing else. What a caller gets from it is fixed by `SetLLVMFunc` (the handle last set) and `NewIrFunction` (null before any set). |
| `IrFunctions.GetLLVMCallee` | ir/irfunction.h:51-53 | Returns what the call policy makes of the stored function. With no wrapper, that is exactly `getLLVMFunc`. |
| `IrFunctions.CalleeAndFunctionReadPaths` | ir/irfunction.h:37-53 | After `setLLVMFunc(fn)`, `getLLVMFunc` returns `fn`. `getLLVMCallee` returns `fn` when no wrapper is used, and the wrapper's choice otherwise. |
| `IrFunctions.PushLexicalBlock` | ir/irfunction.h:76 | A push puts the block on top of the stack and keeps the blocks below it. No other member changes. |
| `IrFunctions.TopLexicalBlock` | ir/irfunction.h:76 | The top of a non-empty stack is its last element. That this is the most recently pushed one is `PushLexicalBlock`'s contract and `PushedBlocksComeBackInReverse`. |
| `IrFunctions.PopLexicalBlock` | ir/irfunction.h:76 | A pop needs a non-empty stack and removes exactly its top. No other member changes. |
| `IrFunctions.PopUndoesPush` | ir/irfunction.h:76 | A pop after a push restores the record and the previous top. |
| `IrFunctions.PushLexicalBlocks` | ir/irfunction.h:76 | Pushing `N` blocks grows the stack by `N`. |
| `IrFunctions.PopLexicalBlocks` | ir/irfunction.h:76 | Popping `N` blocks shrinks the stack by `N`. |
| `IrFunctions.PushLexicalBlocksAppends` | ir/irfunction.h:76 | Pushing blocks appends them in order and changes nothing else. |
| `IrFunctions.PopLexicalBlocksTruncates` | ir/irfunction.h:76 | Popping `N` blocks drops the `N` most recent ones and changes nothing else. |
| `IrFunctions.PushThenPopRestores` | ir/irfunction.h:76 | Pushing `N` blocks and popping `N` restores the record, so an empty stack is empty again. |
| `IrFunctions.PushedBlocksComeBackInReverse` | ir/irfunction.h:76 | The stack is last-in first-out: after `k` pops, the top is the block pushed `k` places before the last. |
| `IrFunctions.PopOnEmptyFails` | ir/irfunction.h:76 | Once any sequence of steps has left the lexical-block stack empty, a pop is a contract violation that stops the run, whatever steps would follow. |
| `IrFunctions.RunAppend` | ir/irfunction.h:76 | Running two step sequences one after the other is running their concatenation, and a violation in the first stops the whole run. |
| `IrFunctions.SetVariable` | ir/irfunction.h:77-84 | Recording a debug variable gives that variable exactly that entry. Every other variable and every other member are unchanged. |
| `IrFunctions.OneDebugVariablePerKey` | ir/irfunction.h:77-84 | A variable has at most one debug variable: a second record replaces the first and adds no entry. |
| `IrFunctions.StepsKeepWiring` | ir/irfunction.h:55-84 | Setting the LLVM function, pushing and popping lexical blocks, and recording debug variables never change the other members. These are the declaration, the argument slots, the nested context and the fast-math flags. So a record whose nested context is at its defaults (`depth == -1`, no frame type, no created context) keeps them under these steps. |
| `IrFunctions.IsIrFuncCreated` | ir/irfunction.h:97 | True exactly when the declaration's address has a record. `LookupOnlyIsPure` shows that a default `getIrFunc` finds a record exactly when this holds, and `GetIrFunc`'s contract shows that it holds after a creating lookup. |
| `IrFunctions.GetIrFunc` | ir/irfunction.h:96 | Records are keyed by the declaration's address. An existing record is returned unchanged, whatever `create` says. Without one, `create` builds a fresh record and registers it, and otherwise the result is null with no effect. The result is non-null exactly when a record now exists. Other declarations' records are untouched, and every record stays tied to its own declaration. |
| `IrFunctions.StoreIrFunc` | ir/irfunction.h:96 | A change made through the returned record is what later lookups see. No other declaration's record changes. |
| `IrFunctions.CreateIsIdempotent` | ir/irfunction.h:96-97 | Once created, a record is found by every later lookup of that declaration, and asking again creates nothing. |
| `IrFunctions.CreationsAddAtMostOneRecordEach` | ir/irfunction.h:96-97 | A series of creations adds at most one record per request. That two declarations at one address share a record follows from the registry being keyed by address. |
| `IrFunctions.CreateTwiceIsCreateOnce` | ir/irfunction.h:96-97 | In any registry, creating a record twice for one declaration has exactly the effect of creating it once. |
| `IrFunctions.LookupOnlyIsPure` | ir/irfunction.h:96-97 | By default `getIrFunc` only looks up: the registry is unchanged, and it finds a record exactly when `isIrFuncCreated` holds. |
| `IrFunctions.CreateAll` | ir/irfunction.h:96-97 | Creating records for a list of declarations registers exactly those declarations in addition to the existing ones. Records already registered are returned unchanged. |
| `IrFunctions.CreateAllMakesFreshRecords` | ir/irfunction.h:96-97 | Each address a series of creations adds holds a fresh record of the first declaration requested at that address. |
| `IrFunctions.RegistryRecordsBelongToTheirDecl` | ir/irfunction.h:96-97 | After any series of creations, every record in the registry belongs to the declaration it is looked up by. |
| `IrFunctions.DtoFunction` | ir/irfunction.h:99-101 | Needs a record that exists or may be created. Gives that record's own LLVM function, with the same effect on the registry as `getIrFunc`, after which the record exists. |
| `IrFunctions.DtoCallee` | ir/irfunction.h:103-105 | Gives the function used for calls: the wrapper policy applied to `DtoFunction`'s result, with the same effect on the registry. With no wrapper, both give the same function. |
| `IrFunctions.NewRecordHasNoFunction` | ir/irfunction.h:93-105 | A freshly created record has a null LLVM function on both read paths when no wrapper is used. Without `create`, `getIrFunc` finds nothing. |

## Left out

- `static_cast<double>(src)` (gen/ctfloat.cpp:17) is floating-point numerics. It is the function parameter `toDouble`, applied to the storage bytes.
- APFloat and APInt semantics are foreign LLVM classes. The result is kept as a format tag, a bit width and two words. How APInt truncates to 80 bits, and how APFloat reads the bits, is not modelled.
- The LLVM-version `#if` branches (gen/ctfloat.cpp:29-37, ir/irfunction.h:46-49, 74-82) only pick API spellings. The model follows the newer spelling.
- CTFloat.ToAPFloat: models the build with assertions enabled, where `sizeof(real_t) < 8` aborts. With assertions off, the C++ would go on to read two words from a smaller union. That path is not modelled.
- `IrFuncTy irFty` is defined in ir/irfuncty.h, which is not part of this model.
- The bodies of `setNeverInline`, `setAlwaysInline`, `getCallingConv`, `getLLVMFuncType`, `getLLVMFuncName` and the personality-function accessors are defined in irfunction.cpp, which this model does not cover.
- `getLLVMCallee`'s wrapper policy (for example, JIT wrappers) is defined in irfunction.cpp, which this model does not cover. It is the parameter `CalleePolicy`.
- IrFunctions.NewIrFunction: the constructor body is defined in irfunction.cpp, which this model does not cover. The model takes it to tie the record to the declaration and to the declaration's type, with every other member at its in-class default.
- IrFunctions.SetLLVMFunc: the header does not say whether re-binding is rejected. The model overwrites and adds no "only once" precondition.
- IrFunctions.GetIrFunc: the body is defined in irfunction.cpp, which this model does not cover. A lookup without `create` and without a record returns null (`None`) with no effect. The model does not abort in that case.
- IrFunctions.DtoFunction: does not create the LLVM function when the record has none. It returns the stored handle, which may be null. It requires that the record exist or that `create` be set, because the C++ dereferences the record `getIrFunc` returns; a call without a record and without `create` is not modelled.
- IrFunctions.DtoCallee: has the same requirement as `DtoFunction`, for the same reason.
- `CTFloat.APFloat`'s `Tagged` case keeps both words whole, including the bits above `bitWidth` that APInt discards (bits 80 to 127 for x87 double-extended). Two tagged results that differ only there stand for the same APFloat.
- A declaration is identified by its address (`FuncDeclaration.addr`), which is the registry key. The model does not constrain the declared type carried with the address; a record keeps the type it was created with.
- Record identity is not modelled. Records are values, and a change to a record becomes visible through `StoreIrFunc`, which stands for writing through the returned pointer.
- `llvm::FastMathFlags` is an opaque set of flag numbers. `diSubprogram` is stored, but no operation in the header sets it.
- IrFunctions.StepsKeepWiring: `depth`, `frameType`, `frameTypeAlignment`, `nestedContextCreated` and the argument slots are public members. The nested-context and argument-wiring code that assigns them is not part of this model, and no modelled step writes them. The lemma says only that the modelled steps leave them alone. It says nothing about what the values are for a function with or without captured variables.
- The registry has no locking or concurrency, and the source has none either.
- Integer widths: `depth` is a 32-bit `int`, and `frameTypeAlignment` is a 32-bit `unsigned`. They appear as bounded subset types. No arithmetic is done on them.
