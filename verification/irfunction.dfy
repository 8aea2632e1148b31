/**
 Codegen state of a D function (`IrFunction`) and the registry that maps
 each `FuncDeclaration` to its record (`getIrFunc`, `isIrFuncCreated`,
 `DtoFunction`, `DtoCallee`).

 LLVM objects (functions, values, struct types, debug-info nodes) are
 opaque nullable pointers. The record is an immutable value: a member
 function that changes the record returns the changed record, and the
 registry is an explicit value that lookups thread through.
 */
module IrFunctions {

  datatype Option<T> = None | Some(value: T)

  /** A nullable pointer to an object this model does not look into. */
  datatype Ptr = Null | Addr(id: nat)

  /** A front-end function declaration, standing for the `FuncDeclaration*`
      that identifies it; `declaredType` is the `TypeFunction*` it carries. */
  datatype FuncDeclaration = FuncDeclaration(addr: nat, declaredType: Ptr)

  /** A `VarDeclaration*`, used only as a key of the variable map. */
  type VarDeclaration = nat

  /** C++ `int` and `unsigned`. */
  type int32 = x: int | -0x8000_0000 <= x < 0x8000_0000
  type uint32 = x: int | 0 <= x < 0x1_0000_0000

  /** `llvm::FastMathFlags`: the set of relaxations that are on, each
      identified by an opaque number. */
  type FastMathFlags = set<nat>

  /** `struct IrFunction`. `func` is the private LLVM function handle: only
      `SetLLVMFunc` writes it, and only `GetLLVMFunc`/`GetLLVMCallee` read it. */
  datatype IrFunction = IrFunction(
    decl: Option<FuncDeclaration>,
    funcType: Ptr,
    sretArg: Ptr,
    thisArg: Ptr,
    nestArg: Ptr,
    frameType: Ptr,
    frameTypeAlignment: uint32,
    depth: int32,
    nestedContextCreated: bool,
    arguments: Ptr,
    argptr: Ptr,
    diSubprogram: Ptr,
    diLexicalBlocks: seq<Ptr>,
    variableMap: map<VarDeclaration, Ptr>,
    fmf: FastMathFlags,
    func: Ptr)

  // ---------------------------------------------------------------------------
  // Construction
  // ---------------------------------------------------------------------------

  /** No nested context: no frame type, no alignment, no enclosing function
      whose variables are accessed, and no context created. */
  predicate NoNestedContext(f: IrFunction)
  {
    && f.frameType == Null
    && f.frameTypeAlignment == 0
    && f.depth == -1
    && !f.nestedContextCreated
  }

  /** None of the argument slots has been wired. */
  predicate NoArgumentsWired(f: IrFunction)
  {
    && f.sretArg == Null
    && f.thisArg == Null
    && f.nestArg == Null
    && f.arguments == Null
    && f.argptr == Null
  }

  /** No debug information has been attached yet. */
  predicate NoDebugInfo(f: IrFunction)
  {
    && f.diSubprogram == Null
    && |f.diLexicalBlocks| == 0
    && f.variableMap == map[]
  }

  /** `IrFunction(fd)`: every member at its in-class default, except that the
      record is tied to its declaration and the declaration's type. */
  function NewIrFunction(fd: FuncDeclaration): (f: IrFunction)
    ensures f.decl == Some(fd) && f.funcType == fd.declaredType
    ensures NoNestedContext(f)
    ensures NoArgumentsWired(f)
    ensures NoDebugInfo(f)
    ensures f.fmf == {}
    ensures GetLLVMFunc(f) == Null
  {
    IrFunction(
      decl := Some(fd),
      funcType := fd.declaredType,
      sretArg := Null,
      thisArg := Null,
      nestArg := Null,
      frameType := Null,
      frameTypeAlignment := 0,
      depth := -1,
      nestedContextCreated := false,
      arguments := Null,
      argptr := Null,
      diSubprogram := Null,
      diLexicalBlocks := [],
      variableMap := map[],
      fmf := {},
      func := Null)
  }

  // ---------------------------------------------------------------------------
  // The LLVM function and the callee
  // ---------------------------------------------------------------------------

  /** `setLLVMFunc`: stores the handle and touches nothing else. */
  function SetLLVMFunc(f: IrFunction, fn: Ptr): (g: IrFunction)
    ensures GetLLVMFunc(g) == fn
    ensures g.(func := f.func) == f
  {
    f.(func := fn)
  }

  /** `getLLVMFunc`: the associated LLVM function itself. */
  function GetLLVMFunc(f: IrFunction): (p: Ptr)
    ensures p == f.func
  {
    f.func
  }

  /** How calls reach a function: maps the LLVM function to the one calls
      should use (possibly a wrapper). Its policy is not part of this model. */
  type CalleePolicy = Ptr -> Ptr

  /** The policy under which calls use the function itself. */
  function NoWrapper(): (policy: CalleePolicy)
  {
    p => p
  }

  /** `getLLVMCallee`: the LLVM function to be used for calls. */
  function GetLLVMCallee(f: IrFunction, policy: CalleePolicy): (c: Ptr)
    ensures c == policy(f.func)
    ensures (forall p :: policy(p) == p) ==> c == GetLLVMFunc(f)
  {
    policy(GetLLVMFunc(f))
  }

  /** Without a wrapper both read paths give the stored function; a wrapper
      changes only what calls use, never the function itself. */
  lemma CalleeAndFunctionReadPaths(f: IrFunction, fn: Ptr, policy: CalleePolicy)
    ensures GetLLVMFunc(SetLLVMFunc(f, fn)) == fn
    ensures GetLLVMCallee(SetLLVMFunc(f, fn), NoWrapper()) == fn
    ensures GetLLVMCallee(SetLLVMFunc(f, fn), policy) == policy(fn)
  {
  }

  // ---------------------------------------------------------------------------
  // Debug scopes
  // ---------------------------------------------------------------------------

  /** `diLexicalBlocks.push(b)`. The top of the stack is the last element. */
  function PushLexicalBlock(f: IrFunction, b: Ptr): (g: IrFunction)
    ensures |g.diLexicalBlocks| == |f.diLexicalBlocks| + 1
    ensures TopLexicalBlock(g) == b
    ensures g.diLexicalBlocks[..|f.diLexicalBlocks|] == f.diLexicalBlocks
    ensures g.(diLexicalBlocks := f.diLexicalBlocks) == f
  {
    f.(diLexicalBlocks := f.diLexicalBlocks + [b])
  }

  /** `diLexicalBlocks.top()`; `std::stack` has no top when it is empty. */
  function TopLexicalBlock(f: IrFunction): (t: Ptr)
    requires |f.diLexicalBlocks| > 0
    ensures t == f.diLexicalBlocks[|f.diLexicalBlocks| - 1]
  {
    f.diLexicalBlocks[|f.diLexicalBlocks| - 1]
  }

  /** `diLexicalBlocks.pop()`; popping an empty `std::stack` is not allowed. */
  function PopLexicalBlock(f: IrFunction): (g: IrFunction)
    requires |f.diLexicalBlocks| > 0
    ensures |g.diLexicalBlocks| == |f.diLexicalBlocks| - 1
    ensures f.diLexicalBlocks == g.diLexicalBlocks + [TopLexicalBlock(f)]
    ensures g.(diLexicalBlocks := f.diLexicalBlocks) == f
  {
    f.(diLexicalBlocks := f.diLexicalBlocks[..|f.diLexicalBlocks| - 1])
  }

  /** Popping undoes the push before it, so the previous top is back. */
  lemma PopUndoesPush(f: IrFunction, b: Ptr)
    ensures PopLexicalBlock(PushLexicalBlock(f, b)) == f
    ensures |f.diLexicalBlocks| > 0 ==>
              TopLexicalBlock(PopLexicalBlock(PushLexicalBlock(f, b))) == TopLexicalBlock(f)
  {
    assert (f.diLexicalBlocks + [b])[..|f.diLexicalBlocks|] == f.diLexicalBlocks;
  }

  /** Enters the blocks `bs` in order. */
  function PushLexicalBlocks(f: IrFunction, bs: seq<Ptr>): (g: IrFunction)
    ensures |g.diLexicalBlocks| == |f.diLexicalBlocks| + |bs|
    decreases |bs|
  {
    if |bs| == 0 then f else PushLexicalBlocks(PushLexicalBlock(f, bs[0]), bs[1..])
  }

  /** Leaves `n` blocks. */
  function PopLexicalBlocks(f: IrFunction, n: nat): (g: IrFunction)
    requires n <= |f.diLexicalBlocks|
    ensures |g.diLexicalBlocks| == |f.diLexicalBlocks| - n
    decreases n
  {
    if n == 0 then f else PopLexicalBlocks(PopLexicalBlock(f), n - 1)
  }

  /** Pushing blocks appends them to the stack and changes nothing else. */
  lemma {:induction false} PushLexicalBlocksAppends(f: IrFunction, bs: seq<Ptr>)
    ensures PushLexicalBlocks(f, bs) == f.(diLexicalBlocks := f.diLexicalBlocks + bs)
    decreases |bs|
  {
    if |bs| > 0 {
      PushLexicalBlocksAppends(PushLexicalBlock(f, bs[0]), bs[1..]);
      assert f.diLexicalBlocks + [bs[0]] + bs[1..] == f.diLexicalBlocks + bs;
    }
  }

  /** Popping `n` blocks drops the `n` most recent ones and changes nothing else. */
  lemma {:induction false} PopLexicalBlocksTruncates(f: IrFunction, n: nat)
    requires n <= |f.diLexicalBlocks|
    ensures PopLexicalBlocks(f, n)
            == f.(diLexicalBlocks := f.diLexicalBlocks[..|f.diLexicalBlocks| - n])
    decreases n
  {
    if n > 0 {
      var g := PopLexicalBlock(f);
      PopLexicalBlocksTruncates(g, n - 1);
      assert g.diLexicalBlocks[..|g.diLexicalBlocks| - (n - 1)]
             == f.diLexicalBlocks[..|f.diLexicalBlocks| - n];
    }
  }

  /** Pushing `N` blocks and popping `N` restores the record. */
  lemma {:induction false} PushThenPopRestores(f: IrFunction, bs: seq<Ptr>)
    ensures PopLexicalBlocks(PushLexicalBlocks(f, bs), |bs|) == f
  {
    var g := PushLexicalBlocks(f, bs);
    PushLexicalBlocksAppends(f, bs);
    PopLexicalBlocksTruncates(g, |bs|);
    assert (f.diLexicalBlocks + bs)[..|f.diLexicalBlocks|] == f.diLexicalBlocks;
  }

  /** The stack is last-in first-out: after pushing `bs` and popping `k` of
      them, the top is the block pushed `k` places before the last. */
  lemma {:induction false} PushedBlocksComeBackInReverse(f: IrFunction, bs: seq<Ptr>, k: nat)
    requires k < |bs|
    ensures TopLexicalBlock(PopLexicalBlocks(PushLexicalBlocks(f, bs), k)) == bs[|bs| - 1 - k]
  {
    var g := PushLexicalBlocks(f, bs);
    PushLexicalBlocksAppends(f, bs);
    var h := PopLexicalBlocks(g, k);
    PopLexicalBlocksTruncates(g, k);
    LastOfTruncatedAppend(f.diLexicalBlocks, bs, k);
    assert h.diLexicalBlocks == (f.diLexicalBlocks + bs)[..|f.diLexicalBlocks| + |bs| - k];
  }

  /** Sequence fact behind the lemma above: cutting `k` elements off `a + bs`
      leaves `bs[|bs| - 1 - k]` last. */
  lemma LastOfTruncatedAppend(a: seq<Ptr>, bs: seq<Ptr>, k: nat)
    requires k < |bs|
    ensures var stack := (a + bs)[..|a| + |bs| - k];
            |stack| > 0 && stack[|stack| - 1] == bs[|bs| - 1 - k]
  {
  }

  // ---------------------------------------------------------------------------
  // Debug variables
  // ---------------------------------------------------------------------------

  /** The debug variable recorded for `v`, if there is one. */
  function LookupVariable(f: IrFunction, v: VarDeclaration): (r: Option<Ptr>)
  {
    if v in f.variableMap then Some(f.variableMap[v]) else None
  }

  /** `variableMap[v] = dv`: `v` now has exactly `dv`; every other variable
      and every other member keep what they had. */
  function SetVariable(f: IrFunction, v: VarDeclaration, dv: Ptr): (g: IrFunction)
    ensures LookupVariable(g, v) == Some(dv)
    ensures forall w :: w != v ==> LookupVariable(g, w) == LookupVariable(f, w)
    ensures g.variableMap.Keys == f.variableMap.Keys + {v}
    ensures g.(variableMap := f.variableMap) == f
  {
    f.(variableMap := f.variableMap[v := dv])
  }

  /** A variable has at most one debug variable: recording a second one
      replaces the first and does not add an entry. */
  lemma OneDebugVariablePerKey(f: IrFunction, v: VarDeclaration, d1: Ptr, d2: Ptr)
    ensures SetVariable(SetVariable(f, v, d1), v, d2) == SetVariable(f, v, d2)
    ensures |SetVariable(SetVariable(f, v, d1), v, d2).variableMap| <= |f.variableMap| + 1
  {
    assert f.variableMap[v := d1][v := d2] == f.variableMap[v := d2];
  }

  // ---------------------------------------------------------------------------
  // Updates after construction
  // ---------------------------------------------------------------------------

  /** The record updates this model covers. */
  datatype Step =
    | SetFunc(fn: Ptr)
    | PushBlock(block: Ptr)
    | PopBlock
    | SetVar(v: VarDeclaration, dv: Ptr)

  /** Applies the steps in order; `None` when a pop meets an empty stack. */
  function Run(f: IrFunction, steps: seq<Step>): (r: Option<IrFunction>)
    decreases |steps|
  {
    if |steps| == 0 then Some(f)
    else
      match steps[0]
      case SetFunc(fn) => Run(SetLLVMFunc(f, fn), steps[1..])
      case PushBlock(b) => Run(PushLexicalBlock(f, b), steps[1..])
      case SetVar(v, dv) => Run(SetVariable(f, v, dv), steps[1..])
      case PopBlock =>
        if |f.diLexicalBlocks| == 0 then None
        else Run(PopLexicalBlock(f), steps[1..])
  }

  /** The members none of these steps write: the declaration, the argument
      slots, the nested context and the fast-math flags. */
  predicate SameWiring(f: IrFunction, g: IrFunction)
  {
    && g.decl == f.decl && g.funcType == f.funcType
    && g.sretArg == f.sretArg && g.thisArg == f.thisArg && g.nestArg == f.nestArg
    && g.frameType == f.frameType && g.frameTypeAlignment == f.frameTypeAlignment
    && g.depth == f.depth && g.nestedContextCreated == f.nestedContextCreated
    && g.arguments == f.arguments && g.argptr == f.argptr
    && g.fmf == f.fmf
  }

  /** Debug scopes, debug variables and the LLVM function never touch the
      other members: a record whose nested context is at its defaults keeps
      them under these steps. */
  lemma {:induction false} StepsKeepWiring(f: IrFunction, steps: seq<Step>)
    requires Run(f, steps).Some?
    ensures SameWiring(f, Run(f, steps).value)
    ensures NoNestedContext(f) ==> NoNestedContext(Run(f, steps).value)
    decreases |steps|
  {
    if |steps| > 0 {
      match steps[0]
      case SetFunc(fn) => StepsKeepWiring(SetLLVMFunc(f, fn), steps[1..]);
      case PushBlock(b) => StepsKeepWiring(PushLexicalBlock(f, b), steps[1..]);
      case SetVar(v, dv) => StepsKeepWiring(SetVariable(f, v, dv), steps[1..]);
      case PopBlock => StepsKeepWiring(PopLexicalBlock(f), steps[1..]);
    }
  }

  /** Running two lists of steps in turn is running their concatenation; a
      violation in the first stops the whole run. */
  lemma {:induction false} RunAppend(f: IrFunction, a: seq<Step>, b: seq<Step>)
    ensures Run(f, a + b) == (if Run(f, a).Some? then Run(Run(f, a).value, b) else None)
    decreases |a|
  {
    if |a| == 0 {
      assert a + b == b;
    } else {
      assert (a + b)[0] == a[0];
      assert (a + b)[1..] == a[1..] + b;
      match a[0]
      case SetFunc(fn) => RunAppend(SetLLVMFunc(f, fn), a[1..], b);
      case PushBlock(bl) => RunAppend(PushLexicalBlock(f, bl), a[1..], b);
      case SetVar(v, dv) => RunAppend(SetVariable(f, v, dv), a[1..], b);
      case PopBlock =>
        if |f.diLexicalBlocks| > 0 {
          RunAppend(PopLexicalBlock(f), a[1..], b);
        }
    }
  }

  /** Popping an empty stack is a contract violation wherever it happens:
      whatever ran before and whatever would come after. */
  lemma {:induction false} PopOnEmptyFails(f: IrFunction, pre: seq<Step>, post: seq<Step>)
    requires Run(f, pre).Some? && |Run(f, pre).value.diLexicalBlocks| == 0
    ensures Run(f, pre + [PopBlock] + post) == None
  {
    RunAppend(f, pre, [PopBlock] + post);
    assert pre + [PopBlock] + post == pre + ([PopBlock] + post);
    assert ([PopBlock] + post)[0] == PopBlock;
  }

  // ---------------------------------------------------------------------------
  // The registry
  // ---------------------------------------------------------------------------

  /** The records created so far, keyed by the address of their
      declaration, so a declaration has at most one record. */
  datatype Registry = Registry(records: map<nat, IrFunction>)

  /** Every record belongs to the declaration it is registered under. */
  predicate ValidRegistry(reg: Registry)
  {
    forall a :: a in reg.records ==>
      reg.records[a].decl.Some? && reg.records[a].decl.value.addr == a
  }

  /** The registry after `getIrFunc`, and the record it returned (`None` for null). */
  datatype Lookup = Lookup(registry: Registry, found: Option<IrFunction>)

  /** `isIrFuncCreated(decl)`: whether a record exists, with no effect. */
  function IsIrFuncCreated(reg: Registry, decl: FuncDeclaration): (b: bool)
    ensures b <==> decl.addr in reg.records
  {
    decl.addr in reg.records
  }

  /** `getIrFunc(decl, create)`: the existing record whatever `create` says;
      otherwise a new record when `create` is set, and null when it is not. */
  function GetIrFunc(reg: Registry, decl: FuncDeclaration, create: bool := false): (l: Lookup)
    ensures IsIrFuncCreated(reg, decl) ==> l == Lookup(reg, Some(reg.records[decl.addr]))
    ensures !IsIrFuncCreated(reg, decl) && !create ==> l == Lookup(reg, None)
    ensures !IsIrFuncCreated(reg, decl) && create ==> l.found == Some(NewIrFunction(decl))
    ensures l.found.Some? <==> IsIrFuncCreated(l.registry, decl)
    ensures l.found.Some? ==> l.registry.records[decl.addr] == l.found.value
    ensures l.registry.records.Keys == reg.records.Keys + (if create then {decl.addr} else {})
    ensures forall a :: a != decl.addr && a in reg.records ==> l.registry.records[a] == reg.records[a]
    ensures ValidRegistry(reg) ==> ValidRegistry(l.registry)
    ensures ValidRegistry(reg) && l.found.Some? ==> l.found.value.decl.value.addr == decl.addr
  {
    if decl.addr in reg.records then
      Lookup(reg, Some(reg.records[decl.addr]))
    else if create then
      var f := NewIrFunction(decl);
      Lookup(Registry(reg.records[decl.addr := f]), Some(f))
    else
      Lookup(reg, None)
  }

  /** Writes a changed record back, as code holding the `IrFunction*` does. */
  function StoreIrFunc(reg: Registry, decl: FuncDeclaration, f: IrFunction): (r: Registry)
    requires IsIrFuncCreated(reg, decl)
    ensures r.records.Keys == reg.records.Keys
    ensures GetIrFunc(r, decl).found == Some(f)
    ensures forall d: FuncDeclaration :: d.addr != decl.addr ==> GetIrFunc(r, d).found == GetIrFunc(reg, d).found
  {
    Registry(reg.records[decl.addr := f])
  }

  /** Once created, a record is found by every later lookup of the same
      declaration, with or without `create`, and asking again creates nothing. */
  lemma CreateIsIdempotent(reg: Registry, decl: FuncDeclaration, again: FuncDeclaration, create: bool)
    requires again.addr == decl.addr
    ensures var l := GetIrFunc(reg, decl, true);
            && IsIrFuncCreated(l.registry, again)
            && GetIrFunc(l.registry, again, create) == Lookup(l.registry, l.found)
  {
  }

  /** A lookup without `create` has no effect on the registry. */
  lemma LookupOnlyIsPure(reg: Registry, decl: FuncDeclaration)
    ensures GetIrFunc(reg, decl).registry == reg
    ensures GetIrFunc(reg, decl).found.Some? <==> IsIrFuncCreated(reg, decl)
  {
  }

  /** `getIrFunc(d, true)` for every `d` in turn: records already registered
      are returned unchanged. */
  function CreateAll(reg: Registry, decls: seq<FuncDeclaration>): (r: Registry)
    ensures r.records.Keys == reg.records.Keys + set d | d in decls :: d.addr
    ensures forall a :: a in reg.records ==> r.records[a] == reg.records[a]
    decreases |decls|
  {
    if |decls| == 0 then reg
    else CreateAll(GetIrFunc(reg, decls[0], true).registry, decls[1..])
  }

  /** Each address a series of creations adds holds a fresh record of the
      first declaration asked for at that address. */
  lemma {:induction false} CreateAllMakesFreshRecords(reg: Registry, decls: seq<FuncDeclaration>, i: nat)
    requires i < |decls| && decls[i].addr !in reg.records
    requires forall j :: 0 <= j < i ==> decls[j].addr != decls[i].addr
    ensures CreateAll(reg, decls).records[decls[i].addr] == NewIrFunction(decls[i])
    decreases |decls|
  {
    var next := GetIrFunc(reg, decls[0], true).registry;
    if i > 0 {
      assert decls[1..][i - 1] == decls[i];
      CreateAllMakesFreshRecords(next, decls[1..], i - 1);
    } else {
      assert next.records[decls[0].addr] == NewIrFunction(decls[0]);
    }
  }

  /** A record returned by the registry stays tied to its declaration, so no
      declaration ever sees another's record. */
  lemma {:induction false} RegistryRecordsBelongToTheirDecl(reg: Registry, decls: seq<FuncDeclaration>, decl: FuncDeclaration)
    requires ValidRegistry(reg)
    ensures ValidRegistry(CreateAll(reg, decls))
    ensures GetIrFunc(CreateAll(reg, decls), decl).found.Some? ==>
              GetIrFunc(CreateAll(reg, decls), decl).found.value.decl.value.addr == decl.addr
    decreases |decls|
  {
    if |decls| > 0 {
      var l := GetIrFunc(reg, decls[0], true);
      RegistryRecordsBelongToTheirDecl(l.registry, decls[1..], decl);
    }
  }

  /** A series of creations adds at most one record per request. */
  lemma {:induction false} CreationsAddAtMostOneRecordEach(reg: Registry, decls: seq<FuncDeclaration>)
    ensures |CreateAll(reg, decls).records| <= |reg.records| + |decls|
    decreases |decls|
  {
    if |decls| > 0 {
      var l := GetIrFunc(reg, decls[0], true);
      assert |l.registry.records| <= |reg.records| + 1 by {
        assert l.registry.records.Keys == reg.records.Keys + {decls[0].addr};
        assert |l.registry.records.Keys| <= |reg.records.Keys| + |{decls[0].addr}|;
      }
      CreationsAddAtMostOneRecordEach(l.registry, decls[1..]);
    }
  }

  /** Asking twice for one declaration, in any registry, is asking once. */
  lemma CreateTwiceIsCreateOnce(reg: Registry, d: FuncDeclaration)
    ensures CreateAll(reg, [d, d]) == CreateAll(reg, [d])
  {
    assert [d, d][1..] == [d];
    assert [d][1..] == [];
    assert [d, d][1..][1..] == [];
  }

  /** The registry after `DtoFunction`/`DtoCallee`, and the LLVM function returned. */
  datatype Resolved = Resolved(registry: Registry, llvmFunc: Ptr)

  /** `DtoFunction(decl, create)`: the record's own LLVM function. The record
      is dereferenced, so it has to exist already or be created. */
  function DtoFunction(reg: Registry, decl: FuncDeclaration, create: bool := false): (r: Resolved)
    requires create || IsIrFuncCreated(reg, decl)
    ensures r.registry == GetIrFunc(reg, decl, create).registry
    ensures IsIrFuncCreated(r.registry, decl)
    ensures r.llvmFunc == GetLLVMFunc(r.registry.records[decl.addr])
  {
    var l := GetIrFunc(reg, decl, create);
    Resolved(l.registry, GetLLVMFunc(l.found.value))
  }

  /** `DtoCallee(decl, create)`: the LLVM function calls use. */
  function DtoCallee(reg: Registry, decl: FuncDeclaration, policy: CalleePolicy, create: bool := false): (r: Resolved)
    requires create || IsIrFuncCreated(reg, decl)
    ensures r.registry == DtoFunction(reg, decl, create).registry
    ensures r.llvmFunc == policy(DtoFunction(reg, decl, create).llvmFunc)
    ensures (forall p :: policy(p) == p) ==> r.llvmFunc == DtoFunction(reg, decl, create).llvmFunc
  {
    var l := GetIrFunc(reg, decl, create);
    Resolved(l.registry, GetLLVMCallee(l.found.value, policy))
  }

  /** A freshly created record has no LLVM function yet, on either read path
      unless a wrapper says otherwise; without `create` nothing is found. */
  lemma NewRecordHasNoFunction(reg: Registry, decl: FuncDeclaration)
    requires !IsIrFuncCreated(reg, decl)
    ensures DtoFunction(reg, decl, true).llvmFunc == Null
    ensures DtoCallee(reg, decl, NoWrapper(), true).llvmFunc == Null
    ensures GetIrFunc(reg, decl).found == None
  {
  }
}
