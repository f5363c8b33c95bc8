/** Program-level metadata checks: names, edges, bindings, exports and the instructions that need them. */
module Metadata {
  import opened Base
  import I = Instructions
  import opened Bytecode
  import opened Programs
  import Exports

  // ---- strings

  predicate IsHigh(u: U16) {
    0xD800 <= u < 0xDC00
  }

  predicate IsLow(u: U16) {
    0xDC00 <= u < 0xE000
  }

  /** Every surrogate is half of a pair. */
  predicate WellFormed(units: EcmaString) {
    if units == [] then true
    else if IsHigh(units[0]) then |units| > 1 && IsLow(units[1]) && WellFormed(units[2..])
    else !IsLow(units[0]) && WellFormed(units[1..])
  }

  const SLASH: U16 := 47
  const BACKSLASH: U16 := 92
  const COLON: U16 := 58
  const DOT: U16 := 46

  /** The parts between slashes. */
  function Parts(units: EcmaString): (parts: seq<EcmaString>)
    ensures |parts| > 0
  {
    if units == [] then [[]]
    else
      var rest := Parts(units[1..]);
      if units[0] == SLASH then [[]] + rest else [[units[0]] + rest[0]] + rest[1..]
  }

  predicate IsNormalizedModuleName(units: EcmaString) {
    && units != []
    && BACKSLASH !in units && 0 !in units
    && (forall part :: part in Parts(units) ==> part != [] && part != [DOT] && part != [DOT, DOT])
    && COLON !in Parts(units)[0]
  }

  predicate IsLetter(u: U16) {
    97 <= u <= 122 || 65 <= u <= 90
  }

  predicate SameLetter(u: U16, lower: U16) {
    u == lower || (97 <= lower <= 122 && u == lower - 32)
  }

  predicate IsAbsoluteSpecifier(units: EcmaString) {
    || (|units| > 0 && (units[0] == SLASH || units[0] == BACKSLASH))
    || (|units| >= 5 && SameLetter(units[0], 102) && SameLetter(units[1], 105) && SameLetter(units[2], 108)
        && SameLetter(units[3], 101) && units[4] == COLON)
    || (|units| >= 2 && IsLetter(units[0]) && units[1] == COLON)
  }

  /** A text is well formed exactly when every high surrogate is followed by a low one and every low
      surrogate preceded by a high one. */
  lemma {:induction false} WellFormedIsPaired(units: EcmaString)
    ensures WellFormed(units) <==> HighsPaired(units) && LowsPaired(units)
    decreases |units|
  {
    if units != [] {
      if IsHigh(units[0]) {
        if |units| > 1 && IsLow(units[1]) {
          var rest := units[2..];
          WellFormedIsPaired(rest);
          assert forall k :: 2 <= k < |units| ==> units[k] == rest[k - 2];
          PairedBehind(units, 2);
        }
      } else if !IsLow(units[0]) {
        var rest := units[1..];
        WellFormedIsPaired(rest);
        PairedBehind(units, 1);
      }
    }
  }

  predicate HighsPaired(units: EcmaString) {
    forall k :: 0 <= k < |units| && IsHigh(units[k]) ==> k + 1 < |units| && IsLow(units[k + 1])
  }

  predicate LowsPaired(units: EcmaString) {
    forall k :: 0 <= k < |units| && IsLow(units[k]) ==> k > 0 && IsHigh(units[k - 1])
  }

  /** Cutting off a well-formed beginning changes nothing. */
  lemma PairedBehind(units: EcmaString, n: nat)
    requires 1 <= n <= 2 && n <= |units|
    requires n == 1 ==> !IsHigh(units[0]) && !IsLow(units[0])
    requires n == 2 ==> IsHigh(units[0]) && IsLow(units[1])
    ensures HighsPaired(units) && LowsPaired(units) <==> HighsPaired(units[n..]) && LowsPaired(units[n..])
  {
    var rest := units[n..];
    assert forall k :: 0 <= k < |rest| ==> rest[k] == units[k + n];
    assert forall k :: n <= k < |units| ==> units[k] == rest[k - n];
  }

  function Joined(parts: seq<EcmaString>): EcmaString
    requires |parts| > 0
  {
    if |parts| == 1 then parts[0] else parts[0] + [SLASH] + Joined(parts[1..])
  }

  /** The parts are what slashes separate: joined by slashes they give the name, and none holds a slash. */
  lemma {:induction false} PartsMean(units: EcmaString)
    ensures Joined(Parts(units)) == units
    ensures forall part :: part in Parts(units) ==> SLASH !in part
  {
    if units != [] {
      var rest := Parts(units[1..]);
      PartsMean(units[1..]);
      var parts := Parts(units);
      if units[0] == SLASH {
        assert parts[1..] == rest;
        assert Joined(parts) == [] + [SLASH] + units[1..];
      } else {
        assert parts[1..] == rest[1..];
        assert rest[0] in rest;
        if |rest| == 1 {
          assert Joined(parts) == [units[0]] + units[1..];
        } else {
          assert Joined(parts) == [units[0]] + (rest[0] + [SLASH] + Joined(rest[1..]));
        }
      }
    }
  }

  function LowerCase(units: EcmaString): (r: EcmaString)
    ensures |r| == |units|
  {
    seq(|units|, k requires 0 <= k < |units| => if 65 <= units[k] <= 90 then units[k] + 32 else units[k])
  }

  const FILE_SCHEME: EcmaString := [102, 105, 108, 101, 58]

  /** Absolute specifiers: a leading slash or backslash, a file scheme or a drive, in either case. */
  lemma AbsoluteSpecifierForms(units: EcmaString)
    ensures IsAbsoluteSpecifier(units) <==>
            || [SLASH] <= units || [BACKSLASH] <= units
            || FILE_SCHEME <= LowerCase(units)
            || (|units| > 1 && 97 <= LowerCase(units)[0] <= 122 && units[1] == COLON)
  {
    var lower := LowerCase(units);
    if |units| >= 5 {
      assert FILE_SCHEME <= lower <==>
        lower[0] == 102 && lower[1] == 105 && lower[2] == 108 && lower[3] == 101 && lower[4] == 58;
    }
  }

  // ---- what the metadata must satisfy

  /** A well-formed string constant. */
  predicate Named(m: ProgramModule, id: nat) {
    StringAt(m.code, id).Some? && WellFormed(StringAt(m.code, id).value)
  }

  predicate StaticEdge(m: ProgramModule, edge: nat) {
    edge < |m.edges| && HasStatic(m.edges[edge].kind)
  }

  predicate EdgeOk(moduleCount: nat, m: ProgramModule, e: Edge) {
    && Named(m, e.specifier)
    && !IsAbsoluteSpecifier(StringAt(m.code, e.specifier).value)
    && (e.target.Local? ==> e.target.moduleId < moduleCount)
  }

  predicate BindingOk(m: ProgramModule, b: Binding) {
    && Named(m, b.name)
    && match b.kind
       case Imported(edge, name) => StaticEdge(m, edge) && Named(m, name)
       case Namespace(edge) => StaticEdge(m, edge)
       case _ => true
  }

  predicate ExportOk(m: ProgramModule, x: Export) {
    && Named(m, x.name)
    && match x.source
       case FromBinding(b) => b < |m.bindings|
       case Indirect(edge, name) => StaticEdge(m, edge) && Named(m, name)
  }

  predicate EdgesOk(moduleCount: nat, m: ProgramModule) {
    && |m.edges| < U32_LIMIT
    && (forall i :: 0 <= i < |m.edges| ==> EdgeOk(moduleCount, m, m.edges[i]))
    && (forall i, j :: 0 <= i < j < |m.edges| ==>
          StringAt(m.code, m.edges[i].specifier) != StringAt(m.code, m.edges[j].specifier))
  }

  predicate BindingsOk(m: ProgramModule) {
    && |m.bindings| < U32_LIMIT
    && (forall i :: 0 <= i < |m.bindings| ==> BindingOk(m, m.bindings[i]))
    && (forall i, j :: 0 <= i < j < |m.bindings| ==>
          StringAt(m.code, m.bindings[i].name) != StringAt(m.code, m.bindings[j].name))
  }

  predicate ExportsOk(m: ProgramModule) {
    && |m.exports| < U32_LIMIT
    && (forall i :: 0 <= i < |m.exports| ==> ExportOk(m, m.exports[i]))
    && (forall i, j :: 0 <= i < j < |m.exports| ==>
          StringAt(m.code, m.exports[i].name) != StringAt(m.code, m.exports[j].name))
  }

  /** An edge that a dynamic import of this specifier can use. */
  predicate HasDynamicEdge(m: ProgramModule, specifier: EcmaString) {
    exists e :: 0 <= e < |m.edges| && StringAt(m.code, m.edges[e].specifier) == Some(specifier)
      && HasDynamic(m.edges[e].kind)
  }

  predicate InstructionLinks(m: ProgramModule, i: I.Instruction) {
    && !i.Export?
    && (i.Import? ==> Named(m, i.specifier) && HasDynamicEdge(m, StringAt(m.code, i.specifier).value))
  }

  predicate FunctionLinks(m: ProgramModule, f: Function) {
    && (f.name.Some? ==> Named(m, f.name.value))
    && forall pc :: 0 <= pc < |f.code| ==> InstructionLinks(m, f.code[pc])
  }

  predicate ModuleMetadataOk(moduleCount: nat, m: ProgramModule) {
    && EdgesOk(moduleCount, m) && BindingsOk(m) && ExportsOk(m)
    && forall i :: 0 <= i < |m.code.functions| ==> FunctionLinks(m, m.code.functions[i])
  }

  predicate ModuleNameOk(m: ProgramModule) {
    Named(m, m.name) && IsNormalizedModuleName(StringAt(m.code, m.name).value)
  }

  predicate ModuleOk(moduleCount: nat, m: ProgramModule) {
    ModuleNameOk(m) && ModuleMetadataOk(moduleCount, m)
  }

  function ModuleName(m: ProgramModule): Option<EcmaString> {
    StringAt(m.code, m.name)
  }

  predicate MetadataOk(p: Program) {
    && 0 < |p.modules| < U32_LIMIT
    && p.entry < |p.modules|
    && (forall i :: 0 <= i < |p.modules| ==> ModuleOk(|p.modules|, p.modules[i]))
    && (forall i, j :: 0 <= i < j < |p.modules| ==> ModuleName(p.modules[i]) != ModuleName(p.modules[j]))
  }

  /** The metadata checks bound every reference the export walk follows. */
  lemma MetadataBounds(p: Program)
    requires MetadataOk(p)
    ensures Exports.Bound(p)
  {
    forall i | 0 <= i < |p.modules|
      ensures Exports.ModuleBound(|p.modules|, p.modules[i])
    {
      var m := p.modules[i];
      assert forall e :: 0 <= e < |m.edges| ==> EdgeOk(|p.modules|, m, m.edges[e]);
      assert forall b :: 0 <= b < |m.bindings| ==> BindingOk(m, m.bindings[b]);
      assert forall x :: 0 <= x < |m.exports| ==> ExportOk(m, m.exports[x]);
    }
  }

  // ---- the checks

  /** Which metadata name an error is about. */
  datatype Role = ModuleNameRole | Specifier(edge: nat) | BindingName(binding: nat) | ImportedName(binding: nat)
                | ExportName(position: nat) | IndirectName(position: nat)

  datatype MetadataError =
    | EmptyProgram
    | TooManyModules
    | EntryModuleOutOfBounds
    | NameOutOfBounds(role: Role, constant: nat)
    | NameNotString(role: Role, constant: nat)
    | MetadataStringIllFormed(constant: nat)
    | InvalidModuleName
    | DuplicateModuleName(first: nat)
    | TooManyEdges
    | TooManyBindings
    | TooManyExports
    | AbsoluteSpecifier(edge: nat)
    | DuplicateSpecifier(first: nat, second: nat)
    | LocalTargetOutOfBounds(edge: nat, target: nat)
    | DuplicateBinding(first: nat, second: nat)
    | BindingEdgeOutOfBounds(binding: nat, edge: nat)
    | StaticBindingRequiresStaticEdge(binding: nat, edge: nat)
    | DuplicateExport(first: nat, second: nat)
    | ExportBindingOutOfBounds(position: nat, binding: nat)
    | ExportEdgeOutOfBounds(position: nat, edge: nat)
    | IndirectExportRequiresStaticEdge(position: nat, edge: nat)
    | DynamicImportMissingEdge(constant: nat)
    | SnapshotExportInstruction(function_: nat, pc: nat)

  function RequiredString(m: ProgramModule, id: nat, role: Role): (r: Result<EcmaString, MetadataError>)
    ensures r.Ok? <==> Named(m, id)
    ensures r.Ok? ==> StringAt(m.code, id) == Some(r.value)
    ensures r.Err? && RoleConstant(m, role) == Some(id) ==> forall moduleCount :: FaultIsReal(moduleCount, m, r.error)
  {
    if id >= |m.code.constants| then Err(NameOutOfBounds(role, id))
    else if !m.code.constants[id].Text? then Err(NameNotString(role, id))
    else if !WellFormed(m.code.constants[id].units) then Err(MetadataStringIllFormed(id))
    else Ok(m.code.constants[id].units)
  }

  /** `seen` maps each of the first `n` names to its position. */
  ghost predicate Seen(names: seq<Option<EcmaString>>, n: nat, seen: map<EcmaString, nat>)
    requires n <= |names|
  {
    && (forall k :: 0 <= k < n ==> names[k].Some? && names[k].value in seen && seen[names[k].value] == k)
    && (forall s :: s in seen ==> seen[s] < n && names[seen[s]] == Some(s))
  }

  lemma SeenIsInjective(names: seq<Option<EcmaString>>, n: nat, seen: map<EcmaString, nat>, i: nat, j: nat)
    requires n <= |names| && Seen(names, n, seen) && i < j < n
    ensures names[i] != names[j]
  {}

  function EdgeNames(m: ProgramModule): (r: seq<Option<EcmaString>>)
    ensures |r| == |m.edges| && forall k :: 0 <= k < |r| ==> r[k] == StringAt(m.code, m.edges[k].specifier)
  {
    seq(|m.edges|, k requires 0 <= k < |m.edges| => StringAt(m.code, m.edges[k].specifier))
  }

  function BindingNames(m: ProgramModule): (r: seq<Option<EcmaString>>)
    ensures |r| == |m.bindings| && forall k :: 0 <= k < |r| ==> r[k] == StringAt(m.code, m.bindings[k].name)
  {
    seq(|m.bindings|, k requires 0 <= k < |m.bindings| => StringAt(m.code, m.bindings[k].name))
  }

  function ExportNames(m: ProgramModule): (r: seq<Option<EcmaString>>)
    ensures |r| == |m.exports| && forall k :: 0 <= k < |r| ==> r[k] == StringAt(m.code, m.exports[k].name)
  {
    seq(|m.exports|, k requires 0 <= k < |m.exports| => StringAt(m.code, m.exports[k].name))
  }

  function ModuleNames(p: Program): (r: seq<Option<EcmaString>>)
    ensures |r| == |p.modules| && forall k :: 0 <= k < |r| ==> r[k] == ModuleName(p.modules[k])
  {
    seq(|p.modules|, k requires 0 <= k < |p.modules| => ModuleName(p.modules[k]))
  }

  /** A reported duplicate is one: an earlier and a later entry with the same name. */
  ghost predicate Duplicates(names: seq<Option<EcmaString>>, first: nat, second: nat) {
    first < second < |names| && names[first].Some? && names[first] == names[second]
  }

  /** The constant that a role of this module names. */
  function RoleConstant(m: ProgramModule, role: Role): Option<nat> {
    match role
    case ModuleNameRole => Some(m.name)
    case Specifier(e) => if e < |m.edges| then Some(m.edges[e].specifier) else None
    case BindingName(b) => if b < |m.bindings| then Some(m.bindings[b].name) else None
    case ImportedName(b) =>
      if b < |m.bindings| && m.bindings[b].kind.Imported? then Some(m.bindings[b].kind.name) else None
    case ExportName(x) => if x < |m.exports| then Some(m.exports[x].name) else None
    case IndirectName(x) =>
      if x < |m.exports| && m.exports[x].source.Indirect? then Some(m.exports[x].source.name) else None
  }

  /** The edge a binding goes through. */
  function BindingEdge(m: ProgramModule, b: nat): Option<nat> {
    if b >= |m.bindings| then None
    else
      match m.bindings[b].kind
      case Imported(edge, _) => Some(edge)
      case Namespace(edge) => Some(edge)
      case _ => None
  }

  /** Some import instruction of the module names this constant. */
  ghost predicate Imports(m: ProgramModule, c: nat) {
    exists f, pc ::
      && 0 <= f < |m.code.functions| && 0 <= pc < |m.code.functions[f].code|
      && m.code.functions[f].code[pc].Import? && m.code.functions[f].code[pc].specifier == c
  }

  /** The module's metadata names this constant: in a role, as a function's name or in an import. */
  ghost predicate Mentions(m: ProgramModule, c: nat) {
    || (exists role :: RoleConstant(m, role) == Some(c))
    || (exists f :: 0 <= f < |m.code.functions| && m.code.functions[f].name == Some(c))
    || Imports(m, c)
  }

  /** The reported fault is really there. */
  ghost predicate FaultIsReal(moduleCount: nat, m: ProgramModule, e: MetadataError) {
    match e
    case NameOutOfBounds(role, c) => RoleConstant(m, role) == Some(c) && c >= |m.code.constants|
    case NameNotString(role, c) =>
      RoleConstant(m, role) == Some(c) && c < |m.code.constants| && StringAt(m.code, c).None?
    case MetadataStringIllFormed(c) => Mentions(m, c) && StringAt(m.code, c).Some? && !Named(m, c)
    case InvalidModuleName => Named(m, m.name) && !ModuleNameOk(m)
    case TooManyEdges => |m.edges| >= U32_LIMIT
    case TooManyBindings => |m.bindings| >= U32_LIMIT
    case TooManyExports => |m.exports| >= U32_LIMIT
    case AbsoluteSpecifier(i) =>
      && i < |m.edges| && Named(m, m.edges[i].specifier)
      && IsAbsoluteSpecifier(StringAt(m.code, m.edges[i].specifier).value)
    case DuplicateSpecifier(i, j) => Duplicates(EdgeNames(m), i, j)
    case LocalTargetOutOfBounds(i, target) =>
      i < |m.edges| && m.edges[i].target.Local? && target == m.edges[i].target.moduleId >= moduleCount
    case DuplicateBinding(i, j) => Duplicates(BindingNames(m), i, j)
    case BindingEdgeOutOfBounds(b, edge) => BindingEdge(m, b) == Some(edge) && edge >= |m.edges|
    case StaticBindingRequiresStaticEdge(b, edge) =>
      BindingEdge(m, b) == Some(edge) && edge < |m.edges| && m.edges[edge].kind == Dynamic
    case DuplicateExport(i, j) => Duplicates(ExportNames(m), i, j)
    case ExportBindingOutOfBounds(x, b) =>
      x < |m.exports| && m.exports[x].source.FromBinding? && b == m.exports[x].source.binding >= |m.bindings|
    case ExportEdgeOutOfBounds(x, edge) =>
      x < |m.exports| && m.exports[x].source.Indirect? && edge == m.exports[x].source.edge >= |m.edges|
    case IndirectExportRequiresStaticEdge(x, edge) =>
      && x < |m.exports| && m.exports[x].source.Indirect?
      && edge == m.exports[x].source.edge < |m.edges| && m.edges[edge].kind == Dynamic
    case DynamicImportMissingEdge(c) =>
      Imports(m, c) && Named(m, c) && !HasDynamicEdge(m, StringAt(m.code, c).value)
    case SnapshotExportInstruction(f, pc) =>
      f < |m.code.functions| && pc < |m.code.functions[f].code| && m.code.functions[f].code[pc].Export?
    case _ => false
  }

  lemma RoleIsNamed(moduleCount: nat, m: ProgramModule, role: Role)
    requires ModuleOk(moduleCount, m) && RoleConstant(m, role).Some?
    ensures Named(m, RoleConstant(m, role).value)
  {
    hide Named, IsNormalizedModuleName, IsAbsoluteSpecifier, FunctionLinks;
    match role
    case ModuleNameRole =>
    case Specifier(e) => assert EdgeOk(moduleCount, m, m.edges[e]);
    case BindingName(b) => assert BindingOk(m, m.bindings[b]);
    case ImportedName(b) => assert BindingOk(m, m.bindings[b]);
    case ExportName(x) => assert ExportOk(m, m.exports[x]);
    case IndirectName(x) => assert ExportOk(m, m.exports[x]);
  }

  lemma MentionIsNamed(moduleCount: nat, m: ProgramModule, c: nat)
    requires ModuleOk(moduleCount, m) && Mentions(m, c)
    ensures Named(m, c)
  {
    hide Named, IsNormalizedModuleName, EdgesOk, BindingsOk, ExportsOk, HasDynamicEdge;
    if role :| RoleConstant(m, role) == Some(c) {
      RoleIsNamed(moduleCount, m, role);
    } else if f :| 0 <= f < |m.code.functions| && m.code.functions[f].name == Some(c) {
      assert FunctionLinks(m, m.code.functions[f]);
    } else {
      ImportLinks(moduleCount, m, c);
    }
  }

  lemma ImportLinks(moduleCount: nat, m: ProgramModule, c: nat)
    requires ModuleOk(moduleCount, m) && Imports(m, c)
    ensures Named(m, c) && HasDynamicEdge(m, StringAt(m.code, c).value)
  {
    hide IsNormalizedModuleName, EdgesOk, BindingsOk, ExportsOk, HasDynamicEdge;
    var f, pc :|
      && 0 <= f < |m.code.functions| && 0 <= pc < |m.code.functions[f].code|
      && m.code.functions[f].code[pc].Import? && m.code.functions[f].code[pc].specifier == c;
    assert FunctionLinks(m, m.code.functions[f]);
    assert InstructionLinks(m, m.code.functions[f].code[pc]);
  }

  /** Whatever is reported of a module, the module is not in order. */
  lemma FaultRejects(moduleCount: nat, m: ProgramModule, e: MetadataError)
    requires FaultIsReal(moduleCount, m, e)
    ensures !ModuleOk(moduleCount, m)
  {
    hide WellFormed, IsNormalizedModuleName, IsAbsoluteSpecifier, HasDynamicEdge, Mentions, Imports;
    if ModuleOk(moduleCount, m) {
      match e
      case NameOutOfBounds(role, c) => RoleIsNamed(moduleCount, m, role);
      case NameNotString(role, c) => RoleIsNamed(moduleCount, m, role);
      case MetadataStringIllFormed(c) => MentionIsNamed(moduleCount, m, c);
      case DynamicImportMissingEdge(c) => ImportLinks(moduleCount, m, c);
      case _ =>
    }
  }

  method CheckEdge(moduleCount: nat, m: ProgramModule, i: nat, seen: map<EcmaString, nat>)
    returns (e: Option<MetadataError>)
    requires i < |m.edges| && Seen(EdgeNames(m), i, seen)
    ensures e.None? ==> EdgeOk(moduleCount, m, m.edges[i]) && StringAt(m.code, m.edges[i].specifier).value !in seen
    ensures e.Some? ==> FaultIsReal(moduleCount, m, e.value) && !EdgesOk(moduleCount, m)
  {
    hide WellFormed, IsAbsoluteSpecifier;
    var edge := m.edges[i];
    var specifier := RequiredString(m, edge.specifier, Specifier(i));
    if specifier.Err? { return Some(specifier.error); }
    if IsAbsoluteSpecifier(specifier.value) { return Some(AbsoluteSpecifier(i)); }
    if specifier.value in seen {
      assert Duplicates(EdgeNames(m), seen[specifier.value], i);
      return Some(DuplicateSpecifier(seen[specifier.value], i));
    }
    if edge.target.Local? && edge.target.moduleId >= moduleCount {
      return Some(LocalTargetOutOfBounds(i, edge.target.moduleId));
    }
    e := None;
  }

  method CheckEdges(moduleCount: nat, m: ProgramModule)
    returns (e: Option<MetadataError>, specifiers: map<EcmaString, nat>)
    requires |m.edges| < U32_LIMIT
    ensures e.None? <==> EdgesOk(moduleCount, m)
    ensures e.None? ==> Seen(EdgeNames(m), |m.edges|, specifiers)
    ensures e.Some? ==> FaultIsReal(moduleCount, m, e.value)
  {
    hide WellFormed, FaultIsReal, IsAbsoluteSpecifier;
    specifiers := map[];
    ghost var names := EdgeNames(m);
    for i := 0 to |m.edges|
      invariant forall k :: 0 <= k < i ==> EdgeOk(moduleCount, m, m.edges[k])
      invariant Seen(names, i, specifiers)
    {
      e := CheckEdge(moduleCount, m, i, specifiers);
      if e.Some? { return; }
      specifiers := specifiers[StringAt(m.code, m.edges[i].specifier).value := i];
    }
    forall i, j | 0 <= i < j < |m.edges|
      ensures names[i] != names[j]
    {
      SeenIsInjective(names, |m.edges|, specifiers, i, j);
    }
    e := None;
  }

  /** The kind-specific part of a binding. */
  function BindingKindError(moduleCount: nat, m: ProgramModule, i: nat, kind: BindingKind): (e: Option<MetadataError>)
    requires i < |m.bindings| && kind == m.bindings[i].kind
    ensures e.None? <==> match kind
                         case Imported(edge, name) => StaticEdge(m, edge) && Named(m, name)
                         case Namespace(edge) => StaticEdge(m, edge)
                         case _ => true
    ensures e.Some? ==> FaultIsReal(moduleCount, m, e.value)
  {
    match kind
    case Imported(edge, name) =>
      if edge >= |m.edges| then Some(BindingEdgeOutOfBounds(i, edge))
      else
        var imported := RequiredString(m, name, ImportedName(i));
        if imported.Err? then Some(imported.error)
        else if !HasStatic(m.edges[edge].kind) then Some(StaticBindingRequiresStaticEdge(i, edge))
        else None
    case Namespace(edge) =>
      if edge >= |m.edges| then Some(BindingEdgeOutOfBounds(i, edge))
      else if !HasStatic(m.edges[edge].kind) then Some(StaticBindingRequiresStaticEdge(i, edge))
      else None
    case _ => None
  }

  method CheckBinding(moduleCount: nat, m: ProgramModule, i: nat, seen: map<EcmaString, nat>)
    returns (e: Option<MetadataError>)
    requires i < |m.bindings| && Seen(BindingNames(m), i, seen)
    ensures e.None? ==> BindingOk(m, m.bindings[i]) && StringAt(m.code, m.bindings[i].name).value !in seen
    ensures e.Some? ==> FaultIsReal(moduleCount, m, e.value) && !BindingsOk(m)
  {
    var name := RequiredString(m, m.bindings[i].name, BindingName(i));
    if name.Err? { return Some(name.error); }
    if name.value in seen {
      assert Duplicates(BindingNames(m), seen[name.value], i);
      return Some(DuplicateBinding(seen[name.value], i));
    }
    e := BindingKindError(moduleCount, m, i, m.bindings[i].kind);
  }

  method CheckBindings(moduleCount: nat, m: ProgramModule) returns (e: Option<MetadataError>)
    requires |m.bindings| < U32_LIMIT
    ensures e.None? <==> BindingsOk(m)
    ensures e.Some? ==> FaultIsReal(moduleCount, m, e.value)
  {
    hide WellFormed, FaultIsReal, HasStatic;
    var seen: map<EcmaString, nat> := map[];
    ghost var names := BindingNames(m);
    for i := 0 to |m.bindings|
      invariant forall k :: 0 <= k < i ==> BindingOk(m, m.bindings[k])
      invariant Seen(names, i, seen)
    {
      e := CheckBinding(moduleCount, m, i, seen);
      if e.Some? { return; }
      seen := seen[StringAt(m.code, m.bindings[i].name).value := i];
    }
    forall i, j | 0 <= i < j < |m.bindings|
      ensures names[i] != names[j]
    {
      SeenIsInjective(names, |m.bindings|, seen, i, j);
    }
    e := None;
  }

  /** The source-specific part of an export. */
  function ExportSourceError(moduleCount: nat, m: ProgramModule, i: nat,
                             source: ExportSource): (e: Option<MetadataError>)
    requires i < |m.exports| && source == m.exports[i].source
    ensures e.None? <==> match source
                         case FromBinding(b) => b < |m.bindings|
                         case Indirect(edge, name) => StaticEdge(m, edge) && Named(m, name)
    ensures e.Some? ==> FaultIsReal(moduleCount, m, e.value)
  {
    match source
    case FromBinding(b) => if b >= |m.bindings| then Some(ExportBindingOutOfBounds(i, b)) else None
    case Indirect(edge, name) =>
      if edge >= |m.edges| then Some(ExportEdgeOutOfBounds(i, edge))
      else if !HasStatic(m.edges[edge].kind) then Some(IndirectExportRequiresStaticEdge(i, edge))
      else
        var indirect := RequiredString(m, name, IndirectName(i));
        if indirect.Err? then Some(indirect.error) else None
  }

  method CheckExport(moduleCount: nat, m: ProgramModule, i: nat, seen: map<EcmaString, nat>)
    returns (e: Option<MetadataError>)
    requires i < |m.exports| && Seen(ExportNames(m), i, seen)
    ensures e.None? ==> ExportOk(m, m.exports[i]) && StringAt(m.code, m.exports[i].name).value !in seen
    ensures e.Some? ==> FaultIsReal(moduleCount, m, e.value) && !ExportsOk(m)
  {
    var name := RequiredString(m, m.exports[i].name, ExportName(i));
    if name.Err? { return Some(name.error); }
    if name.value in seen {
      assert Duplicates(ExportNames(m), seen[name.value], i);
      return Some(DuplicateExport(seen[name.value], i));
    }
    e := ExportSourceError(moduleCount, m, i, m.exports[i].source);
  }

  method CheckExports(moduleCount: nat, m: ProgramModule) returns (e: Option<MetadataError>)
    requires |m.exports| < U32_LIMIT
    ensures e.None? <==> ExportsOk(m)
    ensures e.Some? ==> FaultIsReal(moduleCount, m, e.value)
  {
    hide WellFormed, FaultIsReal, HasStatic;
    var seen: map<EcmaString, nat> := map[];
    ghost var names := ExportNames(m);
    for i := 0 to |m.exports|
      invariant forall k :: 0 <= k < i ==> ExportOk(m, m.exports[k])
      invariant Seen(names, i, seen)
    {
      e := CheckExport(moduleCount, m, i, seen);
      if e.Some? { return; }
      seen := seen[StringAt(m.code, m.exports[i].name).value := i];
    }
    forall i, j | 0 <= i < j < |m.exports|
      ensures names[i] != names[j]
    {
      SeenIsInjective(names, |m.exports|, seen, i, j);
    }
    e := None;
  }

  /** Names that module verification has already checked to be strings. */
  predicate FunctionNamesAreStrings(m: Module) {
    forall i :: 0 <= i < |m.functions| ==>
      && (m.functions[i].name.Some? ==> StringAt(m, m.functions[i].name.value).Some?)
      && forall pc :: 0 <= pc < |m.functions[i].code| && m.functions[i].code[pc].Import? ==>
           StringAt(m, m.functions[i].code[pc].specifier).Some?
  }

  method CheckInstruction(moduleCount: nat, m: ProgramModule, specifiers: map<EcmaString, nat>, function_: nat,
                          pc: nat, i: I.Instruction)
    returns (e: Option<MetadataError>)
    requires Seen(EdgeNames(m), |m.edges|, specifiers)
    requires function_ < |m.code.functions| && pc < |m.code.functions[function_].code|
    requires i == m.code.functions[function_].code[pc]
    requires i.Import? ==> StringAt(m.code, i.specifier).Some?
    ensures e.None? <==> InstructionLinks(m, i)
    ensures e.Some? ==> FaultIsReal(moduleCount, m, e.value)
  {
    if i.Import? {
      assert Imports(m, i.specifier);
      var name := StringAt(m.code, i.specifier).value;
      if !WellFormed(name) { return Some(MetadataStringIllFormed(i.specifier)); }
      if name in specifiers && HasDynamic(m.edges[specifiers[name]].kind) {
        assert EdgeNames(m)[specifiers[name]] == Some(name);
        return None;
      }
      return Some(DynamicImportMissingEdge(i.specifier));
    }
    if i.Export? { return Some(SnapshotExportInstruction(function_, pc)); }
    e := None;
  }

  method CheckFunction(moduleCount: nat, m: ProgramModule, specifiers: map<EcmaString, nat>, index: nat, f: Function)
    returns (e: Option<MetadataError>)
    requires index < |m.code.functions| && f == m.code.functions[index]
    requires Seen(EdgeNames(m), |m.edges|, specifiers)
    requires f.name.Some? ==> StringAt(m.code, f.name.value).Some?
    requires forall pc :: 0 <= pc < |f.code| && f.code[pc].Import? ==> StringAt(m.code, f.code[pc].specifier).Some?
    ensures e.None? <==> FunctionLinks(m, f)
    ensures e.Some? ==> FaultIsReal(moduleCount, m, e.value)
  {
    if f.name.Some? && !WellFormed(StringAt(m.code, f.name.value).value) {
      assert m.code.functions[index].name == Some(f.name.value);
      return Some(MetadataStringIllFormed(f.name.value));
    }
    for pc := 0 to |f.code|
      invariant forall q :: 0 <= q < pc ==> InstructionLinks(m, f.code[q])
    {
      e := CheckInstruction(moduleCount, m, specifiers, index, pc, f.code[pc]);
      if e.Some? { return; }
    }
    e := None;
  }

  method CheckModule(moduleCount: nat, m: ProgramModule) returns (e: Option<MetadataError>)
    requires FunctionNamesAreStrings(m.code)
    ensures e.None? <==> ModuleMetadataOk(moduleCount, m)
    ensures e.Some? ==> FaultIsReal(moduleCount, m, e.value)
  {
    if |m.edges| >= U32_LIMIT { return Some(TooManyEdges); }
    if |m.bindings| >= U32_LIMIT { return Some(TooManyBindings); }
    if |m.exports| >= U32_LIMIT { return Some(TooManyExports); }
    var specifiers;
    e, specifiers := CheckEdges(moduleCount, m);
    if e.Some? { return; }
    e := CheckBindings(moduleCount, m);
    if e.Some? { return; }
    e := CheckExports(moduleCount, m);
    if e.Some? { return; }
    for i := 0 to |m.code.functions|
      invariant forall k :: 0 <= k < i ==> FunctionLinks(m, m.code.functions[k])
    {
      e := CheckFunction(moduleCount, m, specifiers, i, m.code.functions[i]);
      if e.Some? { return; }
    }
    e := None;
  }

  /** One module: its name, which must be new, and its tables. */
  method CheckNamedModule(moduleCount: nat, m: ProgramModule, seen: map<EcmaString, nat>)
    returns (e: Option<MetadataError>)
    requires FunctionNamesAreStrings(m.code)
    ensures e.None? <==> ModuleOk(moduleCount, m) && ModuleName(m).value !in seen
    ensures e.Some? ==>
              if e.value.DuplicateModuleName?
              then ModuleNameOk(m) && ModuleName(m).value in seen && e.value.first == seen[ModuleName(m).value]
              else !ModuleOk(moduleCount, m) && FaultIsReal(moduleCount, m, e.value)
  {
    var name := RequiredString(m, m.name, ModuleNameRole);
    if name.Err? { return Some(name.error); }
    if !IsNormalizedModuleName(name.value) { return Some(InvalidModuleName); }
    if name.value in seen { return Some(DuplicateModuleName(seen[name.value])); }
    e := CheckModule(moduleCount, m);
  }

  /** A reported error is located at the first module with a fault; a reported duplicate really is one. */
  ghost predicate MetadataErrorIsReal(p: Program, i: nat, e: MetadataError) {
    && i < |p.modules|
    && (forall k :: 0 <= k < i ==> ModuleOk(|p.modules|, p.modules[k]))
    && if e.DuplicateModuleName? then Duplicates(ModuleNames(p), e.first, i)
       else FaultIsReal(|p.modules|, p.modules[i], e)
  }

  /** An error is about the program as a whole, or about one of its modules. */
  ghost predicate ErrorIsReal(p: Program, at: Option<nat>, e: MetadataError) {
    if at.Some? then MetadataErrorIsReal(p, at.value, e)
    else
      match e
      case EmptyProgram => p.modules == []
      case TooManyModules => |p.modules| >= U32_LIMIT
      case EntryModuleOutOfBounds => p.entry >= |p.modules|
      case _ => false
  }

  /** Whatever is reported of a program, its metadata is not in order. */
  lemma ErrorRejects(p: Program, at: Option<nat>, e: MetadataError)
    requires ErrorIsReal(p, at, e)
    ensures !MetadataOk(p)
  {
    hide ModuleOk, FaultIsReal;
    if at.Some? && !e.DuplicateModuleName? {
      FaultRejects(|p.modules|, p.modules[at.value], e);
    }
  }

  lemma FaultyModuleRejects(p: Program, i: nat, seen: map<EcmaString, nat>, e: MetadataError)
    requires i < |p.modules| && Seen(ModuleNames(p), i, seen)
    requires forall k :: 0 <= k < i ==> ModuleOk(|p.modules|, p.modules[k])
    requires if e.DuplicateModuleName?
             then ModuleNameOk(p.modules[i]) && ModuleName(p.modules[i]).value in seen
                  && e.first == seen[ModuleName(p.modules[i]).value]
             else !ModuleOk(|p.modules|, p.modules[i]) && FaultIsReal(|p.modules|, p.modules[i], e)
    ensures MetadataErrorIsReal(p, i, e) && !MetadataOk(p)
  {
    if e.DuplicateModuleName? {
      assert ModuleNames(p)[e.first] == ModuleNames(p)[i];
    }
  }

  /** Accepts exactly the programs whose metadata is in order. */
  method CheckProgram(p: Program) returns (e: Option<(Option<nat>, MetadataError)>)
    requires forall i :: 0 <= i < |p.modules| ==> FunctionNamesAreStrings(p.modules[i].code)
    ensures e.None? <==> MetadataOk(p)
    ensures e.Some? ==> ErrorIsReal(p, e.value.0, e.value.1)
  {
    hide ModuleMetadataOk, FaultIsReal, FunctionNamesAreStrings, WellFormed, IsNormalizedModuleName;
    if |p.modules| == 0 { return Some((None, EmptyProgram)); }
    if |p.modules| >= U32_LIMIT { return Some((None, TooManyModules)); }
    if p.entry >= |p.modules| { return Some((None, EntryModuleOutOfBounds)); }
    var seen: map<EcmaString, nat> := map[];
    ghost var names := ModuleNames(p);
    for i := 0 to |p.modules|
      invariant forall k :: 0 <= k < i ==> ModuleOk(|p.modules|, p.modules[k])
      invariant Seen(names, i, seen)
    {
      var m := p.modules[i];
      var fault := CheckNamedModule(|p.modules|, m, seen);
      if fault.Some? {
        FaultyModuleRejects(p, i, seen, fault.value);
        return Some((Some(i), fault.value));
      }
      seen := seen[ModuleName(m).value := i];
    }
    forall i, j | 0 <= i < j < |p.modules|
      ensures names[i] != names[j]
    {
      SeenIsInjective(names, |p.modules|, seen, i, j);
    }
    e := None;
  }
}
