/** Interface extraction: one pass over the decoded field list of a
    WebAssembly module that collects its type table, its local function
    signatures, the mutability of its globals and its import and export
    lists (src/parseTypes.ts, `readModule`).

    The binary decoder that produces the field list is not modelled: its
    output is the input here. JavaScript's `undefined`, which the source
    gets for a missing type key, an out-of-range function index or an
    unknown global, is `None`. The tables are maps, so a key that is an
    `Object.prototype` property name, or `__proto__`, behaves here like any
    other key, unlike in the source's plain objects. */
module ParseTypes {
  import opened Wrappers

  // ---------------------------------------------------------------------
  // The decoder's output
  // ---------------------------------------------------------------------

  /** Value types; only how many of them a function type lists matters. */
  datatype ValType = I32 | I64 | F32 | F64

  /** A function type written out: its parameter and result types. */
  datatype FuncType = FuncType(params: seq<ValType>, results: seq<ValType>)

  /** A signature as the extractor records it: (number of parameters, number of results). */
  datatype Sig = Sig(params: nat, results: nat)

  /** A function's signature as the decoder gives it: inline, or a reference
      to a type declaration. Object keys are strings in JavaScript, so the
      reference is the key it is coerced to. */
  datatype SigRef = Signature(functype: FuncType) | TypeRef(key: string)

  datatype Mutability = Const | Var

  /** What an import brings in; `ImportOther` is any kind the extractor does not recognise. */
  datatype ImportDescr =
    | ImportTable
    | ImportGlobalType
    | ImportMemory
    | ImportFunc(signature: SigRef)
    | ImportOther

  /** What an export refers to. Function exports carry an index, global
      exports the key of a global; `ExportMem` and `ExportMemory` are the two
      spellings of a memory export; `ExportOther` is any other kind. */
  datatype ExportDescr =
    | ExportFunc(index: int)
    | ExportGlobal(id: string)
    | ExportMem
    | ExportMemory
    | ExportTable
    | ExportOther

  /** One module field. `OtherField` is every field kind the extractor skips. */
  datatype Field =
    | TypeInstruction(id: string, functype: FuncType)
    | Global(name: string, mutability: Mutability)
    | Func(signature: SigRef)
    | ModuleImport(moduleName: string, name: string, importDescr: ImportDescr)
    | ModuleExport(name: string, exportDescr: ExportDescr)
    | OtherField

  /** One entry of the decoder's body: a module with its fields. */
  datatype ModuleNode = ModuleNode(fields: seq<Field>)

  // ---------------------------------------------------------------------
  // The extractor's output
  // ---------------------------------------------------------------------

  datatype ImportName = ImportName(moduleName: string, name: string)
  datatype FuncImport = FuncImport(moduleName: string, name: string, signature: Option<Sig>)
  datatype PendingFuncExport = PendingFuncExport(name: string, index: int)
  datatype PendingGlobalExport = PendingGlobalExport(name: string, id: string)
  datatype ExportedFunc = ExportedFunc(name: string, signature: Option<Sig>)
  datatype ExportedGlobal = ExportedGlobal(name: string, mutability: Option<bool>)

  datatype Imports = Imports(
    funcs: seq<FuncImport>,
    globals: seq<ImportName>,
    memory: seq<ImportName>,
    table: seq<ImportName>)

  datatype Exports = Exports(
    funcs: seq<ExportedFunc>,
    globals: seq<ExportedGlobal>,
    memory: seq<string>,
    table: seq<string>)

  datatype ModuleInterface = ModuleInterface(imports: Imports, exports: Exports)

  /** Everything the field loop maintains: the type table, the local signature
      list, the global table, and the four import and four export lists. */
  datatype Tables = Tables(
    types: map<string, Sig>,
    funcs: seq<Option<Sig>>,
    globals: map<string, bool>,
    funcImports: seq<FuncImport>,
    globalImports: seq<ImportName>,
    memoryImports: seq<ImportName>,
    tableImports: seq<ImportName>,
    funcExports: seq<PendingFuncExport>,
    globalExports: seq<PendingGlobalExport>,
    memoryExports: seq<string>,
    tableExports: seq<string>)

  // ---------------------------------------------------------------------
  // Specification of the loop
  // ---------------------------------------------------------------------

  const NoTables := Tables(map[], [], map[], [], [], [], [], [], [], [], [])

  function CountsOf(ft: FuncType): Sig {
    Sig(|ft.params|, |ft.results|)
  }

  /** The signature a function gets: its own counts if inline, the type
      table's entry if it refers to a type (undefined if there is none). */
  function Resolve(sig: SigRef, types: map<string, Sig>): (r: Option<Sig>)
    ensures sig.Signature? ==> r == Some(CountsOf(sig.functype))
    ensures sig.TypeRef? ==> (r.Some? <==> sig.key in types)
    ensures sig.TypeRef? && r.Some? ==> r.value == types[sig.key]
  {
    match sig
    case Signature(ft) => Some(CountsOf(ft))
    case TypeRef(k) => if k in types then Some(types[k]) else None
  }

  /** Every list of `t` is a prefix of the same list of `u`. */
  predicate ListsExtend(t: Tables, u: Tables) {
    && t.funcs <= u.funcs
    && t.funcImports <= u.funcImports
    && t.globalImports <= u.globalImports
    && t.memoryImports <= u.memoryImports
    && t.tableImports <= u.tableImports
    && t.funcExports <= u.funcExports
    && t.globalExports <= u.globalExports
    && t.memoryExports <= u.memoryExports
    && t.tableExports <= u.tableExports
  }

  /** The effect of one field on the tables and lists: lists only grow, the
      type table changes only for a type field and the global table only for
      a global field. */
  function Step(t: Tables, f: Field): (r: Tables)
    ensures ListsExtend(t, r)
    ensures f.TypeInstruction? || r.types == t.types
    ensures f.Global? || r.globals == t.globals
  {
    match f
    case TypeInstruction(id, ft) => t.(types := t.types[id := CountsOf(ft)])
    case Global(name, mutability) => t.(globals := t.globals[name := mutability == Var])
    case Func(sig) => t.(funcs := t.funcs + [Resolve(sig, t.types)])
    case ModuleImport(m, n, d) => StepImport(t, m, n, d)
    case ModuleExport(n, d) => StepExport(t, n, d)
    case OtherField => t
  }

  /** The effect of an import: one record on the list for its kind. */
  function StepImport(t: Tables, m: string, n: string, d: ImportDescr): (r: Tables)
    ensures r == t.(funcImports := r.funcImports, globalImports := r.globalImports,
                    memoryImports := r.memoryImports, tableImports := r.tableImports)
    ensures ListsExtend(t, r)
  {
    match d
    case ImportTable => t.(tableImports := t.tableImports + [ImportName(m, n)])
    case ImportGlobalType => t.(globalImports := t.globalImports + [ImportName(m, n)])
    case ImportMemory => t.(memoryImports := t.memoryImports + [ImportName(m, n)])
    case ImportFunc(sig) => t.(funcImports := t.funcImports + [FuncImport(m, n, Resolve(sig, t.types))])
    case ImportOther => t
  }

  /** The effect of an export: its name on the list for its kind. A global
      export also lands in the memory exports: its case has no `break` and
      falls through into the memory case. */
  function StepExport(t: Tables, n: string, d: ExportDescr): (r: Tables)
    ensures r == t.(funcExports := r.funcExports, globalExports := r.globalExports,
                    memoryExports := r.memoryExports, tableExports := r.tableExports)
    ensures ListsExtend(t, r)
  {
    match d
    case ExportFunc(index) => t.(funcExports := t.funcExports + [PendingFuncExport(n, index)])
    case ExportGlobal(id) =>
      t.(globalExports := t.globalExports + [PendingGlobalExport(n, id)],
         memoryExports := t.memoryExports + [n])
    case ExportMem => t.(memoryExports := t.memoryExports + [n])
    case ExportMemory => t.(memoryExports := t.memoryExports + [n])
    case ExportTable => t.(tableExports := t.tableExports + [n])
    case ExportOther => t
  }

  /** The tables and lists after the loop, started from `t`, has seen `fs`. */
  function Fold(t: Tables, fs: seq<Field>): Tables {
    if fs == [] then t else Step(Fold(t, fs[..|fs| - 1]), fs[|fs| - 1])
  }

  /** The tables and lists after the loop has seen `fs`. */
  function Run(fs: seq<Field>): Tables {
    Fold(NoTables, fs)
  }

  /** Seeing `a` and then `b` is seeing `a + b`: the modules of the body
      share one set of tables and lists. */
  lemma {:induction false} FoldAppend(t: Tables, a: seq<Field>, b: seq<Field>)
    ensures Fold(t, a + b) == Fold(Fold(t, a), b)
  {
    if b == [] {
      assert a + b == a;
    } else {
      assert (a + b)[..|a + b| - 1] == a + b[..|b| - 1];
      FoldAppend(t, a, b[..|b| - 1]);
    }
  }

  /** All fields of all modules of the body, in order. */
  function Flatten(body: seq<ModuleNode>): seq<Field> {
    if body == [] then [] else Flatten(body[..|body| - 1]) + body[|body| - 1].fields
  }

  /** `funcs[index]`: the local function signature at `index`, undefined out of range. */
  function LocalSignature(funcs: seq<Option<Sig>>, index: int): Option<Sig> {
    if 0 <= index < |funcs| then funcs[index] else None
  }

  /** The mapping of the pending function exports to named signatures. */
  function ResolveFuncExports(es: seq<PendingFuncExport>, funcs: seq<Option<Sig>>): (r: seq<ExportedFunc>)
    ensures |r| == |es|
    ensures forall i :: 0 <= i < |es| ==> r[i] == ExportedFunc(es[i].name, LocalSignature(funcs, es[i].index))
  {
    if es == [] then []
    else ResolveFuncExports(es[..|es| - 1], funcs)
         + [ExportedFunc(es[|es| - 1].name, LocalSignature(funcs, es[|es| - 1].index))]
  }

  /** The mapping of the pending global exports to named mutabilities. */
  function ResolveGlobalExports(es: seq<PendingGlobalExport>, globals: map<string, bool>): (r: seq<ExportedGlobal>)
    ensures |r| == |es|
    ensures forall i :: 0 <= i < |es| ==>
      r[i].name == es[i].name &&
      (es[i].id in globals <==> r[i].mutability.Some?) &&
      (es[i].id in globals ==> r[i].mutability.value == globals[es[i].id])
  {
    if es == [] then []
    else
      var e := es[|es| - 1];
      ResolveGlobalExports(es[..|es| - 1], globals)
      + [ExportedGlobal(e.name, if e.id in globals then Some(globals[e.id]) else None)]
  }

  /** The object the extractor returns, built from the state after the loop. */
  function Describe(t: Tables): ModuleInterface {
    ModuleInterface(
      Imports(t.funcImports, t.globalImports, t.memoryImports, t.tableImports),
      Exports(ResolveFuncExports(t.funcExports, t.funcs),
              ResolveGlobalExports(t.globalExports, t.globals),
              t.memoryExports, t.tableExports))
  }

  /** The interface extracted from a field list. */
  function Interface(fs: seq<Field>): ModuleInterface {
    Describe(Run(fs))
  }

  // ---------------------------------------------------------------------
  // The extractor
  // ---------------------------------------------------------------------

  /** The body of the field loop: the `switch` on one field's kind, which
      writes into the type or global table or pushes onto one list (two for
      a global export, whose case falls through into the memory case). */
  method ReadField(t0: Tables, field: Field) returns (t: Tables)
    ensures t == Step(t0, field)
  {
    t := t0;
    match field {
      case TypeInstruction(id, ft) =>
        t := t.(types := t.types[id := CountsOf(ft)]);
      case Global(name, mutability) =>
        t := t.(globals := t.globals[name := mutability == Var]);
      case Func(sig) =>
        match sig {
          case Signature(ft) =>
            t := t.(funcs := t.funcs + [Some(CountsOf(ft))]);
          case TypeRef(key) =>
            t := t.(funcs := t.funcs + [if key in t.types then Some(t.types[key]) else None]);
        }
      case ModuleImport(moduleName, name, descr) =>
        match descr {
          case ImportTable =>
            t := t.(tableImports := t.tableImports + [ImportName(moduleName, name)]);
          case ImportGlobalType =>
            t := t.(globalImports := t.globalImports + [ImportName(moduleName, name)]);
          case ImportMemory =>
            t := t.(memoryImports := t.memoryImports + [ImportName(moduleName, name)]);
          case ImportFunc(sig) =>
            match sig {
              case Signature(ft) =>
                t := t.(funcImports := t.funcImports + [FuncImport(moduleName, name, Some(CountsOf(ft)))]);
              case TypeRef(key) =>
                var signature := if key in t.types then Some(t.types[key]) else None;
                t := t.(funcImports := t.funcImports + [FuncImport(moduleName, name, signature)]);
            }
          case ImportOther =>
        }
      case ModuleExport(name, descr) =>
        match descr {
          case ExportFunc(index) =>
            t := t.(funcExports := t.funcExports + [PendingFuncExport(name, index)]);
          case ExportGlobal(id) =>
            t := t.(globalExports := t.globalExports + [PendingGlobalExport(name, id)]);
            t := t.(memoryExports := t.memoryExports + [name]);
          case ExportMem =>
            t := t.(memoryExports := t.memoryExports + [name]);
          case ExportMemory =>
            t := t.(memoryExports := t.memoryExports + [name]);
          case ExportTable =>
            t := t.(tableExports := t.tableExports + [name]);
          case ExportOther =>
        }
      case OtherField =>
    }
  }

  /** `readModule` after decoding: walks every field of every module once,
      then maps the pending exports to their signatures and mutabilities. */
  method ReadModule(body: seq<ModuleNode>) returns (result: ModuleInterface)
    ensures result == Interface(Flatten(body))
  {
    var t := NoTables;
    for m := 0 to |body|
      invariant t == Run(Flatten(body[..m]))
    {
      var fields := body[m].fields;
      ghost var t0 := t;
      for k := 0 to |fields|
        invariant t == Fold(t0, fields[..k])
      {
        assert fields[..k + 1][..k] == fields[..k];
        t := ReadField(t, fields[k]);
      }
      assert fields[..|fields|] == fields;
      assert body[..m + 1][..m] == body[..m];
      FoldAppend(NoTables, Flatten(body[..m]), fields);
    }
    assert body[..|body|] == body;

    result := ModuleInterface(
      Imports(t.funcImports, t.globalImports, t.memoryImports, t.tableImports),
      Exports(ResolveFuncExports(t.funcExports, t.funcs),
              ResolveGlobalExports(t.globalExports, t.globals),
              t.memoryExports, t.tableExports));
  }

  // ---------------------------------------------------------------------
  // Which list each field lands in
  // ---------------------------------------------------------------------

  datatype ImportList = FuncImports | GlobalImports | MemoryImports | TableImports
  datatype ExportList = FuncExports | GlobalExports | MemoryExports | TableExports

  /** The import list an import of kind `d` is filed under; none for an unknown kind. */
  function ImportListOf(d: ImportDescr): Option<ImportList> {
    match d
    case ImportTable => Some(TableImports)
    case ImportGlobalType => Some(GlobalImports)
    case ImportMemory => Some(MemoryImports)
    case ImportFunc(_) => Some(FuncImports)
    case ImportOther => None
  }

  /** The export lists an export of kind `d` is filed under. A global export
      is filed under the global list and, by the fallthrough, the memory list. */
  function ExportListsOf(d: ExportDescr): set<ExportList> {
    match d
    case ExportFunc(_) => {FuncExports}
    case ExportGlobal(_) => {GlobalExports, MemoryExports}
    case ExportMem => {MemoryExports}
    case ExportMemory => {MemoryExports}
    case ExportTable => {TableExports}
    case ExportOther => {}
  }

  /** What one field adds to the import list `l`. */
  function ImportFiledUnder(f: Field, l: ImportList): seq<ImportName> {
    match f
    case ModuleImport(m, n, d) => if ImportListOf(d) == Some(l) then [ImportName(m, n)] else []
    case _ => []
  }

  /** What one field adds to the export list `l`. */
  function ExportFiledUnder(f: Field, l: ExportList): seq<string> {
    match f
    case ModuleExport(n, d) => if l in ExportListsOf(d) then [n] else []
    case _ => []
  }

  /** The (module, name) pairs of the imports of `fs` filed under `l`, in field order. */
  function ImportsFiledUnder(fs: seq<Field>, l: ImportList): seq<ImportName> {
    if fs == [] then [] else ImportsFiledUnder(fs[..|fs| - 1], l) + ImportFiledUnder(fs[|fs| - 1], l)
  }

  /** The names of the exports of `fs` filed under `l`, in field order. */
  function ExportsFiledUnder(fs: seq<Field>, l: ExportList): seq<string> {
    if fs == [] then [] else ExportsFiledUnder(fs[..|fs| - 1], l) + ExportFiledUnder(fs[|fs| - 1], l)
  }

  /** The number of function fields in `fs`. */
  function CountFuncs(fs: seq<Field>): nat {
    if fs == [] then 0 else CountFuncs(fs[..|fs| - 1]) + if fs[|fs| - 1].Func? then 1 else 0
  }

  function FuncImportNames(s: seq<FuncImport>): seq<ImportName> {
    if s == [] then [] else FuncImportNames(s[..|s| - 1]) + [ImportName(s[|s| - 1].moduleName, s[|s| - 1].name)]
  }

  function FuncExportNames(s: seq<PendingFuncExport>): seq<string> {
    if s == [] then [] else FuncExportNames(s[..|s| - 1]) + [s[|s| - 1].name]
  }

  function GlobalExportNames(s: seq<PendingGlobalExport>): seq<string> {
    if s == [] then [] else GlobalExportNames(s[..|s| - 1]) + [s[|s| - 1].name]
  }

  /** The names held in the import list `l` of `t`. */
  function ImportNamesIn(t: Tables, l: ImportList): seq<ImportName> {
    match l
    case FuncImports => FuncImportNames(t.funcImports)
    case GlobalImports => t.globalImports
    case MemoryImports => t.memoryImports
    case TableImports => t.tableImports
  }

  /** The names held in the export list `l` of `t`. */
  function ExportNamesIn(t: Tables, l: ExportList): seq<string> {
    match l
    case FuncExports => FuncExportNames(t.funcExports)
    case GlobalExports => GlobalExportNames(t.globalExports)
    case MemoryExports => t.memoryExports
    case TableExports => t.tableExports
  }

  lemma FuncImportNamesSnoc(s: seq<FuncImport>, x: FuncImport)
    ensures FuncImportNames(s + [x]) == FuncImportNames(s) + [ImportName(x.moduleName, x.name)]
  {
    assert (s + [x])[..|s|] == s;
  }

  lemma FuncExportNamesSnoc(s: seq<PendingFuncExport>, x: PendingFuncExport)
    ensures FuncExportNames(s + [x]) == FuncExportNames(s) + [x.name]
  {
    assert (s + [x])[..|s|] == s;
  }

  lemma GlobalExportNamesSnoc(s: seq<PendingGlobalExport>, x: PendingGlobalExport)
    ensures GlobalExportNames(s + [x]) == GlobalExportNames(s) + [x.name]
  {
    assert (s + [x])[..|s|] == s;
  }

  /** One import adds its name to the list it is filed under, and nothing else. */
  lemma StepImportList(t: Tables, m: string, n: string, d: ImportDescr, l: ImportList)
    ensures ImportNamesIn(StepImport(t, m, n, d), l)
         == ImportNamesIn(t, l) + if ImportListOf(d) == Some(l) then [ImportName(m, n)] else []
  {
    if d.ImportFunc? && l == FuncImports {
      FuncImportNamesSnoc(t.funcImports, FuncImport(m, n, Resolve(d.signature, t.types)));
    }
  }

  /** One export adds its name to the lists it is filed under, and nothing else. */
  lemma StepExportList(t: Tables, n: string, d: ExportDescr, l: ExportList)
    ensures ExportNamesIn(StepExport(t, n, d), l)
         == ExportNamesIn(t, l) + if l in ExportListsOf(d) then [n] else []
  {
    match l
    case FuncExports =>
      if d.ExportFunc? {
        FuncExportNamesSnoc(t.funcExports, PendingFuncExport(n, d.index));
      }
    case GlobalExports =>
      if d.ExportGlobal? {
        GlobalExportNamesSnoc(t.globalExports, PendingGlobalExport(n, d.id));
      }
    case _ =>
  }

  /** One field adds to an import list the names filed under it, and nothing else. */
  lemma StepImportNames(t: Tables, f: Field, l: ImportList)
    ensures ImportNamesIn(Step(t, f), l) == ImportNamesIn(t, l) + ImportFiledUnder(f, l)
  {
    if f.ModuleImport? {
      StepImportList(t, f.moduleName, f.name, f.importDescr, l);
    }
  }

  /** One field adds to an export list the names filed under it, and nothing else. */
  lemma StepExportNames(t: Tables, f: Field, l: ExportList)
    ensures ExportNamesIn(Step(t, f), l) == ExportNamesIn(t, l) + ExportFiledUnder(f, l)
  {
    if f.ModuleExport? {
      StepExportList(t, f.name, f.exportDescr, l);
    }
  }

  /** Each import list holds exactly the imports filed under it, in field
      order, with their module and name; an import of unknown kind is in none. */
  lemma {:induction false} ImportListsFollowFieldOrder(fs: seq<Field>, l: ImportList)
    ensures ImportNamesIn(Run(fs), l) == ImportsFiledUnder(fs, l)
  {
    if fs != [] {
      var init, f := fs[..|fs| - 1], fs[|fs| - 1];
      ImportListsFollowFieldOrder(init, l);
      StepImportNames(Run(init), f, l);
    }
  }

  /** Each export list holds exactly the exports filed under it, in field
      order: a global export in two lists, every other export in at most one. */
  lemma {:induction false} ExportListsFollowFieldOrder(fs: seq<Field>, l: ExportList)
    ensures ExportNamesIn(Run(fs), l) == ExportsFiledUnder(fs, l)
  {
    if fs != [] {
      var init, f := fs[..|fs| - 1], fs[|fs| - 1];
      ExportListsFollowFieldOrder(init, l);
      StepExportNames(Run(init), f, l);
    }
  }

  /** There is one local signature per function field. */
  lemma {:induction false} OneSignaturePerFunc(fs: seq<Field>)
    ensures |Run(fs).funcs| == CountFuncs(fs)
  {
    if fs != [] {
      OneSignaturePerFunc(fs[..|fs| - 1]);
    }
  }

  /** The lists of `Run(fs[..n])` are prefixes of those of `Run(fs)`. */
  lemma {:induction false} RunExtends(fs: seq<Field>, n: nat)
    requires n <= |fs|
    ensures ListsExtend(Run(fs[..n]), Run(fs))
    decreases |fs|
  {
    if n < |fs| {
      var init := fs[..|fs| - 1];
      assert fs[..n] == init[..n];
      RunExtends(init, n);
    } else {
      assert fs[..n] == fs;
    }
  }

  // ---------------------------------------------------------------------
  // The type table and the global mutability table
  // ---------------------------------------------------------------------

  predicate DeclaresType(f: Field, k: string) {
    f.TypeInstruction? && f.id == k
  }

  predicate DeclaresGlobal(f: Field, k: string) {
    f.Global? && f.name == k
  }

  /** A type key is in the table exactly when some field declares it. */
  lemma {:induction false} TypeTableKeys(fs: seq<Field>, k: string)
    ensures k in Run(fs).types <==> exists i :: 0 <= i < |fs| && DeclaresType(fs[i], k)
  {
    if fs != [] {
      var init := fs[..|fs| - 1];
      TypeTableKeys(init, k);
      if exists i :: 0 <= i < |init| && DeclaresType(init[i], k) {
        var i :| 0 <= i < |init| && DeclaresType(init[i], k);
        assert fs[i] == init[i];
      }
      if exists i :: 0 <= i < |fs| && DeclaresType(fs[i], k) {
        var i :| 0 <= i < |fs| && DeclaresType(fs[i], k);
        if i < |init| { assert init[i] == fs[i]; }
      }
    }
  }

  /** The last declaration of a type key decides its entry: a later
      declaration with the same key overwrites an earlier one. */
  lemma {:induction false} TypeTableLastWins(fs: seq<Field>, i: nat)
    requires i < |fs| && fs[i].TypeInstruction?
    requires forall j :: i < j < |fs| ==> !DeclaresType(fs[j], fs[i].id)
    ensures fs[i].id in Run(fs).types
    ensures Run(fs).types[fs[i].id] == CountsOf(fs[i].functype)
  {
    var init := fs[..|fs| - 1];
    if i < |init| {
      forall j | i < j < |init| ensures !DeclaresType(init[j], init[i].id) {
        assert init[j] == fs[j];
      }
      TypeTableLastWins(init, i);
      assert !DeclaresType(fs[|fs| - 1], fs[i].id);
    }
  }

  /** A global key is in the mutability table exactly when some field declares it. */
  lemma {:induction false} GlobalTableKeys(fs: seq<Field>, k: string)
    ensures k in Run(fs).globals <==> exists i :: 0 <= i < |fs| && DeclaresGlobal(fs[i], k)
  {
    if fs != [] {
      var init := fs[..|fs| - 1];
      GlobalTableKeys(init, k);
      if exists i :: 0 <= i < |init| && DeclaresGlobal(init[i], k) {
        var i :| 0 <= i < |init| && DeclaresGlobal(init[i], k);
        assert fs[i] == init[i];
      }
      if exists i :: 0 <= i < |fs| && DeclaresGlobal(fs[i], k) {
        var i :| 0 <= i < |fs| && DeclaresGlobal(fs[i], k);
        if i < |init| { assert init[i] == fs[i]; }
      }
    }
  }

  /** A global is recorded as mutable iff its last declaration says `var`. */
  lemma {:induction false} GlobalTableLastWins(fs: seq<Field>, i: nat)
    requires i < |fs| && fs[i].Global?
    requires forall j :: i < j < |fs| ==> !DeclaresGlobal(fs[j], fs[i].name)
    ensures fs[i].name in Run(fs).globals
    ensures Run(fs).globals[fs[i].name] <==> fs[i].mutability == Var
  {
    var init := fs[..|fs| - 1];
    if i < |init| {
      forall j | i < j < |init| ensures !DeclaresGlobal(init[j], init[i].name) {
        assert init[j] == fs[j];
      }
      GlobalTableLastWins(init, i);
      assert !DeclaresGlobal(fs[|fs| - 1], fs[i].name);
    }
  }

  // ---------------------------------------------------------------------
  // Signature resolution
  // ---------------------------------------------------------------------

  /** The function field at `i` gives the local signature numbered by how many
      function fields precede it, resolved against the types declared before it. */
  lemma FuncSignatureAt(fs: seq<Field>, i: nat)
    requires i < |fs| && fs[i].Func?
    ensures CountFuncs(fs[..i]) < |Run(fs).funcs|
    ensures Run(fs).funcs[CountFuncs(fs[..i])] == Resolve(fs[i].signature, Run(fs[..i]).types)
  {
    assert fs[..i + 1][..i] == fs[..i];
    OneSignaturePerFunc(fs[..i]);
    RunExtends(fs, i + 1);
  }

  /** The function import at `i` is the one numbered by how many function
      imports precede it; it keeps its module and name, and its signature is
      resolved like a local function's. */
  lemma FuncImportAt(fs: seq<Field>, i: nat)
    requires i < |fs| && fs[i].ModuleImport? && fs[i].importDescr.ImportFunc?
    ensures |ImportsFiledUnder(fs[..i], FuncImports)| < |Run(fs).funcImports|
    ensures Run(fs).funcImports[|ImportsFiledUnder(fs[..i], FuncImports)|]
      == FuncImport(fs[i].moduleName, fs[i].name, Resolve(fs[i].importDescr.signature, Run(fs[..i]).types))
  {
    assert fs[..i + 1][..i] == fs[..i];
    ImportListsFollowFieldOrder(fs[..i], FuncImports);
    FuncImportNamesLength(Run(fs[..i]).funcImports);
    RunExtends(fs, i + 1);
  }

  lemma {:induction false} FuncImportNamesLength(s: seq<FuncImport>)
    ensures |FuncImportNames(s)| == |s|
  {
    if s != [] { FuncImportNamesLength(s[..|s| - 1]); }
  }

  lemma {:induction false} FuncExportNamesLength(s: seq<PendingFuncExport>)
    ensures |FuncExportNames(s)| == |s|
  {
    if s != [] { FuncExportNamesLength(s[..|s| - 1]); }
  }

  lemma {:induction false} GlobalExportNamesLength(s: seq<PendingGlobalExport>)
    ensures |GlobalExportNames(s)| == |s|
  {
    if s != [] { GlobalExportNamesLength(s[..|s| - 1]); }
  }

  /** An exported function is named by its export and gets `funcs[index]`:
      the index is looked up among the local functions only, so imported
      functions, which come first in a module's function index space, are
      not counted. */
  lemma ExportedFuncAt(fs: seq<Field>, i: nat)
    requires i < |fs| && fs[i].ModuleExport? && fs[i].exportDescr.ExportFunc?
    ensures |ExportsFiledUnder(fs[..i], FuncExports)| < |Interface(fs).exports.funcs|
    ensures Interface(fs).exports.funcs[|ExportsFiledUnder(fs[..i], FuncExports)|]
      == ExportedFunc(fs[i].name, LocalSignature(Run(fs).funcs, fs[i].exportDescr.index))
  {
    assert fs[..i + 1][..i] == fs[..i];
    ExportListsFollowFieldOrder(fs[..i], FuncExports);
    FuncExportNamesLength(Run(fs[..i]).funcExports);
    RunExtends(fs, i + 1);
  }

  /** An exported global is named by its export and carries the mutability
      recorded for its key; it also appears in the memory exports. */
  lemma ExportedGlobalAt(fs: seq<Field>, i: nat)
    requires i < |fs| && fs[i].ModuleExport? && fs[i].exportDescr.ExportGlobal?
    ensures |ExportsFiledUnder(fs[..i], GlobalExports)| < |Interface(fs).exports.globals|
    ensures var g := Interface(fs).exports.globals[|ExportsFiledUnder(fs[..i], GlobalExports)|];
      && g.name == fs[i].name
      && (g.mutability.Some? <==> fs[i].exportDescr.id in Run(fs).globals)
      && (g.mutability.Some? ==> g.mutability.value == Run(fs).globals[fs[i].exportDescr.id])
    ensures |ExportsFiledUnder(fs[..i], MemoryExports)| < |Interface(fs).exports.memory|
    ensures Interface(fs).exports.memory[|ExportsFiledUnder(fs[..i], MemoryExports)|] == fs[i].name
  {
    var before, upTo := Run(fs[..i]), Run(fs[..i + 1]);
    var n := |ExportsFiledUnder(fs[..i], GlobalExports)|;
    var e := PendingGlobalExport(fs[i].name, fs[i].exportDescr.id);
    assert fs[..i + 1][..i] == fs[..i];
    assert upTo.globalExports == before.globalExports + [e];
    ExportListsFollowFieldOrder(fs[..i], GlobalExports);
    GlobalExportNamesLength(before.globalExports);
    RunExtends(fs, i + 1);
    assert Run(fs).globalExports[n] == e;
    GlobalExportInMemoryAt(fs, i);
  }

  lemma GlobalExportInMemoryAt(fs: seq<Field>, i: nat)
    requires i < |fs| && fs[i].ModuleExport? && fs[i].exportDescr.ExportGlobal?
    ensures |ExportsFiledUnder(fs[..i], MemoryExports)| < |Interface(fs).exports.memory|
    ensures Interface(fs).exports.memory[|ExportsFiledUnder(fs[..i], MemoryExports)|] == fs[i].name
  {
    assert fs[..i + 1][..i] == fs[..i];
    ExportListsFollowFieldOrder(fs[..i], MemoryExports);
    RunExtends(fs, i + 1);
  }

  // ---------------------------------------------------------------------
  // What a field leaves alone
  // ---------------------------------------------------------------------

  /** A table import or a table export changes only its own table list. */
  lemma TableFieldsChangeOnlyTableLists(fs: seq<Field>, f: Field)
    requires (f.ModuleImport? && f.importDescr.ImportTable?) || (f.ModuleExport? && f.exportDescr.ExportTable?)
    ensures f.ModuleImport? ==>
      Run(fs + [f]) == Run(fs).(tableImports := Run(fs).tableImports + [ImportName(f.moduleName, f.name)])
    ensures f.ModuleExport? ==>
      Run(fs + [f]) == Run(fs).(tableExports := Run(fs).tableExports + [f.name])
  {
    assert (fs + [f])[..|fs|] == fs;
  }

  /** Fields of an unrecognised kind, and imports and exports of an
      unrecognised kind, change nothing. */
  lemma UnknownFieldsChangeNothing(fs: seq<Field>, f: Field)
    requires f.OtherField? || (f.ModuleImport? && f.importDescr.ImportOther?) || (f.ModuleExport? && f.exportDescr.ExportOther?)
    ensures Interface(fs + [f]) == Interface(fs)
  {
    assert (fs + [f])[..|fs|] == fs;
  }

  // ---------------------------------------------------------------------
  // The two quirks, on concrete modules
  // ---------------------------------------------------------------------

  /** A module that imports one function and defines one: export index 0
      names the imported function in the binary format's index space, but
      the extractor gives it the local function's signature, (0, 1)
      instead of the import's (1, 0). */
  lemma ExportIndexSkipsImportedFunctions()
    ensures var fs := [
        TypeInstruction("0", FuncType([I32], [])),
        ModuleImport("env", "log", ImportFunc(TypeRef("0"))),
        Func(Signature(FuncType([], [I32]))),
        ModuleExport("run", ExportFunc(0))];
      && Interface(fs).imports.funcs == [FuncImport("env", "log", Some(Sig(1, 0)))]
      && Interface(fs).exports.funcs == [ExportedFunc("run", Some(Sig(0, 1)))]
  {
    var fs := [
        TypeInstruction("0", FuncType([I32], [])),
        ModuleImport("env", "log", ImportFunc(TypeRef("0"))),
        Func(Signature(FuncType([], [I32]))),
        ModuleExport("run", ExportFunc(0))];
    var t1 := Step(NoTables, fs[0]);
    var t2 := Step(t1, fs[1]);
    var t3 := Step(t2, fs[2]);
    assert Run(fs[..1]) == t1 by { assert fs[..1][..0] == []; assert Fold(NoTables, []) == NoTables; }
    assert Run(fs[..2]) == t2 by { assert fs[..2][..1] == fs[..1]; }
    assert Run(fs[..3]) == t3 by { assert fs[..3][..2] == fs[..2]; }
    assert Run(fs) == Step(t3, fs[3]) by { assert fs[..3] == fs[..|fs| - 1]; }
    assert t1.types == map["0" := Sig(1, 0)];
    assert t3.funcImports == [FuncImport("env", "log", Some(Sig(1, 0)))];
    assert t3.funcs == [Some(Sig(0, 1))];
  }

  /** One exported mutable global is listed among the global exports and
      among the memory exports. */
  lemma GlobalExportAlsoListedAsMemory()
    ensures var fs := [Global("g", Var), ModuleExport("g", ExportGlobal("g"))];
      && Interface(fs).exports.globals == [ExportedGlobal("g", Some(true))]
      && Interface(fs).exports.memory == ["g"]
  {
    var fs := [Global("g", Var), ModuleExport("g", ExportGlobal("g"))];
    var t1 := Step(NoTables, fs[0]);
    assert Run(fs[..1]) == t1 by { assert fs[..1][..0] == []; assert Fold(NoTables, []) == NoTables; }
    assert Run(fs) == Step(t1, fs[1]) by { assert fs[..1] == fs[..|fs| - 1]; }
    assert t1.globals == map["g" := true];
  }
}
