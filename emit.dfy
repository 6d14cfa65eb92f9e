/**
 * The text `compile` emits: a TypeScript type for the instance's exports
 * (`genTypes`), the binary embedded as a hexadecimal string literal, and the
 * fixed loader that decodes it.
 *
 * The engine's export object is abstracted into a list of entries, in the
 * order the engine enumerates them; each value is classified as a memory, a
 * global, a function with its parameter count, or something else.
 */
module Emit {
  import opened Wrappers
  import Naming
  import HexCodec

  datatype ExportValue = MemoryValue | GlobalValue | FunctionValue(arity: nat) | OtherValue

  datatype ExportEntry = ExportEntry(name: string, value: ExportValue)

  /** JavaScript's `Array.prototype.join`: the parts with `sep` between neighbours. */
  function Join(sep: string, parts: seq<string>): (r: string)
    ensures |parts| == 0 ==> r == ""
    ensures |parts| > 0 ==> |r| == TotalLength(parts) + (|parts| - 1) * |sep|
  {
    if |parts| == 0 then ""
    else if |parts| == 1 then parts[0]
    else Join(sep, parts[..|parts| - 1]) + sep + parts[|parts| - 1]
  }

  /** The combined length of the parts. */
  function TotalLength(parts: seq<string>): nat {
    if parts == [] then 0 else TotalLength(parts[..|parts| - 1]) + |parts[|parts| - 1]|
  }

  /** The number of occurrences of `c` in `s`. */
  function Count(c: char, s: string): nat {
    if s == [] then 0 else Count(c, s[..|s| - 1]) + if s[|s| - 1] == c then 1 else 0
  }

  lemma {:induction false} CountAppend(c: char, a: string, b: string)
    ensures Count(c, a + b) == Count(c, a) + Count(c, b)
    decreases |b|
  {
    if b == [] {
      assert a + b == a;
    } else {
      CountAppend(c, a, b[..|b| - 1]);
      assert (a + b)[..|a + b| - 1] == a + b[..|b| - 1];
    }
  }

  lemma {:induction false} CountAbsent(c: char, s: string)
    requires c !in s
    ensures Count(c, s) == 0
  {
    if s != [] {
      CountAbsent(c, s[..|s| - 1]);
    }
  }

  /** With a one-character separator that no part contains, the joined text
      holds that character exactly once between each pair of neighbours. */
  lemma {:induction false} JoinCount(c: char, parts: seq<string>)
    requires forall i :: 0 <= i < |parts| ==> c !in parts[i]
    ensures Count(c, Join([c], parts)) == if |parts| == 0 then 0 else |parts| - 1
  {
    if |parts| == 1 {
      CountAbsent(c, parts[0]);
    } else if |parts| > 1 {
      var init, last := parts[..|parts| - 1], parts[|parts| - 1];
      JoinCount(c, init);
      CountAppend(c, Join([c], init), [c]);
      CountAppend(c, Join([c], init) + [c], last);
      CountAbsent(c, last);
      assert Count(c, [c]) == 1 by { assert [c][..0] == []; }
    }
  }

  /** Parameter `i` (counting from 0) of a generated signature, named by the
      source's `toB26(i + 1)`. */
  function ParamName(i: nat): string {
    Naming.B26Text(i + 1) + ": number"
  }

  /** The `Array.from` list of parameters for a function with `k` parameters. */
  function ParamList(k: nat): (ps: seq<string>)
    ensures |ps| == k
    ensures forall i :: 0 <= i < k ==> ps[i] == Naming.B26Text(i + 1) + ": number"
  {
    seq(k, i requires 0 <= i < k => ParamName(i))
  }

  /** The field text for one export entry, or none for a value of another kind. */
  function FieldText(e: ExportEntry): (r: Option<string>)
    ensures r.Some? <==> !e.value.OtherValue?
    ensures r.Some? ==> "\"" + e.name + "\": " <= r.value && r.value[|r.value| - 1] == ';'
  {
    match e.value
    case MemoryValue => Some("\"" + e.name + "\": WebAssembly.Memory;")
    case GlobalValue => Some("\"" + e.name + "\": WebAssembly.Global;")
    case FunctionValue(k) => Some("\"" + e.name + "\": (" + Join(",", ParamList(k)) + ") => number;")
    case OtherValue => None
  }

  /** The fields generated for `es`, in entry order. */
  function FieldsOf(es: seq<ExportEntry>): seq<string> {
    if es == [] then []
    else
      var t := FieldText(es[|es| - 1]);
      FieldsOf(es[..|es| - 1]) + if t.Some? then [t.value] else []
  }

  /** The number of entries that are not of another kind. */
  function CountDescribed(es: seq<ExportEntry>): nat {
    if es == [] then 0
    else CountDescribed(es[..|es| - 1]) + if es[|es| - 1].value.OtherValue? then 0 else 1
  }

  const DeclarationHead := "export type ModuleExports = {\n    "

  const DeclarationTail := "\n  };"

  /** The type declaration built from the fields: the fields, one per line,
      between the opening and the closing of the `ModuleExports` type. */
  function TypeDeclaration(fields: seq<string>): (r: string)
    ensures |r| >= |DeclarationHead| + |DeclarationTail|
    ensures r[..|DeclarationHead|] == DeclarationHead
    ensures r[|r| - |DeclarationTail|..] == DeclarationTail
    ensures r[|DeclarationHead|..|r| - |DeclarationTail|] == Join("\n    ", fields)
  {
    var body := Join("\n    ", fields);
    assert (DeclarationHead + body + DeclarationTail)[..|DeclarationHead|] == DeclarationHead;
    assert (DeclarationHead + body + DeclarationTail)[|DeclarationHead|..|DeclarationHead| + |body|] == body;
    DeclarationHead + body + DeclarationTail
  }

  /** `genTypes`: one pass over the entries, collecting a field for each memory,
      global or function, then the declaration around them. */
  method GenTypes(es: seq<ExportEntry>) returns (text: string)
    ensures text == TypeDeclaration(FieldsOf(es))
  {
    var fields: seq<string> := [];
    for i := 0 to |es|
      invariant fields == FieldsOf(es[..i])
    {
      assert es[..i + 1][..i] == es[..i];
      var t := FieldText(es[i]);
      if t.Some? {
        fields := fields + [t.value];
      }
    }
    assert es[..|es|] == es;
    text := TypeDeclaration(fields);
  }

  // ---------------------------------------------------------------------
  // What the fields are
  // ---------------------------------------------------------------------

  /** There is one field per memory, global or function entry. */
  lemma {:induction false} OneFieldPerDescribedEntry(es: seq<ExportEntry>)
    ensures |FieldsOf(es)| == CountDescribed(es)
  {
    if es != [] {
      OneFieldPerDescribedEntry(es[..|es| - 1]);
    }
  }

  /** An entry of another kind, such as a table, adds no field. */
  lemma OtherEntryAddsNoField(es: seq<ExportEntry>, e: ExportEntry)
    requires e.value.OtherValue?
    ensures FieldsOf(es + [e]) == FieldsOf(es)
  {
    assert (es + [e])[..|es|] == es;
  }

  lemma {:induction false} FieldsOfPrefix(es: seq<ExportEntry>, n: nat)
    requires n <= |es|
    ensures FieldsOf(es[..n]) <= FieldsOf(es)
    decreases |es|
  {
    if n < |es| {
      var init := es[..|es| - 1];
      assert es[..n] == init[..n];
      FieldsOfPrefix(init, n);
    } else {
      assert es[..n] == es;
    }
  }

  /** The field of a memory, global or function entry comes after the fields of
      the entries before it, in order. */
  lemma FieldAt(es: seq<ExportEntry>, i: nat)
    requires i < |es| && !es[i].value.OtherValue?
    ensures CountDescribed(es[..i]) < |FieldsOf(es)|
    ensures FieldsOf(es)[CountDescribed(es[..i])] == FieldText(es[i]).value
  {
    FieldsOfPrefix(es, i + 1);
    OneFieldPerDescribedEntry(es[..i]);
    assert es[..i + 1][..i] == es[..i];
  }

  // ---------------------------------------------------------------------
  // Parameter lists
  // ---------------------------------------------------------------------

  lemma SameSuffixSamePrefix(a: string, b: string, s: string)
    requires a + s == b + s
    ensures a == b
  {
    assert |a| == |b|;
    assert a == (a + s)[..|a|] && b == (b + s)[..|b|];
  }

  /** No parameter name holds a comma: the name is lower-case letters. */
  lemma NoCommaInParam(i: nat)
    ensures ',' !in ParamName(i)
  {
    var w, p := Naming.B26Text(i + 1), ParamName(i);
    Naming.B26TextIsLower(i + 1);
    forall k | 0 <= k < |p|
      ensures p[k] != ','
    {
      if k < |w| {
        assert p[k] == w[k] && Naming.IsLower(w[k]);
      } else {
        assert p[k] == ": number"[k - |w|];
      }
    }
  }

  /** A function with `k` parameters gets a list of `k` parameters, separated by
      `k - 1` commas. */
  lemma ParamListCommas(k: nat)
    ensures Count(',', Join(",", ParamList(k))) == if k == 0 then 0 else k - 1
  {
    forall i | 0 <= i < k
      ensures ',' !in ParamList(k)[i]
    {
      NoCommaInParam(i);
    }
    JoinCount(',', ParamList(k));
  }

  /** Up to 25 parameters, parameter `i` is the `i`-th letter of the alphabet. */
  lemma SingleLetterParams(k: nat, i: nat)
    requires i < k <= 25
    ensures ParamList(k)[i] == [Naming.Letter(i)] + ": number"
  {
    Naming.SingleLetter(i + 1);
    Naming.AlphabetLetter(i);
  }

  lemma ParamNameInjective(i: nat, j: nat)
    requires i + 1 < Naming.TwoTo31 && j + 1 < Naming.TwoTo31
    requires ParamName(i) == ParamName(j)
    ensures i == j
  {
    SameSuffixSamePrefix(Naming.B26Text(i + 1), Naming.B26Text(j + 1), ": number");
    Naming.B26TextInjective(i + 1, j + 1);
  }

  /** No two parameters of a signature share a name, for any arity below 2^31,
      although a zero base-26 digit writes "undefined" into the name. */
  lemma ParamNamesDistinct(k: nat, i: nat, j: nat)
    requires i < k && j < k && i != j && k < Naming.TwoTo31
    ensures ParamList(k)[i] != ParamList(k)[j]
  {
    if ParamName(i) == ParamName(j) {
      ParamNameInjective(i, j);
    }
  }

  /** The 26th parameter is written "aundefined: number"; the corrected list has "z: number". */
  lemma TwentySixthParam()
    ensures ParamList(26)[25] == "aundefined: number"
    ensures CorrectedParamList(26)[25] == "z: number"
  {
    Naming.TwentySixthName();
  }

  lemma JoinTwo(sep: string, a: string, b: string)
    ensures Join(sep, [a, b]) == a + sep + b
  {
    assert [a, b][..1] == [a];
  }

  lemma FirstTwoParamNames()
    ensures ParamList(2) == ["a" + ": number", "b" + ": number"]
  {
    SingleLetterParams(2, 0);
    SingleLetterParams(2, 1);
    assert Naming.Letter(0) == 'a' && Naming.Letter(1) == 'b';
    assert [Naming.Letter(0)] == "a" && [Naming.Letter(1)] == "b";
  }

  lemma FirstTwoParams()
    ensures Join(",", ParamList(2)) == "a" + ": number" + "," + "b" + ": number"
  {
    FirstTwoParamNames();
    JoinTwo(",", "a" + ": number", "b" + ": number");
  }

  /** A function with two parameters: `a` and `b`, both numbers, returning a number. */
  lemma TwoParamFunctionField()
    ensures FieldText(ExportEntry("add", FunctionValue(2)))
         == Some("\"" + "add" + "\": (" + ("a" + ": number" + "," + "b" + ": number") + ") => number;")
  {
    FirstTwoParams();
  }

  /** A function, a memory and a table: fields for the first two, in order, none for the table. */
  lemma FunctionMemoryAndTable()
    ensures FieldsOf([ExportEntry("add", FunctionValue(2)), ExportEntry("mem", MemoryValue), ExportEntry("tbl", OtherValue)])
         == ["\"" + "add" + "\": (" + ("a" + ": number" + "," + "b" + ": number") + ") => number;",
             "\"" + "mem" + "\": WebAssembly.Memory;"]
  {
    var es := [ExportEntry("add", FunctionValue(2)), ExportEntry("mem", MemoryValue), ExportEntry("tbl", OtherValue)];
    TwoParamFunctionField();
    assert FieldsOf(es[..1]) == [FieldText(es[0]).value] by { assert es[..1][..0] == []; }
    assert FieldsOf(es[..2]) == [FieldText(es[0]).value, FieldText(es[1]).value] by { assert es[..2][..1] == es[..1]; }
    assert es[..2] == es[..|es| - 1];
  }

  /** With no memories, globals or functions the braces hold one blank line. */
  lemma NoFields()
    ensures TypeDeclaration(FieldsOf([ExportEntry("tbl", OtherValue)])) == "export type ModuleExports = {\n    \n  };"
  {
    var es := [ExportEntry("tbl", OtherValue)];
    assert es[..0] == [];
  }

  // ---------------------------------------------------------------------
  // The corrected parameter names
  // ---------------------------------------------------------------------

  /** Parameter `i` as the bijective base-26 naming gives it. */
  function CorrectedParamName(i: nat): string {
    Naming.BijectiveB26(i + 1) + ": number"
  }

  /** The parameter list with the corrected names. */
  function CorrectedParamList(k: nat): (ps: seq<string>)
    ensures |ps| == k
    ensures forall i :: 0 <= i < k ==> ps[i] == Naming.BijectiveB26(i + 1) + ": number"
  {
    seq(k, i requires 0 <= i < k => CorrectedParamName(i))
  }

  lemma CorrectedParamNameInjective(i: nat, j: nat)
    requires CorrectedParamName(i) == CorrectedParamName(j)
    ensures i == j
  {
    SameSuffixSamePrefix(Naming.BijectiveB26(i + 1), Naming.BijectiveB26(j + 1), ": number");
    Naming.BijectiveInjective(i + 1, j + 1);
  }

  /** With the corrected names no two parameters share a name, for any count. */
  lemma CorrectedParamNamesDistinct(k: nat, i: nat, j: nat)
    requires i < k && j < k && i != j
    ensures CorrectedParamList(k)[i] != CorrectedParamList(k)[j]
  {
    if CorrectedParamName(i) == CorrectedParamName(j) {
      CorrectedParamNameInjective(i, j);
    }
  }

  /** A corrected name equals the source's exactly when the position has no
      zero base-26 digit. */
  lemma CorrectedAgreesIffNoZeroDigit(k: nat, i: nat)
    requires i < k && k < Naming.TwoTo31
    ensures CorrectedParamList(k)[i] == ParamList(k)[i] <==> 0 !in Naming.Digits(i + 1)
  {
    Naming.AsWrittenCorrectIffNoZeroDigit(i + 1);
    if CorrectedParamList(k)[i] == ParamList(k)[i] {
      SameSuffixSamePrefix(Naming.BijectiveB26(i + 1), Naming.B26Text(i + 1), ": number");
    }
  }

  // ---------------------------------------------------------------------
  // The compiled artifact
  // ---------------------------------------------------------------------

  const HexPrefix := "\n\nconst hex = \""

  const HexSuffix := "\";\n"

  /** The lines of the fixed loader text that follows the embedded literal:
      the two nibble tables, the decode loop, and the instantiating factory. */
  const LoaderLines: seq<string> := [
    "const high_map: {[key: string]: number } = {",
    "  0: 0x00, 1: 0x10, 2: 0x20, 3: 0x30,",
    "  4: 0x40, 5: 0x50, 6: 0x60, 7: 0x70,",
    "  8: 0x80, 9: 0x90, a: 0xa0, b: 0xb0,",
    "  c: 0xc0, d: 0xd0, e: 0xe0, f: 0xf0,",
    "}",
    "",
    "const low_map: {[key: string]: number } = {",
    "  0: 0x00, 1: 0x01, 2: 0x02, 3: 0x03,",
    "  4: 0x04, 5: 0x05, 6: 0x06, 7: 0x07,",
    "  8: 0x08, 9: 0x09, a: 0x0a, b: 0x0b,",
    "  c: 0x0c, d: 0x0d, e: 0x0e, f: 0x0f,",
    "}",
    "",
    "const bytes = new Uint8Array(hex.length / 2);",
    "for (let i = 0, j = 0; j < hex.length; i++, j+=2) {",
    "  bytes[i] = high_map[hex[j]] | low_map[hex[j+1]];",
    "}",
    "",
    "const modp = WebAssembly.compile(bytes);",
    "",
    "export default async function(): Promise<ModuleExports> {",
    "  const { exports } = await WebAssembly.instantiate(await modp);",
    "  return exports as unknown as ModuleExports;",
    "}"
  ]

  /** The loader text: its lines, each on a line of its own after a line break. */
  const Loader: string := "\n" + Join("\n", LoaderLines) + "\n"

  /** The loader is the template's 25 lines between an opening and a closing
      line break; its fifteenth to eighteenth lines are the decode loop that
      `HexCodec.HexDecode` models. */
  lemma LoaderHoldsDecodeLoop()
    ensures |LoaderLines| == 25
    ensures |Loader| >= 2 && Loader[0] == '\n' && Loader[|Loader| - 1] == '\n'
    ensures LoaderLines[14..18] == [
      "const bytes = new Uint8Array(hex.length / 2);",
      "for (let i = 0, j = 0; j < hex.length; i++, j+=2) {",
      "  bytes[i] = high_map[hex[j]] | low_map[hex[j+1]];",
      "}"]
  {
  }

  /** The pieces of a four-part concatenation, by position. */
  lemma FourPartSlices(a: string, b: string, c: string, d: string)
    ensures var s := a + b + c + d;
            && |s| == |a| + |b| + |c| + |d|
            && s[..|a|] == a
            && s[|a|..|a| + |b|] == b
            && s[|a| + |b|..|a| + |b| + |c|] == c
            && s[|a| + |b| + |c|..] == d
  {
  }

  /** `compile`, from the engine's export list and the binary onward: the type
      declaration, a blank line, the binary as a hex string literal, and the
      loader. The literal is lower-case hex, so it holds no quotation mark, and
      the loader's decoding of it gives back the binary. */
  method Compile(exports: seq<ExportEntry>, bin: seq<HexCodec.Byte>) returns (artifact: string)
    ensures var typeDec := TypeDeclaration(FieldsOf(exports));
            var start := |typeDec| + |HexPrefix|;
            && start + 2 * |bin| <= |artifact|
            && artifact[..|typeDec|] == typeDec
            && artifact[|typeDec|..start] == HexPrefix
            && HexCodec.IsHexText(artifact[start..start + 2 * |bin|])
            && HexCodec.HexBytes(artifact[start..start + 2 * |bin|]) == bin
            && artifact[start + 2 * |bin|..] == HexSuffix + Loader
  {
    var typeDec := GenTypes(exports);
    var hex := HexCodec.HexEncode(bin);
    var tail := HexSuffix + Loader;
    artifact := typeDec + HexPrefix + hex + tail;
    FourPartSlices(typeDec, HexPrefix, hex, tail);
    var start := |typeDec| + |HexPrefix|;
    assert artifact[start..start + 2 * |bin|] == hex;
    HexCodec.DecodeOfEncode(bin);
    HexCodec.EncodeIsPlainHex(bin);
  }
}
