# wat2ts core, modelled in Dafny

wat2ts compiles a WebAssembly text module into a TypeScript source file. That file
declares a `ModuleExports` type for the module's exports, embeds the compiled
binary as a lower-case hexadecimal string literal, and carries a small loader that
decodes the literal back into bytes and instantiates them. The repository also has
an interface extractor, `readModule`. It walks the decoded fields of a binary
module once and collects:

- the type table;
- the local function signatures;
- the mutability of the globals;
- the import and export lists.

The project models these pieces:

- `ParseTypes` (`parse_types.dfy`) models `readModule` (src/parseTypes.ts):
  - `ReadModule` is a method with the source's two nested loops.
  - `ReadField` does one field's dispatch.
  - `ReadModule` is proved against the specification functions `Run` (a fold of
    `Step` over the fields) and `Interface`.
  - The lemmas say which list each field lands in, that order is preserved, and how
    signatures and mutabilities are resolved. Both quirks of the code are included.
- `Naming` (`naming.dfy`) models the parameter namer `toB26` (src/index.ts:4-12):
  - `ToB26` is a method with the source's `while` loop.
  - `B26Text` is the function the loop computes, including the 32-bit truncation of
    `(x/26)|0`.
  - `BijectiveB26` (and its inverse `FromB26`) is the bijective base-26 numbering
    the namer is meant to be.
  - The generated signatures use the as-written names, as the source emits them.
    `Emit.CorrectedParamList` is the parameter list with the corrected names.
- `HexCodec` (`hex.dfy`) models the loader's nibble tables and its decode loop
  (src/index.ts:37-54) as a method that fills an `array<bv8>`. It also has the
  lower-case encoder that `compile` relies on (src/index.ts:71), and proves the
  round trip in both directions.
- `Emit` (`emit.dfy`) models `genTypes` (src/index.ts:14-34) as a method that
  collects fields in a loop, and the layout of the text `compile` returns
  (src/index.ts:64-73).
- `Wrappers` (`wrappers.dfy`) holds `Option`. `None` stands for JavaScript's
  `undefined` where the source reads a missing key or index.

JavaScript's `undefined` is modelled as follows:

- A failed lookup in `readModule` is `None`, for a key that is neither an
  `Object.prototype` property name nor `__proto__` (see "## Left out").
- In the hex loop, `undefined | n` is `n`, so a missing nibble reads as 0.
- In `toB26`, `s[-1] + r` turns `undefined` into the text "undefined".

## Model

| member | source | states |
|---|---|---|
| ParseTypes.ReadModule | src/parseTypes.ts:3-112 | the result is the interface of the fields of all modules, concatenated in order and folded one field at a time from empty tables; `ParseTypes.Describe`, which builds the returned object of src/parseTypes.ts:94-111 from the final tables, is part of that specification by definition |
| ParseTypes.Resolve | src/parseTypes.ts:30-38 | an inline signature resolves to its own (params, results) counts; a type reference resolves exactly when its key is in the type table, and then to that entry |
| ParseTypes.Step | src/parseTypes.ts:21-90 | the `switch` for one field, defined case by case; its contract: every list only grows, the type table changes only for a type field and the global table only for a global field |
| ParseTypes.StepImport | src/parseTypes.ts:41-71 | the import cases, defined case by case; an import changes only the four import lists, and only by appending |
| ParseTypes.StepExport | src/parseTypes.ts:73-89 | the export cases, defined case by case, a global export on the global and the memory list; an export changes only the four export lists, and only by appending |
| ParseTypes.ReadField | src/parseTypes.ts:21-90 | one pass through the `switch` is exactly one `Step`: it sets a type or global entry, or pushes onto one list (two for a global export) |
| ParseTypes.ResolveFuncExports | src/parseTypes.ts:102-104 | one entry per pending function export, in order, named as exported and carrying `funcs[index]`, or none when the index is out of range |
| ParseTypes.ResolveGlobalExports | src/parseTypes.ts:105-107 | one entry per pending global export, in order; its mutability is present exactly when the key is in the global table, and is then that entry |
| ParseTypes.ImportListsFollowFieldOrder | src/parseTypes.ts:41-71 | each import list holds, in field order, the (module, name) of exactly the imports of its kind; an import of an unknown kind is in none |
| ParseTypes.ExportListsFollowFieldOrder | src/parseTypes.ts:73-89 | each export list holds, in field order, exactly the exports filed under it: a global export under globals and memory, Mem/Memory under memory only, a table under table only, an unknown kind under none |
| ParseTypes.OneSignaturePerFunc | src/parseTypes.ts:30-38 | the local signature list has exactly one entry per function field |
| ParseTypes.RunExtends | src/parseTypes.ts:19-92 | the loop only appends: each of the nine lists after a prefix of the fields is a prefix of the same final list |
| ParseTypes.TypeTableKeys | src/parseTypes.ts:22-25 | a key is in the type table if and only if some type field declares it |
| ParseTypes.TypeTableLastWins | src/parseTypes.ts:22-25 | the entry for a key is the (params, results) count of its last declaration; later declarations overwrite earlier ones |
| ParseTypes.GlobalTableKeys | src/parseTypes.ts:27-28 | a name is in the global table if and only if some global field declares it |
| ParseTypes.GlobalTableLastWins | src/parseTypes.ts:27-28 | a global is recorded as mutable if and only if its last declaration is `var` |
| ParseTypes.FuncSignatureAt | src/parseTypes.ts:30-38 | the n-th function field gives local signature n: its inline counts, or the type table entry (as it stands at that field) for a type reference |
| ParseTypes.FuncImportAt | src/parseTypes.ts:53-68 | the n-th function import keeps its module and name and resolves its signature inline or through the type table as it stands at that field |
| ParseTypes.ExportedFuncAt | src/parseTypes.ts:102-104 | the n-th function export is named as exported and carries the local signature at its index, with imported functions not counted |
| ParseTypes.ExportedGlobalAt | src/parseTypes.ts:79-84 | the n-th global export carries its name and the mutability recorded for its key, and its name is also the matching entry of the memory exports |
| ParseTypes.GlobalExportInMemoryAt | src/parseTypes.ts:79-84 | by the fallthrough, a global export's name is the memory export numbered by how many exports before it went to the memory list |
| ParseTypes.TableFieldsChangeOnlyTableLists | src/parseTypes.ts:44-45 | a table import appends (module, name) to the table imports, and a table export appends its name to the table exports; nothing else changes |
| ParseTypes.UnknownFieldsChangeNothing | src/parseTypes.ts:21-90 | a field, import or export of an unrecognised kind leaves the interface unchanged |
| ParseTypes.ExportIndexSkipsImportedFunctions | src/parseTypes.ts:102-104 | concrete module: export index 0 names the imported function in the binary's index space but gets the local function's signature |
| ParseTypes.GlobalExportAlsoListedAsMemory | src/parseTypes.ts:79-84 | concrete module: one exported mutable global is listed among the globals (mutable) and among the memories |
| Naming.ToInt32 | src/index.ts:8 | `n | 0`: the result is a signed 32-bit value congruent to n modulo 2^32, and equals n on [0, 2^31) |
| Naming.DigitText | src/index.ts:7 | the text one remainder contributes, defined as the letter `s[d-1]` or, for 0, the text "undefined"; its contract: one character, or nine for 0 |
| Naming.DigitTextLetters | src/index.ts:7 | a nonzero remainder d gives the letter d-1 of the alphabet, 0 gives "undefined", and both are lower-case letters |
| Naming.B26Text | src/index.ts:4-12 | the loop's text is empty exactly for x <= 0 (so `toB26(0)` is ""), and the recursion terminates |
| Naming.QuotientShrinks | src/index.ts:6-8 | for positive x the truncated quotient is strictly smaller, so the loop terminates |
| Naming.ToB26 | src/index.ts:4-12 | the loop returns exactly the text `B26Text` computes |
| Naming.Digits | src/index.ts:6-9 | base-26 digits, most significant first, each a `Digit` (0..25), with a nonzero leading digit for positive x |
| Naming.B26TextIsDigitsText | src/index.ts:6-9 | below 2^31 the result is the text of each base-26 digit, most significant first |
| Naming.B26TextInjective | src/index.ts:4-12 | below 2^31 distinct positions get distinct names as written, because "undefined" needs nine letters and no such position has more than seven base-26 digits |
| Naming.OneLetterPerDigitOnlyWithoutZero | src/index.ts:7 | below 2^31, the result has exactly one character per digit if and only if no digit is 0 |
| Naming.QuotientWrapEndsLoop | src/index.ts:6-9 | at 26·2^31 + 1 the 32-bit truncated quotient wraps to -2^31, the loop stops after one digit, and the name is "a", the same as for 1 |
| Naming.SingleLetter | src/index.ts:7 | for 1 <= x <= 25 the result is the single letter `s[x-1]` |
| Naming.NoZInB26Text | src/index.ts:7 | the letter z never occurs in any result |
| Naming.B26TextIsLower | src/index.ts:4-12 | every result consists of lower-case letters only, the "undefined" of a zero digit included |
| Naming.TwentySixthName | src/index.ts:7 | 26 is named "aundefined" as written, where the bijective numbering gives "z" |
| Naming.AsWrittenAgreesWithoutZeroDigit | src/index.ts:6-9 | below 2^31, where no base-26 digit is 0, the loop computes the bijective name |
| Naming.AsWrittenCorrectIffNoZeroDigit | src/index.ts:7 | below 2^31, the loop computes the bijective name if and only if no base-26 digit of x is 0 |
| Naming.BijectiveB26 | src/index.ts:4-12 | the intended name: all lower-case letters, empty exactly for 0 |
| Naming.FromB26OfBijective | src/index.ts:4-12 | reading back the intended name of n gives n |
| Naming.BijectiveOfFromB26 | src/index.ts:4-12 | every lower-case word is the intended name of the number it stands for |
| Naming.BijectiveInjective | src/index.ts:4-12 | distinct numbers get distinct intended names |
| Naming.BijectiveNoLongerThanDigits | src/index.ts:4-12 | the intended name is never longer than the base-26 digit string |
| HexCodec.ByteAt | src/index.ts:53 | the byte stored for the pair at j, defined as `high_map[hex[j]] | low_map[hex[j+1]]` with a missing entry or character read as 0; its contract: for two lower-case digits it is the high digit's value shifted left by 4, or-ed with the low digit's value |
| HexCodec.HexBytes | src/index.ts:51-53 | the decoded bytes, defined as `ByteAt` at every even position; its contract: `hex.length/2` of them, rounded down |
| HexCodec.HexDecode | src/index.ts:51-54 | a new array of `hex.length/2` bytes (rounded down), and byte i is `high_map[hex[2i]] | low_map[hex[2i+1]]` with a missing entry read as 0 |
| HexCodec.HighMapIsLoaderTable | src/index.ts:37-42 | the high-nibble table is the loader's listing, entry for entry |
| HexCodec.LowMapIsLoaderTable | src/index.ts:44-49 | the low-nibble table is the loader's listing, entry for entry |
| HexCodec.TablesInvertHexDigit | src/index.ts:37-49 | the tables map the digit of each nibble v to v << 4 and to v |
| HexCodec.DigitValue | src/index.ts:44-49 | the value of a lower-case digit is a nibble whose digit is that digit |
| HexCodec.ByteOfDigitsAsNumber | src/index.ts:53 | as a number that byte is 16·v(hex[2i]) + v(hex[2i+1]) |
| HexCodec.HexEncode | src/index.ts:71 | the lower-case hex text has two digits per byte, the high nibble first |
| HexCodec.DecodeOfEncode | src/index.ts:51-54 | decoding the embedded text gives back the binary exactly, the empty binary included |
| HexCodec.EncodeOfDecode | src/index.ts:51-54 | lower-case hex text of even length is the encoding of what it decodes to |
| HexCodec.OddLengthDropsLast | src/index.ts:51-54 | with an odd length the last character is ignored |
| HexCodec.EncodeIsPlainHex | src/index.ts:71 | the embedded text is lower-case hex and holds no quotation mark, so it cannot end the string literal early |
| HexCodec.UpperCaseReadsAsZero | src/index.ts:37-49 | concrete: an upper-case digit has no table entry and reads as 0 ("A1" decodes to 0x01, "ff" to 0xff) |
| Emit.Join | src/index.ts:26 | JavaScript's `join`, defined recursively; its contract: no parts give "", otherwise the length is the parts' total plus one separator between each pair of neighbours |
| Emit.FieldText | src/index.ts:18-28 | the `instanceof` chain, defined case by case; its contract: a field exactly for a memory, global or function, starting with the quoted export name and a colon and ending in `;` |
| Emit.TypeDeclaration | src/index.ts:31-33 | the template around the fields: it opens with `export type ModuleExports = {`, a line break and four spaces, closes with a line break, two spaces and `};`, and holds the fields joined by a line break and four spaces in between |
| Emit.GenTypes | src/index.ts:14-34 | the text is the declaration wrapped around the fields of the entries, in entry order, joined by a line break and four spaces; those fields are `Emit.FieldsOf`, the `fields` array of src/index.ts:16-29, defined by recursion on the entries |
| Emit.ParamList | src/index.ts:23-26 | the `Array.from` list has exactly one parameter per unit of arity, and parameter i is the source's `toB26(i+1) + ": number"` |
| Emit.OneFieldPerDescribedEntry | src/index.ts:17-29 | there is one field per memory, global or function entry |
| Emit.OtherEntryAddsNoField | src/index.ts:17-29 | an entry of another kind, such as a table, adds no field |
| Emit.FieldAt | src/index.ts:18-27 | the field of a memory, global or function entry is its own text, placed after the fields of the entries before it |
| Emit.SingleLetterParams | src/index.ts:25 | for up to 25 parameters, parameter i is the i-th letter of the alphabet followed by `: number` |
| Emit.ParamNamesDistinct | src/index.ts:23-26 | for any parameter count below 2^31, no two parameters of a signature share a name, although a zero digit writes "undefined" into a name |
| Emit.TwentySixthParam | src/index.ts:25 | the 26th parameter is written `aundefined: number`, where the corrected list has `z: number` |
| Emit.NoCommaInParam | src/index.ts:25 | an as-written parameter text holds no comma |
| Emit.JoinCount | src/index.ts:26 | joining parts that lack a one-character separator adds exactly one separator between neighbours |
| Emit.ParamListCommas | src/index.ts:23-26 | a list of k parameters holds exactly k-1 commas (none when k = 0) |
| Emit.FirstTwoParams | src/index.ts:23-26 | concrete: two parameters read "a: number,b: number" |
| Emit.LoaderHoldsDecodeLoop | src/index.ts:36-62 | the loader text is the template's 25 lines, opened and closed by a line break; its lines 15 to 18 are the decode loop that `HexCodec.HexDecode` models |
| Emit.TwoParamFunctionField | src/index.ts:27 | concrete: a two-parameter export `add` gives the field `"add": (a: number,b: number) => number;` |
| Emit.FunctionMemoryAndTable | src/index.ts:17-29 | concrete: a function, a memory and a table give two fields, in order, and none for the table |
| Emit.NoFields | src/index.ts:31-33 | concrete: with no describable entries the braces hold one blank line |
| Emit.CorrectedParamList | src/index.ts:23-26 | the corrected variant: one parameter per unit of arity, parameter i named by the bijective base-26 name of i+1 |
| Emit.CorrectedParamNamesDistinct | src/index.ts:23-26 | with the corrected names no two parameters share a name, for any parameter count |
| Emit.CorrectedAgreesIffNoZeroDigit | src/index.ts:25 | for positions below 2^31, a corrected name equals the source's name exactly when the position has no zero base-26 digit |
| Emit.Compile | src/index.ts:64-73 | the artifact is the type declaration, then a blank line and `const hex = "`, then the encoded binary, then `";` and the loader; the embedded slice is lower-case hex that decodes back to the binary |

## Left out

- The binary decoder `decode` from `@webassemblyjs/wasm-parser` (src/parseTypes.ts:4) is a foreign library. Its output, a list of modules holding decoded fields, is the input of `ParseTypes.ReadModule`.
- The type-definition case of `readModule` is labelled `"TypeInstuction"` (src/parseTypes.ts:22). The model gives that label its own field kind, `TypeInstruction`. Whether the decoder ever emits that spelling cannot be decided here, because the decoder is not part of this model.
- `ParseTypes.ReadModule` keeps its state in one record, `Tables`, which each field's step replaces. The record holds the type table and the global table (two maps) and nine lists: the local signatures and the four import and four export lists. The source mutates separate arrays and dictionaries. The pushes and writes happen in the same order. The model has no sharing, however. In the source, one `[params, results]` array object is stored in `types` and, by reference, in `funcs` (src/parseTypes.ts:36), in the function imports (line 64) and in the function exports (line 103). A caller that mutates one of them sees the change in the others; the value model does not capture that aliasing.
- ParseTypes.Resolve, ParseTypes.Step (its Global case) and ParseTypes.ResolveGlobalExports read and write `types` and `globals`, which the source creates as plain `{}` objects (src/parseTypes.ts:5-7). The model's maps ignore keys that are `Object.prototype` property names (`toString`, `constructor`, ...), which the source reads as inherited values rather than `undefined`. They also ignore `__proto__`, whose setter drops the write at line 28. For such keys the model answers `None`, or the written value, where the source yields the inherited property; these keys are not modelled.
- The wabt calls `parseWat` and `toBinary`, and `WebAssembly.instantiate` and `WebAssembly.compile` (src/index.ts:56-68), run in the engine. Their results are inputs: the binary as a byte sequence, and the instance's exports as a list of `Emit.ExportEntry`.
- Emit.GenTypes replaces the runtime checks `instanceof WebAssembly.Memory`, `instanceof WebAssembly.Global`, `instanceof Function` and the read of `v.length` (src/index.ts:18-23) with the classification `Emit.ExportValue`. Entries come in the engine's enumeration order.
- Naming.OneLetterPerDigitOnlyWithoutZero, Naming.AsWrittenAgreesWithoutZeroDigit, Naming.AsWrittenCorrectIffNoZeroDigit and Emit.CorrectedAgreesIffNoZeroDigit: proved only below 2^31. From 26·2^31 on, the quotient `(x/26)|0` can wrap to a negative value, and the loop then stops early. For x = 55834574849 (26·2^31 + 1) it gives "a" (`Naming.QuotientWrapEndsLoop`), although x has eight nonzero base-26 digits. These statements are false there, and the model does not claim them.
- Emit.ParamNamesDistinct: proved for parameter counts below 2^31. Above that, the 32-bit truncation of the quotient can wrap, and distinctness is not proved there.
- `Buffer.from(bin).toString('hex')` (src/index.ts:71) is a library call. `HexCodec.HexEncode` stands for it as the lower-case, two-digits-per-byte, high-nibble-first encoding.
- The loader's `modp` promise and its async default export (src/index.ts:56-61) are engine calls and concurrency. The model keeps them only as fixed text in `Emit.LoaderLines`. The decode loop inside that text is modelled by `HexCodec.HexDecode`.
- `HexCodec.HighMap` and `HexCodec.LowMap` are written as comprehensions over the hex digits. `HighMapIsLoaderTable` and `LowMapIsLoaderTable` prove them equal to the loader's literal listings (`HighMapListing`, `LowMapListing`).
- Naming.ToB26 takes an integer argument. The source takes a JavaScript number, a double. Its fractional argument values, NaN, the infinities and rounding of `x/26` above 2^53 are not modelled. For integers below 2^53, `(x/26)|0` is the truncated quotient wrapped to 32 bits, which `Naming.ToInt32` models.
- src/wat2ts.ts is the command-line front end: file reading and writing, directory walking and `process.argv`. It is I/O and is not part of this model.
- The code has no base64 path: the binary is always embedded as hex, and no encoding is chosen. `compile` emits no import type declaration, and the loader's factory takes no parameters. None of these is modelled, because none exists.
- Points where the code fixes a behaviour one might expect to vary:
  - The return type of a function field is always `number`, whatever the result count.
  - Parameters read `a: number`, with a space.
  - An upper-case hex digit decodes as 0.

## Findings

| source | as written | input that shows it | evidently intended | confidence | as-written member | corrected member |
|---|---|---|---|---|---|---|
| src/index.ts:7 | `s[x % 26 - 1]` reads `s[-1]`, which is `undefined`, whenever a base-26 digit is 0; the concatenation writes the text "undefined", and z is never produced | x = 26 gives "aundefined" (the 26th parameter of a generated signature); 52 gives "bundefined" | bijective base-26 naming: 26 is "z", 27 is "aa", and every position has a distinct all-letter name | high (not executed) | Naming.TwentySixthName | Naming.BijectiveB26 |
