# GIPS core in Dafny

GIPS (the GLSL Image Processing System) runs an image through a pipeline of
filter nodes. Each node is a GLSL fragment shader of one to four passes, with
parameters declared in `@`-annotated comments. This project models the parts
of GIPS that decide what the program does, as opposed to how it draws:

- **Parameters, nodes and the pipeline** (`GipsTypes`, `GipsCore`, `SeqEdit`).
  These cover change tracking, node insertion, removal and moves, and the
  draw schedule of `render` over two ping-pong buffers.
- **The shader loader** (`ShaderLoader`). This is the token scan of a shader
  file: annotations, parameter declarations, initialisers and pass commands.
  It also covers the consecutive-pass check and the generated pass sources.
- **Pipeline files** (`GipsIO`). This is the `[GIPS]`/node/parameter text
  format, with its writer, its line reader and the round trip between them.
  The reader's surroundings are an `Env`: the text codec, whether the
  pipeline's `init` succeeded, and `load`, the `addNode(filename)` that the
  reader calls for each node section. `ShaderEnv` makes `load` the shader
  loader of `ShaderLoader`.
- **String helpers** (`StringUtil`). These are whitespace trimming, line
  counting, table lookup, path helpers and extension codes.
- **The virtual file system and the directory lists** (`DirListing`, `Vfs`,
  `DirListCache`). These cover the case-insensitive name order, the merge of
  roots and the timed cache of listings.
- **Application setters** (`GipsApp`) and the **command-line splitter**
  (`CmdLine`).
- **Test patterns** (`Patterns`). These are the xorshift generator and the
  recursive "clouds" fill.
- **The clipboard's DIB codec** (`ClipboardDib`).
- **The logo converter** (`LogoConv`, `LogoBlockMap`). This covers the
  run-length encoder and the block-map compressor.

Calls into OpenGL, the operating system, files, clocks and floating-point
text conversion are parameters of the model (oracles). State the source
changes in place is a Dafny `class`, and loops are `while` loops with their
invariants. Each operation's behaviour is stated by a specification function,
whose properties are proved as lemmas, or, where its own contract states
less, by the lemmas its "## Left out" line names.

Where the code does something its authors evidently did not intend, the
model keeps the code's behaviour as an "as written" member and proves the
defect. The rest of the model then uses the corrected behaviour; see
"Findings".

## Model

| member | source | states |
|---|---|---|
| StringUtil.ToLower | src/string_util.h:11-14 | Upper-case ASCII letters move up by 32 to their lower-case letter; every other character is unchanged |
| StringUtil.IdentExcludesSeparators | src/string_util.h:18-20 | `isident` is false for '=', '@', NUL, '*' and whitespace, so an annotation token stops at each of them |
| StringUtil.Lookup | src/string_util.h:57-62 | A null table or string gives `T(0)`; otherwise the result is the value of the first row whose pattern equals the string, or of the null-pattern row that ends the table, with no earlier row matching |
| StringUtil.LookupFindsListed | src/string_util.h:57-62 | A string listed before the sentinel, with no earlier match, is looked up as that row's value |
| StringUtil.StopIndex | src/string_util.h:60 | The scan stops at a matching or null-pattern row, and every row it passes is a non-matching pattern |
| StringUtil.LastNonSpace | src/string_util.cpp:24-30 | The index of the last non-whitespace character (-1 if none), with only whitespace after it |
| StringUtil.LastNonSpaceUnique | src/string_util.cpp:24-30 | Those two properties determine the index, so the loop and the specification agree on every string |
| StringUtil.StringLengthWithoutTrailingWhitespace | src/string_util.cpp:24-30 | The loop returns one past the last non-whitespace character: everything from there on is whitespace and the character before is not |
| StringUtil.CountLines | src/string_util.cpp:12-22 | The loop returns the 1-based number of the last line holding a non-whitespace character, 0 if there is none |
| StringUtil.CountLinesBound | src/string_util.cpp:12-22 | `countLines` is at most the number of line feeds plus one, and is 0 exactly when the string is all whitespace |
| StringUtil.CountPrefix | src/string_util.cpp:14-16 | A prefix never holds more line feeds than the whole string |
| StringUtil.TrimTrailingWhitespace | src/string_util.h:72-74 | Writes one NUL right after the last non-whitespace character, so the held string becomes its own prefix without trailing whitespace |
| StringUtil.TrimmedHasNoTrailingSpace | src/string_util.h:72-74 | The trimmed string is a prefix of the original, does not end in whitespace, and only whitespace was cut |
| StringUtil.CutAt | src/string_util.h:73 | Writing NUL at or before the terminator truncates the held string exactly there |
| StringUtil.SkipWhitespace | src/string_util.h:76-84 | Null stays null; otherwise the result is the first non-whitespace index (the terminator if none), with only whitespace before it |
| StringUtil.FirstNonSpace | src/string_util.h:76-84 | The first non-whitespace index, or the length; only whitespace comes before it |
| StringUtil.Trimmed | src/string_util.h:72-84 | Skipping and trimming gives the empty string exactly for all-whitespace input; otherwise the result starts and ends with non-whitespace |
| StringUtil.IsAbsPath | src/string_util.h:107-114 | Null is not absolute. On POSIX a path is absolute iff it starts with '/'. On Windows it is absolute iff it has a drive letter, ':' and a separator, or starts with two separators |
| StringUtil.PathRemoveBaseName | src/string_util.h:125-130 | A null path is left alone. Otherwise the cut index is at most the base-name index, the separators between them are dropped, a non-separator precedes the cut, and one NUL is written there |
| StringUtil.MakeExtCode | src/string_util.h:157-164 | A null or empty extension gives 0 |
| StringUtil.ExtCodeBytes | src/string_util.h:157-164 | For 7-bit characters, byte i of the code is the i-th lower-cased character of the extension, and 0 past its end (at most four characters) |
| StringUtil.PackBytes | src/string_util.h:160-163 | Packing four bytes little-endian and unpacking byte i gives byte i back |
| GipsTypes.NewParameter | src/gips_core.h:21-33 | A default parameter has the given name and type, no description, range 0..1, and all value and old-value slots 0 |
| GipsTypes.Desc | src/gips_core.h:36 | The description, or the name when the description is empty |
| GipsTypes.Consumed | src/gips_core.cpp:21-28 | After `changed()` nothing is dirty; the current values, name and type are kept |
| GipsTypes.ParameterChanged | src/gips_core.cpp:21-28 | The loop reports whether any of the four slots differed from its old value, and leaves every old value equal to the current one |
| GipsTypes.NewParameterClean | src/gips_core.h:29-30 | A freshly constructed parameter reports no change |
| GipsTypes.ConsumedIdempotent | src/gips_core.cpp:21-28 | A second `changed()` consumes nothing more |
| GipsTypes.UniformArity | src/gips_core.cpp:225-243 | The `glUniform*` switch uploads 1 float for Value and Toggle, 2 for Value2, 3 for Value3 and RGB, 4 for Value4 and RGBA, and nothing for any other type |
| GipsTypes.FirstNamed | src/gips_core.cpp:58-63 | The index of a parameter with the name and none before it, or none when no parameter has the name |
| GipsTypes.FindParam | src/gips_core.cpp:58-63 | The loop returns the first parameter with the name, or null |
| GipsTypes.FirstNamedUnique | src/gips_core.cpp:58-63 | Any index with the name and no earlier match is what `findParam` returns |
| SeqEdit.InsertAt | src/gips_core.cpp:71-77 | The inserted element sits at the index; earlier elements stay and later ones move up by one |
| SeqEdit.RemoveAt | src/gips_core.cpp:85-89 | One element is gone; earlier elements stay and later ones move down by one |
| SeqEdit.MoveTo | src/gips_core.cpp:98-101 | A move keeps the length (the index-by-index content is `MovePointwise`) |
| SeqEdit.RemoveInsert | src/gips_core.cpp:67-91 | Removing the node just added at an index restores the list |
| SeqEdit.InsertRemove | src/gips_core.cpp:67-91 | Putting a removed node back at its index restores the list |
| SeqEdit.InsertMultiset | src/gips_core.cpp:71-77 | Insertion adds exactly one occurrence of the new node |
| SeqEdit.RemoveMultiset | src/gips_core.cpp:85-89 | Removal takes away exactly one occurrence of the removed node |
| SeqEdit.MoveMultiset | src/gips_core.cpp:98-101 | A move is a permutation of the list |
| SeqEdit.MovePointwise | src/gips_core.cpp:98-101 | The moved node lands at `toIndex`, the nodes between shift one step toward `fromIndex`, and all others stay |
| SeqEdit.MoveBack | src/gips_core.cpp:93-103 | Moving from `to` back to `from` undoes a move |
| SeqEdit.MoveSources | src/gips_core.cpp:98-101 | Every position after a move takes its node from a distinct source position |
| SeqEdit.MoveDistinct | src/gips_core.cpp:98-101 | A move never duplicates a node |
| GipsCore.ConsumeAll | src/gips_core.cpp:34-36 | After every parameter's `changed()` none is dirty, and values and names are kept |
| GipsCore.Node.constructor | src/gips_core.h:47-79 | A new node is empty (no name, file, errors, passes or parameters), enabled, not yet seen enabled, and its program is marked changed |
| GipsCore.Node.Changed | src/gips_core.cpp:30-38 | Returns whether the program changed, the enabled state changed since the last call, or a parameter changed. Every parameter is consumed, with no short cut, and nothing is dirty afterwards |
| GipsCore.Node.Toggle | src/gips_core.h:77 | Flips `enabled` and returns the new state; the node is then dirty iff it was not dirty through `enabled` before; nothing else changes |
| GipsCore.Node.SetEnabled | src/gips_core.h:74 | Sets `enabled` and nothing else |
| GipsCore.Node.Enable | src/gips_core.h:75 | Sets `enabled` and nothing else |
| GipsCore.Node.Disable | src/gips_core.h:76 | Clears `enabled` and nothing else |
| GipsCore.Node.Load | src/gips_shader_loader.cpp:95-107 | A null or empty file name returns false and changes nothing. Otherwise the node takes the stem as name, the file name, and the loader's errors, parameters and passes. It is marked changed and succeeds iff at least one pass was built |
| GipsCore.LoadCountBound | src/gips_shader_loader.cpp:387-483 | A load never yields more than `MaxPasses` passes |
| GipsCore.ClampCount | src/gips_core.cpp:146 | `maxNodes` in range is kept; a negative or too large count means all nodes |
| GipsCore.PingPong | src/gips_core.cpp:179 | The output is one of the two buffers and, when they differ, never the input |
| GipsCore.Views | src/gips_core.cpp:172-175 | One view per node, in order |
| GipsCore.NodeSlots | src/gips_core.cpp:174-175 | A disabled node draws nothing; an enabled one draws passes 0 .. passCount-1 in order |
| GipsCore.Upload | src/gips_core.cpp:222-243 | A parameter uploads exactly its first `UniformArity` values |
| GipsCore.Uploads | src/gips_core.cpp:222-243 | One upload per parameter, in order |
| GipsCore.UploadAll | src/gips_core.cpp:222-244 | The parameter loop produces exactly `Uploads` |
| GipsCore.Pipeline.constructor | src/gips_core.h:86-116 | A new pipeline has no nodes, zero size and textures, is marked changed and is not initialised |
| GipsCore.Pipeline.MarkAsChanged | src/gips_core.h:113 | Only the changed flag is set; nodes, size, textures and initialisation stay |
| GipsCore.Pipeline.Init | src/gips_core.cpp:114-142 | The first call records whether the vertex shader compiled and the two texture names. Every later call repeats the first answer and changes nothing |
| GipsCore.Pipeline.AddNode | src/gips_core.cpp:67-80 | A failed `init` or a failed `new(std::nothrow)` adds nothing and returns null, and only those two return null. Otherwise a fresh, dirty, empty node is inserted at `index` (appended when `index` is out of range), and the pipeline is marked changed |
| GipsCore.Pipeline.AddNodeFile | src/gips_core.h:106-110 | The insertion as in `addNode(index)`, followed by a load of the file into the new node; null exactly when `init` or the allocation fails, and then the pipeline is unchanged |
| GipsCore.Pipeline.RemoveNode | src/gips_core.cpp:82-91 | An out-of-range index changes nothing, not even the dirty flag. Otherwise that node is removed, the rest close up, and the pipeline is marked changed |
| GipsCore.Pipeline.MoveNode | src/gips_core.cpp:93-103 | Out-of-range or equal indices change nothing. Otherwise the list becomes `MoveTo(nodes, from, to)` and is marked changed. The list is always a permutation of the old one |
| GipsCore.Pipeline.Changed | src/gips_core.cpp:40-47 | Returns the pipeline flag or any node's change, calling every node's `changed()` with no short cut. Afterwards no node is dirty and the flag is clear |
| GipsCore.ChangedNodes | src/gips_core.cpp:43-45 | The node loop reports whether some node was dirty and settles every node |
| GipsCore.Pipeline.Render | src/gips_core.cpp:144-263 | Records the new size. The draws are every pass of every enabled node among the first `maxNodes` (clamped), in order, each reading the previous result and writing the other buffer. `resultTex` is the last output, or the source if nothing ran |
| GipsCore.RenderNodes | src/gips_core.cpp:146-262 | The clamp and node loop produce exactly the `Rendered` draws and result |
| GipsCore.RenderStep | src/gips_core.cpp:172-262 | One turn of the node loop extends the draws of the nodes before it; a disabled node adds none |
| GipsCore.RenderNode | src/gips_core.cpp:175-261 | The pass loop of one enabled node draws its passes in order, chained from its input |
| GipsCore.ScheduleSlots | src/gips_core.cpp:172-175 | Pass p of node j is drawn iff j is among the first n nodes, the node is enabled, and p is below its pass count |
| GipsCore.ScheduleEmpty | src/gips_core.cpp:172-175 | Nothing is drawn iff no node among the first n is enabled with at least one pass |
| GipsCore.RenderedBuffers | src/gips_core.cpp:171-259 | With two distinct buffers, no pass writes the texture it reads, and every pass writes one of the two buffers. The result is the source iff no pass ran, and otherwise one of the buffers |
| GipsCore.ScheduleNext | src/gips_core.cpp:172-262 | The draws of node i appended to those of the nodes before it are the draws of the first i+1 nodes |
| GipsCore.PassNext | src/gips_core.cpp:175-259 | The draw of pass p extends the draws of the node's earlier passes |
| GipsCore.ChainAppend | src/gips_core.cpp:171-259 | Two chained runs of draws, one after the other, are one chained run with the same final result |
| GipsCore.ShiftInsert | src/gips_core.cpp:71-77 | The shift loop of `addNode` yields `InsertAt(list, index, node)` |
| GipsCore.ShiftRemove | src/gips_core.cpp:86-89 | The shift loop of `removeNode` yields `RemoveAt(list, index)` |
| GipsCore.ShiftMove | src/gips_core.cpp:98-101 | The two shift loops of `moveNode` yield `MoveTo(list, from, to)` |
| GipsCore.InsertKeeps | src/gips_core.cpp:69-77 | Inserting a new node keeps the list free of repeats and lists only the new node and old ones |
| GipsCore.RemoveKeeps | src/gips_core.cpp:85-89 | Removing keeps the list free of repeats and lists only old nodes |
| ShaderLoader.ClassifyListed | src/gips_shader_loader.cpp:47-63 | Every pattern listed in the token map is classified as its listed token |
| ShaderLoader.ClassifyUnlisted | src/gips_shader_loader.cpp:47-63 | Any other token text is `Other` |
| ShaderLoader.IdentLenShape | src/gips_shader_loader.cpp:154 | The key (or value) scan covers identifier characters only, and stops at the first non-identifier |
| ShaderLoader.IdentLenUnique | src/gips_shader_loader.cpp:154 | Those two properties determine where the scan stops |
| ShaderLoader.TokenEnd | src/gips_shader_loader.cpp:152-160 | The token reaches at least past its key and never past the text |
| ShaderLoader.TokenCut | src/gips_shader_loader.cpp:162 | The deleted stretch ends within the text |
| ShaderLoader.AnnotationsKeep | src/gips_shader_loader.cpp:148-150 | A character that is not an '@', or an '@' after an alphanumeric, is kept in the comment text and ends no annotation |
| ShaderLoader.AnnotationsToken | src/gips_shader_loader.cpp:148-249 | An '@' not after an alphanumeric yields one annotation, and the token text is cut out before the scan goes on |
| ShaderLoader.Annotations | src/gips_shader_loader.cpp:146-250 | What remains of the comment is never longer than the comment |
| ShaderLoader.ExtractAnnotations | src/gips_shader_loader.cpp:146-250 | The in-place `strchr`/`memmove` loop yields exactly the annotations and the remaining text of `Annotations` |
| ShaderLoader.FindAt | src/gips_shader_loader.cpp:148-149 | The search moves to the next '@', or to the end, keeping the scan invariant |
| ShaderLoader.TakeToken | src/gips_shader_loader.cpp:152-249 | Lower-cases the key and value, cuts the token out, and returns the token's annotation; the buffer gets shorter |
| ShaderLoader.ReadIdent | src/gips_shader_loader.cpp:154-159 | The loop stops after the identifier run and returns it lower-cased |
| ShaderLoader.ScanStart | src/gips_shader_loader.cpp:146 | The scan invariant holds at the start of the comment |
| ShaderLoader.ScanDone | src/gips_shader_loader.cpp:149 | At the end of the text, the collected annotations and the buffer are `Annotations(content)` |
| ShaderLoader.TokenParts | src/gips_shader_loader.cpp:152-162 | The key, the optional value after '=', and the cut position the loop computes are those of `TokenAnnotation` |
| ShaderLoader.Trunc | src/gips_shader_loader.cpp:220 | `int(x)` truncates toward zero on both signs |
| ShaderLoader.SetParamType | src/gips_shader_loader.cpp:207-215 | The type is replaced iff the uniform's data type matches, and then only the type changes |
| ShaderLoader.EditParam | src/gips_shader_loader.cpp:218-229 | A parameter edit never renames the parameter |
| ShaderLoader.ParamAnnotation | src/gips_shader_loader.cpp:218-229 | A parameter annotation keeps the number and names of the declared parameters |
| ShaderLoader.GlobalAnnotation | src/gips_shader_loader.cpp:230-244 | A global annotation leaves the parameters untouched |
| ShaderLoader.EvalAnnotation | src/gips_shader_loader.cpp:165-245 | Any annotation keeps the number and names of the declared parameters |
| ShaderLoader.EvalAnnotations | src/gips_shader_loader.cpp:147-250 | A comment's annotations keep the number and names of the declared parameters |
| ShaderLoader.AnnotationScope | src/gips_shader_loader.cpp:183-245 | A parameter key outside a parameter comment, a global key inside one, and an unknown key each only report their error |
| ShaderLoader.VersionGate | src/gips_shader_loader.cpp:239-244 | A version above 1.0 aborts the load with its error; an accepted version changes nothing |
| ShaderLoader.CommentStep | src/gips_shader_loader.cpp:134-263 | A comment keeps the declared parameters, and afterwards no parameter is current (unless the load aborted) |
| ShaderLoader.ApplyComment | src/gips_shader_loader.cpp:134-263 | The comment handling computes exactly `CommentStep` |
| ShaderLoader.EvalAll | src/gips_shader_loader.cpp:147-250 | The token loop computes exactly `EvalAnnotations` |
| ShaderLoader.TrimmedText | src/gips_shader_loader.cpp:253-256 | The parameter description is the comment text with leading and trailing whitespace removed |
| ShaderLoader.InIsDropped | src/gips_shader_loader.cpp:266-269 | The token `in` leaves the scan state exactly as it was, history included |
| ShaderLoader.UniformDeclaration | src/gips_shader_loader.cpp:273-296 | After `uniform`, a float/vec2/vec3/vec4 name appends a default parameter of the matching type and makes it current. Any other type only reports an unsupported uniform |
| ShaderLoader.InitialiserStart | src/gips_shader_loader.cpp:298-302 | Inside a declaration with no value yet, a token holding '=' starts the initialiser at slot 0 and does nothing else |
| ShaderLoader.InitialiserValue | src/gips_shader_loader.cpp:304-318 | In the initialiser, a number fills the next of the four slots; past four, or for a non-number, nothing is stored. A ';' ends the statement, and the current parameter is kept |
| ShaderLoader.PassDeclaration | src/gips_shader_loader.cpp:320-351 | A `vec3/4 run…(vec2/3/4` signature marks its pass as declared and gives it the current filter and coordinate settings |
| ShaderLoader.PassFormats | src/gips_shader_loader.cpp:337-347 | The pass input is Coord, RGB or RGBA by the argument type, and the output is RGB or RGBA by the return type |
| ShaderLoader.PassMode | src/gips_shader_loader.cpp:327-334 | `run` sets single-pass mode, `run_pass1` clears it, and the other passes keep it |
| ShaderLoader.PassApplies | src/gips_shader_loader.cpp:320-326 | The pass signature is recognised on the token that completes it |
| ShaderLoader.PassOf | src/gips_shader_loader.cpp:327-334 | `run` and `run_pass1` are pass 0, and `run_passN` is pass N-1, always below `MaxPasses` |
| ShaderLoader.FillValue | src/gips_shader_loader.cpp:304-312 | Filling a value keeps the history and the declared parameters' names |
| ShaderLoader.DeclareUniform | src/gips_shader_loader.cpp:273-296 | A declaration adds at most one parameter and renames none |
| ShaderLoader.StatementToken | src/gips_shader_loader.cpp:298-352 | The statement part of the loop keeps the number and names of the parameters |
| ShaderLoader.AfterHistory | src/gips_shader_loader.cpp:273-352 | Everything after the history update adds at most one parameter and renames none |
| ShaderLoader.ClassStep | src/gips_shader_loader.cpp:266-352 | One classified code token adds at most one parameter and renames none |
| ShaderLoader.CodeStep | src/gips_shader_loader.cpp:266-352 | One code token adds at most one parameter and renames none |
| ShaderLoader.ApplyCodeToken | src/gips_shader_loader.cpp:265-352 | The history shift loop and the token handling compute exactly `CodeStep` |
| ShaderLoader.Step | src/gips_shader_loader.cpp:132-353 | One token of the tokenizer loop adds at most one parameter and renames none |
| ShaderLoader.ApplyToken | src/gips_shader_loader.cpp:132-353 | One turn of the tokenizer loop computes exactly `Step` |
| ShaderLoader.ScanAll | src/gips_shader_loader.cpp:131-353 | The scan adds at most one parameter per token and never renames one |
| ShaderLoader.ScanTokens | src/gips_shader_loader.cpp:131-353 | The tokenizer loop, stopping at an abort, computes exactly `ScanAll` from the initial state |
| ShaderLoader.ScanAllStep | src/gips_shader_loader.cpp:132 | A scan that has not aborted is its first step followed by the scan of the rest |
| ShaderLoader.ScanAllAppend | src/gips_shader_loader.cpp:132 | Scanning two token runs one after the other is scanning them together |
| ShaderLoader.AbortIsFinal | src/gips_shader_loader.cpp:243 | Once aborted, no later token changes anything, and an abort needs at least one token |
| ShaderLoader.InitialScan | src/gips_shader_loader.cpp:71-92 | The scan starts with no parameters, no declared passes and no abort |
| ShaderLoader.SetParam | src/gips_shader_loader.cpp:212-222 | Writing the current parameter back under its own name keeps the number and names of the parameters |
| ShaderLoader.DecimalString | src/gips_shader_loader.cpp:364 | `std::to_string` of a count is a non-empty string of digits |
| ShaderLoader.DecimalRoundTrip | src/gips_shader_loader.cpp:364 | The digit string reads back as the same number |
| ShaderLoader.FormatReadsBack | src/gips_shader_loader.cpp:363-369 | The format is "%." then the digit count then "f", followed by " " and the unit exactly when a unit was given |
| ShaderLoader.FinalParam | src/gips_shader_loader.cpp:356-377 | Finalising keeps name, type and description and always leaves a non-negative digit count |
| ShaderLoader.CarryOver | src/gips_shader_loader.cpp:371-377 | A parameter whose name was loaded before takes the four values of the first old parameter of that name; a new name keeps its initialiser values |
| ShaderLoader.FinalParams | src/gips_shader_loader.cpp:356-378 | Every parameter is finalised, in order |
| ShaderLoader.FinalizeParams | src/gips_shader_loader.cpp:356-378 | The finalisation loop computes exactly `FinalParams` |
| ShaderLoader.CallNameDeclaresPass | src/gips_shader_loader.cpp:429-430 | The entry point the generated `main` calls is the one the scan took as that pass: `run` only for pass 0 in single-pass mode |
| ShaderLoader.CallNameRow | src/gips_shader_loader.cpp:54-58 | The called name is a pattern of the token map |
| ShaderLoader.OutputAlpha | src/gips_shader_loader.cpp:425-444 | An RGB output is wrapped in `vec4(…, 1.0)` for Coord input and `vec4(…, color.a)` otherwise; an RGBA output is assigned as it is |
| ShaderLoader.Consecutive | src/gips_shader_loader.cpp:387 | The passes from k on are declared up to the first undeclared one, and never more than `MaxPasses` |
| ShaderLoader.BuildFrom | src/gips_shader_loader.cpp:387-483 | Building keeps four pass slots |
| ShaderLoader.BuildPasses | src/gips_shader_loader.cpp:387-480 | The pass loop computes exactly `BuildFrom` |
| ShaderLoader.BuildCount | src/gips_shader_loader.cpp:387-483 | The pass count is either 0 (a compile or link failed) or the number of consecutive declared passes. It is the latter iff every one of those passes builds |
| ShaderLoader.MissingPassesReported | src/gips_shader_loader.cpp:387-480 | When every pass of the consecutive run builds, "intermediate passes are missing" is reported iff some declared pass lies beyond the run |
| ShaderLoader.LoadFile | src/gips_shader_loader.cpp:67-491 | A load always leaves four pass slots |
| ShaderLoader.LoadShader | src/gips_shader_loader.cpp:67-491 | `Node::load` after the file-name check computes exactly `LoadFile` |
| ShaderLoader.LoadPassCount | src/gips_shader_loader.cpp:109-490 | A load succeeds iff the file is read, the scan does not abort, pass 1 is declared, and every pass of the consecutive run builds; the count is then the run's length |
| GipsIO.Hex2Int | src/gips_io.cpp:105-110 | -1 for a non-hex character, and otherwise the digit's value 0..15 |
| GipsIO.HexDigit | src/gips_io.cpp:26-28 | The upper-case hex digit of a value below 16, which `hex2int` reads back as that value |
| GipsIO.ColorByte | src/gips_io.cpp:23-25 | The scaled channel is clamped to 0..255 |
| GipsIO.ColorByteRounds | src/gips_io.cpp:23-25 | `int(x*255+0.5)` clamped: 255 above the range, 0 below it, and otherwise x*255 rounded half up |
| GipsIO.ColorByteOfChannel | src/gips_io.cpp:23-210 | A channel that came from a byte (b/255) writes back as the same byte |
| GipsIO.HexPair | src/gips_io.cpp:27-28 | One channel writes two characters |
| GipsIO.HexBody | src/gips_io.cpp:22-29 | n channels write 2n characters |
| GipsIO.HexBodyAt | src/gips_io.cpp:22-29 | Characters 2i and 2i+1 are the hex pair of channel i |
| GipsIO.ChannelByte | src/gips_io.cpp:23-25 | The conversion and the two clamps compute `ColorByte` |
| GipsIO.WritePair | src/gips_io.cpp:27-28 | Two hex digits are written at the position and nothing else in the buffer changes |
| GipsIO.FloatToHexColor | src/gips_io.cpp:20-31 | The buffer holds '#', the hex pairs of the first `count` channels, and a NUL; nothing after it is touched |
| GipsIO.HexScanShape | src/gips_io.cpp:204-212 | A scan that does not fail reads 1..room hex pairs, each as `hex2int(hi)*16+hex2int(lo)` over 255, and stops early only at the end of the text |
| GipsIO.HexScanComplete | src/gips_io.cpp:204-212 | An even-length hex text that fits in the room is read completely |
| GipsIO.HexColor | src/gips_io.cpp:202-216 | A colour value is accepted iff it has exactly 6 or 8 hex digits; it then gives 3 or 4 channels, pair by pair |
| GipsIO.ScanHexColor | src/gips_io.cpp:204-212 | The hex loop computes exactly the pair scan over at most four channels |
| GipsIO.ScanFails | src/gips_io.cpp:206-209 | A missing or non-hex character fails the scan |
| GipsIO.ScanAdvance | src/gips_io.cpp:205-212 | One turn of the hex loop appends one pair's channel and stops at the end of the text or after four |
| GipsIO.Channels | src/gips_io.cpp:23-210 | Writing and reading back keeps one value per channel |
| GipsIO.PairOfByte | src/gips_io.cpp:26-210 | The two hex digits written for a byte read back as that byte over 255 |
| GipsIO.HexBodyDigits | src/gips_io.cpp:26-28 | Every written colour character is a hex digit |
| GipsIO.HexRoundTrip | src/gips_io.cpp:20-216 | The text written for an RGB or RGBA value reads back as its channels, each rounded to a byte |
| GipsIO.HexRewrite | src/gips_io.cpp:20-216 | Writing the read-back channels again gives the same text, so a second save round trip is exact |
| GipsIO.ChannelRewrites | src/gips_io.cpp:23-25 | A read-back channel writes as the same byte |
| GipsIO.SkipSeps | src/gips_io.cpp:101-226 | Skipping separators stops at a non-separator or the end |
| GipsIO.SkipSeparators | src/gips_io.cpp:226 | The loop skips exactly the leading commas and whitespace |
| GipsIO.Consumed | src/gips_io.cpp:221 | `strtof` consumes a prefix of the text |
| GipsIO.NumberList | src/gips_io.cpp:219-230 | A list that does not fail gives 1..4 numbers, and text is left over only after four |
| GipsIO.NumberListStep | src/gips_io.cpp:219-230 | One number followed by separators is the head of the list, and the loop stops at the end of the text or at four |
| GipsIO.ScanNumbers | src/gips_io.cpp:219-230 | The number loop computes exactly `NumberList` with room for four values |
| GipsIO.ValueOf | src/gips_io.cpp:200-238 | A value that parses yields one to four components |
| GipsIO.ParseValue | src/gips_io.cpp:200-238 | The value parsing computes exactly `ValueOf` |
| GipsIO.SerialArity | src/gips_io.cpp:70-91 | A parameter writes 1 to 4 values: as many as it uploads, and 1 for an angle |
| GipsIO.ValueTextCases | src/gips_io.cpp:70-91 | Value, Toggle and Angle write one number; Value2/3/4 write 2/3/4 numbers separated by ", "; RGB and RGBA write '#' and 3 or 4 hex pairs |
| GipsIO.AppendValue | src/gips_io.cpp:70-91 | The type switch appends exactly the parameter's value text |
| GipsIO.AppendColor | src/gips_io.cpp:85-90 | A colour appends '#' and the hex pairs of its 3 or 4 channels |
| GipsIO.AppendParam | src/gips_io.cpp:68-92 | Appends "name = value" and a CRLF |
| GipsIO.AppendParams | src/gips_io.cpp:67-93 | The parameter loop appends one CRLF-terminated line per parameter, in order |
| GipsIO.ParamLines | src/gips_io.cpp:67-93 | One line per parameter |
| GipsIO.AppendNode | src/gips_io.cpp:45-93 | A node appends its section header, the `.show` line when this node is the shown one and not the last, the `.enabled = 0` line when disabled, and its parameter lines |
| GipsIO.NodeOpeningLines | src/gips_io.cpp:55-65 | The node's lines are the blank line, "[relpath]", the optional `.show` and `.enabled` lines, then its parameters |
| GipsIO.HeaderText | src/gips_io.cpp:39-42 | The header is "[GIPS]", "version = 1", and ".show = 1" only for show index 0, each ended by CRLF |
| GipsIO.Snapshot | src/gips_io.cpp:44-45 | The nodes' saved state, one per node, in order |
| GipsIO.Serialize | src/gips_io.cpp:37-97 | The text written is the header followed by each node's lines, CRLF-terminated, in pipeline order |
| GipsIO.JoinAppend | src/gips_io.cpp:38-96 | Writing two runs of lines is writing them together |
| GipsIO.LeadBlanks | src/gips_io.cpp:121 | The blanks skipped at the start of a line are spaces and tabs only, and stop at the first other character |
| GipsIO.IndexOf | src/gips_io.cpp:124-180 | The first occurrence of the character, or the end |
| GipsIO.LineEnd | src/gips_io.cpp:122-126 | The end of the kept line lies between the skipped blanks and the end of the raw line |
| GipsIO.NextLine | src/gips_io.cpp:120-128 | One turn of the line loop takes the trimmed first line and leaves a strictly shorter rest; the lines of the data are that line followed by the lines of the rest |
| GipsIO.LineStep | src/gips_io.cpp:120-128 | After a line, the reader goes on past the '\n'. As written it stops when the line ends right at the '\n', because the NUL overwrote it |
| GipsIO.LineBounds | src/gips_io.cpp:121-126 | The start, end and '\n' positions the loops find are those of the specification |
| GipsIO.FindSeparator | src/gips_io.cpp:177-183 | The key loop stops at the first '=' and marks the end of the key before trailing whitespace |
| GipsIO.SplitKey | src/gips_io.cpp:177-198 | The key/value split computes exactly `KeyValueOf` |
| GipsIO.KeyValueShape | src/gips_io.cpp:180-198 | An accepted split has a non-empty key, a prefix of the line holding no '=', and a non-empty value that does not start with whitespace |
| GipsIO.KeySplit | src/gips_io.cpp:177-198 | "key gap = gap value" splits into key and value, except that as written a key with no gap before '=' is a syntax error |
| GipsIO.KeyValueAt | src/gips_io.cpp:180-192 | The split at the found '=' position, as the code computes it |
| GipsIO.PseudoKeyLine | src/gips_io.cpp:176-198 | "key = text" is already trimmed and splits into that key and text |
| GipsIO.Fill | src/gips_io.cpp:242-244 | The parsed values come first, and the parameter's defaults fill the remaining slots |
| GipsIO.FillDefaults | src/gips_io.cpp:241-244 | The fill loop computes exactly `Fill` |
| GipsIO.Apply | src/gips_io.cpp:246-274 | Applying a value keeps the reader coherent; each case is stated by the `Apply…` lemmas below |
| GipsIO.ApplyShow | src/gips_io.cpp:246-250 | `.show` with a positive first value sets the show index to the current node count (corrected: 0 before `clear()`), and nothing else |
| GipsIO.ApplyVersion | src/gips_io.cpp:253-258 | `version` before the first node accepts a value within 1e-6 of 1 and otherwise rejects the document, and nothing else changes |
| GipsIO.ApplyEnable | src/gips_io.cpp:261-265 | `.enabled`, `.enable` and `.active` switch the current node on exactly when the first value is above 0.5, and change nothing else |
| GipsIO.ApplyEnableIs | src/gips_io.cpp:261-265 | The enable keys replace the current node by itself with the new flag |
| GipsIO.ApplyParameter | src/gips_io.cpp:241-274 | A key naming parameter k of the current node sets all four of its components: the parsed values first, then the parameter's own defaults; every other parameter, the errors, the flag and the other nodes stay as they were |
| GipsIO.ApplyParameterIs | src/gips_io.cpp:241-274 | The parameter case replaces the current node's parameter k by its `Fill`ed value |
| GipsIO.ApplyUnknown | src/gips_io.cpp:267-269 | A key no parameter of the current node has adds "unknown parameter" to that node, and nothing else changes |
| GipsIO.TooManyAppliesFour | src/gips_io.cpp:231-244 | Inside a node, more than four values report "too many values" and the first four are applied all the same |
| GipsIO.ApplyLine | src/gips_io.cpp:240-274 | The `.show`, `version`, `.enabled` and parameter handling computes exactly `Apply` |
| GipsIO.ReadLine | src/gips_io.cpp:130-274 | One line of the loop computes exactly `Step` |
| GipsIO.Unserialize | src/gips_io.cpp:112-277 | The whole reader computes exactly `ReadSpec`: the outcome (returned index or crash) and the resulting node list |
| GipsIO.Section | src/gips_io.cpp:135-173 | While waiting for the first section, `[GIPS]` ends the wait and any other section rejects the document. A node section before the version was accepted rejects the document with the nodes untouched. Otherwise the first node section empties the pipeline and each adds a node loaded from the resolved path when `init` succeeds |
| GipsIO.Assignment | src/gips_io.cpp:176-274 | A line without '=' or with an empty value is fatal before the first node (rejected, nodes untouched) and soft inside a node (one more message, parameters unchanged). A bad colour or number before the first node crashes as written and is rejected as corrected |
| GipsIO.Step | src/gips_io.cpp:130-274 | Comments and blank lines change nothing, and while waiting for the first section any other line that is not a section header rejects the document with the nodes untouched |
| GipsIO.Run | src/gips_io.cpp:119-275 | The line loop keeps the reader coherent |
| GipsIO.ReadSpec | src/gips_io.cpp:112-277 | Empty data returns -1 and keeps the nodes, and no returned index is below -1; otherwise the lines are read in turn and the reader's state decides the result: -1 after a rejection, a crash, or the recorded show index (the node count when none was recorded) |
| GipsIO.Lines | src/gips_io.cpp:119-128 | The lines the loop visits: blanks skipped at the front, whitespace trimmed at the end, split at '\n' (as written, a line ending at its '\n' ends the text); `NextLine` and `JoinLines` state its properties |
| GipsIO.KeyValueOf | src/gips_io.cpp:177-198 | The split at the first '=': no '=' is a syntax error, an empty value an empty-value error, otherwise the trimmed key and value; `KeyValueShape`, `KeySplit` and `SplitKey` state its properties |
| GipsIO.Soft | src/gips_io.cpp:184-198 | A syntax error is fatal before the first node (rejected, nodes untouched) and otherwise one more message on the current node, with its parameters unchanged |
| GipsIO.Fault | src/gips_io.cpp:202-236 | An invalid colour, invalid value or too many values before the first node crashes as written and rejects as corrected, with the nodes untouched; inside a node it is one more message |
| GipsIO.ShaderEnv | src/gips_core.h:106-110 | The reader's `addNode(filename)` loads each node through the shader loader, so every loaded node names the file it was asked for and starts enabled |
| GipsIO.SyntaxErrorBeforeNode | src/gips_io.cpp:184-198 | Before the first node, a line without '=' or with an empty value stops the reader with a rejection and nothing else changes |
| GipsIO.SyntaxErrorInNode | src/gips_io.cpp:184-198 | Inside a node, the same line only appends "syntax error" or "empty value" to that node's errors, and reading goes on |
| GipsIO.GipsLineRejected | src/gips_io.cpp:141-276 | A line of the `[GIPS]` section that the reader rejects makes `unserialize` return -1 with the pipeline untouched |
| GipsIO.NotGipsRejected | src/gips_io.cpp:136-174 | A document whose first line that is not blank or a comment is not `[GIPS]` returns -1 with the pipeline untouched |
| GipsIO.NodeBeforeVersionRejected | src/gips_io.cpp:149-152 | A node section before `version = 1` returns -1 with the pipeline untouched |
| GipsIO.WrongVersionRejected | src/gips_io.cpp:253-256 | A version that is not 1 (within 1e-6) returns -1 with the pipeline untouched |
| GipsIO.GipsSyntaxErrorRejected | src/gips_io.cpp:184-198 | A line without '=' or with an empty value in the `[GIPS]` section returns -1 with the pipeline untouched |
| GipsIO.Loaded | src/gips_io.cpp:170 | A node added for a section has the resolved file name and is enabled |
| GipsIO.SetLast | src/gips_io.cpp:263 | Replacing the current node keeps the reader coherent, and the current node is the new one |
| GipsIO.Report | src/gips_io.cpp:187-269 | An error appended to the current node keeps the reader coherent |
| GipsIO.RunAppend | src/gips_io.cpp:119 | Reading two runs of lines one after the other is reading them together |
| GipsIO.RunCons | src/gips_io.cpp:119 | Reading a line and then the rest is reading them together |
| GipsIO.JoinLines | src/gips_io.cpp:120-128 | A text of CRLF-ended lines (or, corrected, LF-ended lines) splits back into the lines, each trimmed |
| GipsIO.TrimCR | src/gips_io.cpp:124-125 | A trailing CR is trimmed away with the other whitespace |
| GipsIO.LineOfJoin | src/gips_io.cpp:120-128 | A line ended by CR LF is read as its trimmed text; as corrected, so is one ended by LF alone |
| GipsIO.GipsStep | src/gips_io.cpp:141-145 | "[GIPS]" while waiting for the first section ends the wait and does nothing else |
| GipsIO.VersionStep | src/gips_io.cpp:253-258 | "version = 1" in the `[GIPS]` section accepts the version and does nothing else |
| GipsIO.ShowStep | src/gips_io.cpp:246-250 | ".show = 1" sets the show index to the current node count; as corrected, it sets 0 in the `[GIPS]` section before `clear()` |
| GipsIO.DisableStep | src/gips_io.cpp:261-265 | ".enabled = 0" disables the current node and does nothing else |
| GipsIO.StepAssigns | src/gips_io.cpp:130-175 | A line that is not empty, not a comment and not a section is a key/value assignment |
| GipsIO.AssignStep | src/gips_io.cpp:176-274 | "key = number" applies that one number to the key |
| GipsIO.AssignmentOfNumbers | src/gips_io.cpp:200-274 | A key/value line whose value parses as numbers applies those numbers |
| GipsIO.HeaderRun | src/gips_io.cpp:39-258 | The written header reads as: wait over, version accepted, no node yet, and the show index the header marks |
| GipsIO.NodeHeadRun | src/gips_io.cpp:149-172 | A section header after the version line adds a node loaded from the resolved path |
| GipsIO.NodeOpenRun | src/gips_io.cpp:59-250 | The section header and the optional `.show` line add the node and record the show index |
| GipsIO.DisabledRun | src/gips_io.cpp:63-265 | The optional `.enabled = 0` line leaves the node's enabled flag as it was written |
| GipsIO.OpeningRun | src/gips_io.cpp:55-265 | A node's opening lines read back as a node loaded from the resolved path, with its enabled flag and show mark |
| GipsIO.StepInert | src/gips_io.cpp:267-274 | A parameter line changes no node's file, no enabled flag and not the show index |
| GipsIO.RunInert | src/gips_io.cpp:267-274 | A run of parameter lines changes no node's file, no enabled flag and not the show index |
| GipsIO.ApplyInert | src/gips_io.cpp:241-274 | Applying a value to a key other than `.show` and the enable keys leaves files, flags and the show index alone |
| GipsIO.ParamLinesInert | src/gips_io.cpp:67-274 | Every written parameter line is such a line |
| GipsIO.NodeRun | src/gips_io.cpp:44-274 | The lines written for one node read back as one node with its resolved path, its enabled flag and its show mark |
| GipsIO.NodesRun | src/gips_io.cpp:44-275 | The lines written for the first k nodes read back as k nodes, in order |
| GipsIO.NodesRunStep | src/gips_io.cpp:44-275 | The induction step of `NodesRun` |
| GipsIO.FirstNodeRun | src/gips_io.cpp:149-153 | The first node section clears the old pipeline and adds the first node |
| GipsIO.NextNodeRun | src/gips_io.cpp:159-172 | Each further node section adds one node after those already read |
| GipsIO.ShowAfterNext | src/gips_io.cpp:60-250 | The recorded show index changes only at the node it marks |
| GipsIO.SerializedLines | src/gips_io.cpp:37-128 | The text written splits back into the header lines and the node lines, each trimmed |
| GipsIO.SerializedRun | src/gips_io.cpp:37-275 | Reading the written lines yields the nodes in order, with their flags and the show index |
| GipsIO.ParamLineNoLineFeed | src/gips_io.cpp:69-92 | A parameter line holds no line feed |
| GipsIO.NodesNoLineFeeds | src/gips_io.cpp:44-94 | No written line holds a line feed |
| GipsIO.FinishSketch | src/gips_io.cpp:276 | The reader returns the recorded show index, or the node count when none was recorded |
| GipsIO.RoundTrip | src/gips_io.cpp:37-277 | Reading back a non-empty saved pipeline gives one node per saved node, in order, each loaded from its relative path resolved again, with its enabled flag, and returns the saved show index (as written: see `ShowZeroAsWritten`) |
| GipsIO.ReadNodesExact | src/gips_io.cpp:37-277 | Reading back a non-empty saved pipeline gives exactly the saved nodes reloaded: each shader loaded again from its resolved path, with its enabled flag and its written parameter values applied |
| GipsIO.RoundTripValues | src/gips_io.cpp:37-277 | Reading back a non-empty saved pipeline restores every written parameter value: each parameter's saved components (a colour's as its bytes over 255) come back, the remaining slots hold the reloaded defaults, and each node keeps only the loader's messages |
| GipsIO.EmptyPipelineKeepsNodes | src/gips_io.cpp:37-276 | Reading back a saved empty pipeline keeps the nodes the pipeline held, since `clear()` runs only at the first node section, and returns their count unless the header marked show index 0 |
| GipsIO.LfStopsAsWritten | src/gips_io.cpp:124-128 | As written, a line ended by a bare LF ends the file: the NUL replaces the '\n' |
| GipsIO.LfFileIgnoredAsWritten | src/gips_io.cpp:124-276 | As written, a saved pipeline with bare LF line ends reads only "[GIPS]", so the old nodes and their count are kept |
| GipsIO.KeyWithoutGapAsWritten | src/gips_io.cpp:180-189 | As written, "key=value" with no space before '=' is a syntax error, because the NUL overwrites the '='; as corrected it splits into key and value |
| GipsIO.EmptyValueSplit | src/gips_io.cpp:190-198 | "key =" with only whitespace after '=' is an empty-value error: as written it quotes the empty value, as corrected the key |
| GipsIO.EmptyValueQuotesNothing | src/gips_io.cpp:196 | As written, the empty-value error quotes the empty string instead of the key |
| GipsIO.EmptyValueNamesKey | src/gips_io.cpp:196 | As corrected, the empty-value error names the key |
| GipsIO.BadColorStep | src/gips_io.cpp:213-215 | A bad colour in the `[GIPS]` section dereferences the null node as written (a crash), and is rejected as corrected |
| GipsIO.BadColorRun | src/gips_io.cpp:141-215 | "[GIPS]" then "gain = #zz" ends in a crash as written, and in rejection as corrected |
| GipsIO.CrashBeforeSectionAsWritten | src/gips_io.cpp:202-233 | As written, the two-line file "[GIPS]", "gain = #zz" crashes the reader; as corrected it returns -1 and keeps the old nodes |
| GipsIO.StepNeverCrashes | src/gips_io.cpp:130-274 | As corrected, no line crashes the reader |
| GipsIO.CorrectedNeverCrashes | src/gips_io.cpp:119-275 | As corrected, no run of lines crashes the reader |
| GipsIO.ReadNeverCrashes | src/gips_io.cpp:112-277 | As corrected, `unserialize` never crashes on any data |
| GipsIO.ShowZeroAsWritten | src/gips_io.cpp:39-250 | As written, a pipeline saved with show index 0 reads back returning the old pipeline's node count, because `nodeCount()` is taken before `clear()` |
| GipsIO.ShowRoundTrip | src/gips_io.cpp:39-276 | As corrected, any show index 0..n saved with n ≥ 1 nodes is returned on reading back, with CRLF or LF line ends |
| DirListing.NameLess | src/vfs.cpp:99-102 | The name comparison: skip equal characters after `tolower` until a terminator, then compare the characters reached as signed values; `NameIrreflexive`, `NameAsymmetric`, `NameTransitive` and `NameEquivLower` state it is a strict weak order |
| DirListing.Less | src/vfs.cpp:97-103 | `Item::operator<`: a directory before a file, and otherwise `NameLess`; `Irreflexive`, `Asymmetric`, `Transitive` and `EquivCongruent` state it is a strict weak order, as `std::sort` needs |
| DirListing.Precedes | src/vfs.cpp:97-103 | The comparison loop returns exactly `Less`: a directory sorts before a file, and otherwise names compare case-insensitively by signed bytes |
| DirListing.LowerNul | src/vfs.cpp:101-102 | Only NUL lower-cases to NUL and reads as 0; two characters compare equal after lower-casing iff their signed values do |
| DirListing.NameIrreflexive | src/vfs.cpp:99-102 | No name sorts before itself |
| DirListing.NameAsymmetric | src/vfs.cpp:99-102 | Two names never sort before each other |
| DirListing.NameTransitive | src/vfs.cpp:99-102 | The name order is transitive |
| DirListing.NameSplit | src/vfs.cpp:99-102 | If a < c then a < b or b < c for every b, so incomparability is an equivalence: the order is a strict weak order, as `std::sort` requires |
| DirListing.NameEquivLower | src/vfs.cpp:101-102 | Two NUL-free names are unordered iff they are equal after lower-casing |
| DirListing.PrefixFirst | src/vfs.cpp:101-102 | A proper prefix sorts first, unless the next byte of the longer name is 0x80..0xFF: a signed `char` makes that byte negative, so the longer name sorts first |
| DirListing.HighByteBeforeEnd | src/dirlist.cpp:58-59 | "ab" followed by the UTF-8 bytes of 'é' sorts before "ab" |
| DirListing.Irreflexive | src/vfs.cpp:97-103 | No item sorts before itself |
| DirListing.Asymmetric | src/vfs.cpp:97-103 | Two items never sort before each other |
| DirListing.Transitive | src/vfs.cpp:97-103 | The item order is transitive |
| DirListing.Split | src/vfs.cpp:97-103 | The item order is a strict weak order |
| DirListing.EquivCongruent | src/vfs.cpp:97-103 | Equivalent items compare the same way with every other item |
| DirListing.EquivMeans | src/vfs.cpp:97-103 | Two items are equivalent iff both are directories or both are files, and their names agree after lower-casing |
| DirListing.Insert | src/vfs.cpp:60 | Inserting adds exactly one occurrence of the item |
| DirListing.InsertSorted | src/vfs.cpp:60 | Inserting into a sorted list keeps it sorted |
| DirListing.HeadLeast | src/vfs.cpp:60 | No item of a sorted list sorts before its head |
| DirListing.ConsSorted | src/vfs.cpp:60 | An item no other item sorts before, put in front of a sorted list, gives a sorted list |
| DirListing.SortBy | src/vfs.cpp:60 | Sorting is a permutation of the list |
| DirListing.SortBySorted | src/dirlist.cpp:35 | Sorting gives a sorted permutation of the list |
| DirListing.CacheUpdate | src/vfs.cpp:68-80 | After the last deadline, the entry takes the fresh scan and a deadline one second after the second clock reading. Otherwise it keeps its items and the deadline moves to one second after now |
| DirListing.NoRescanWithinSecond | src/vfs.cpp:71-79 | A second request within one second of the first returns the same items without a rescan |
| Vfs.NewItem | src/vfs.cpp:85-95 | An item keeps the directory flag, and its name without extension is the name cut at the extension start |
| Vfs.ListingExact | src/vfs.cpp:51-55 | A root's listing holds exactly one item per non-dot entry |
| Vfs.ScanRoot | src/vfs.cpp:46-55 | The directory loop over one root builds exactly that listing |
| Vfs.DirList.Merge | src/vfs.cpp:107-169 | The destination becomes `MergeSpec(destination, source)` and the source ends up empty |
| Vfs.MergeSpec | src/vfs.cpp:107-169 | `DirList::merge` on values: the lesser head first, and of two equivalent heads the destination's unless the source's is a newer file; `MergeKeepsDest`, `MergeKeepsSource`, `MergeFrom` and `MergeSorted` state its properties |
| Vfs.MergeInsert | src/vfs.cpp:130-140 | A source item smaller than the destination's current item, or arriving after the destination's end, is inserted there |
| Vfs.MergeSkip | src/vfs.cpp:144-147 | A smaller destination item is skipped |
| Vfs.MergeMatch | src/vfs.cpp:149-167 | For equal items, a file is replaced iff the source file is newer; directories are never replaced, and both cursors advance |
| Vfs.MergeFrom | src/vfs.cpp:107-169 | Every merged item comes from one of the two lists |
| Vfs.MergeKeepsDest | src/vfs.cpp:107-169 | Every destination item stays, unless an equivalent, newer source file replaced it |
| Vfs.MergeKeepsSource | src/vfs.cpp:107-169 | Every source item arrives, unless an equivalent destination item was kept over it |
| Vfs.MergeSorted | src/vfs.cpp:107-169 | Merging two sorted lists gives a sorted list |
| Vfs.TailSorted | src/vfs.cpp:107-169 | The rest of a sorted list is sorted |
| Vfs.DirListSorted | src/vfs.cpp:43-66 | `getDirList` returns a sorted list |
| Vfs.DirListFromRoots | src/vfs.cpp:43-66 | Every listed item comes from the listing of one of the roots |
| Vfs.RootAt | src/vfs.cpp:37-39 | The root at an index in range, and null otherwise |
| Vfs.RootAtAppend | src/vfs.cpp:29-39 | A root added with `addRoot` gets the next index, and the other roots keep theirs |
| Vfs.FileSystem.AddRoot | src/vfs.cpp:29-31 | The root is appended and the cache is untouched |
| Vfs.FileSystem.GetRootCount | src/vfs.cpp:33-35 | The number of roots |
| Vfs.FileSystem.GetRoot | src/vfs.cpp:37-39 | The root at an index in range, and null otherwise |
| Vfs.FileSystem.GetDirList | src/vfs.cpp:43-66 | The root loop scans, sorts and merges root by root, giving `DirListOf(roots)` |
| Vfs.FileSystem.GetCachedDirList | src/vfs.cpp:68-81 | Only the requested entry of the cache changes, by `CacheUpdate` with a fresh `getDirList`; the result is that entry's items |
| DirListCache.NewItem | src/dirlist.cpp:45-52 | An item keeps the directory flag; its full path is the joined path, or empty when the join fails; its name is cut at the extension |
| DirListCache.ListingExact | src/dirlist.cpp:30-33 | The listing holds exactly one item per non-dot entry |
| DirListCache.RescanSorted | src/dirlist.cpp:28-36 | A rescan gives a sorted permutation of the directory's listing |
| DirListCache.DirCache.ScanDir | src/dirlist.cpp:30-33 | The directory loop builds exactly the listing |
| DirListCache.DirCache.GetCachedDirList | src/dirlist.cpp:21-43 | Only the requested entry of the cache changes, by `CacheUpdate` with a fresh sorted scan; the result is that entry's items |
| GipsApp.ShowIndexFor | src/gips_app.h:131-134 | The shown index is clamped into 0..node count: kept when in range, 0 below, the node count above |
| GipsApp.ShowIndexIdempotent | src/gips_app.h:131-134 | Clamping an already clamped index changes nothing |
| GipsApp.ShowIndexMonotone | src/gips_app.h:131-134 | Clamping keeps the order of two requested indices |
| GipsApp.StatusTextFor | src/gips_app.h:155-158 | A non-null, non-empty message becomes the status text; a null or empty one clears it |
| GipsApp.CStringOf | src/gips_app.h:160-161 | Passing a `std::string` through `c_str()` keeps it up to its first NUL: the whole string when it has none |
| GipsApp.App.constructor | src/gips_app.h:63-122 | A new app shows index 0, has an empty, hidden, neutral status, no pending change request, and an empty pipeline |
| GipsApp.App.SetShowIndex | src/gips_app.h:131-134 | The stored and returned index is `ShowIndexFor(i, nodeCount)`, within 0..node count; the status and the change request are untouched |
| GipsApp.App.SetStatus | src/gips_app.h:155-158 | The status type is set; the text is the message and visible exactly when the message is non-null and non-empty; the rest is untouched |
| GipsApp.App.SetError | src/gips_app.h:162-163 | An error status with the message, returning false |
| GipsApp.App.SetErrorString | src/gips_app.h:160-161 | An error status with the string cut at its first NUL, returning false |
| GipsApp.App.SetSuccess | src/gips_app.h:166-167 | A success status with the message (none by default), returning true |
| GipsApp.App.SetSuccessString | src/gips_app.h:164-165 | A success status with the string cut at its first NUL, returning true |
| GipsApp.App.RequestInsertNode | src/gips_app.h:140-141 | The change request becomes an insert of the file at the index; its other fields and the rest of the app stay |
| GipsApp.App.RequestReloadNode | src/gips_app.h:142-143 | The change request becomes a reload of the node; its other fields and the rest of the app stay |
| GipsApp.App.RequestRemoveNode | src/gips_app.h:144-145 | The change request becomes a removal of the node; its other fields and the rest of the app stay |
| GipsApp.App.RequestMoveNode | src/gips_app.h:146-147 | The change request becomes a move from one index to the other; its path and the rest of the app stay |
| GipsApp.App.RequestUpdateSource | src/gips_app.h:148-149 | Only the request type changes, to a source update |
| GipsApp.App.RequestLoadImage | src/gips_app.h:150-151 | The change request becomes an image load of the file; its indices and the rest of the app stay |
| GipsApp.App.RequestSaveResult | src/gips_app.h:152-153 | The change request becomes a result save to the file; its indices and the rest of the app stay |
| CmdLine.Split | src/main.cpp:29-63 | The splitting of the rest of a command line keeps the splitter state valid; `ArgsJoinQuoted` states what it computes |
| CmdLine.Args | src/main.cpp:29-63 | The arguments a command line splits into, from the start state; `ArgsJoinQuoted` states that it undoes quoting and `SplitCommandLine` that the in-place loop finds them |
| CmdLine.ActionFor | src/main.cpp:31-62 | The loop's `switch`: two characters are consumed exactly for a backslash before a quote inside a quoted argument, and the action fits the state |
| CmdLine.ActionStep | src/main.cpp:29-63 | The action on the front character is the step of the splitting on strings |
| CmdLine.StepInQuote | src/main.cpp:50-61 | Inside quotes, any character but a quote or an escaped quote joins the open argument |
| CmdLine.SplitCloseQuote | src/main.cpp:41-43 | A quote inside an open, quoted argument ends the quoting and leaves the argument open |
| CmdLine.SplitInQuote | src/main.cpp:41-61 | Inside a quoted argument, a quote-free text and the closing quote extend the argument by exactly that text |
| CmdLine.SplitQuoted | src/main.cpp:41-47 | With no argument open, a quoted argument is started and holds exactly the quoted text |
| CmdLine.SplitSpace | src/main.cpp:32-40 | A blank outside quotes closes the open argument |
| CmdLine.SplitJoinQuoted | src/main.cpp:29-63 | Quoted arguments, each followed by a space, split back into the same arguments after any closed ones |
| CmdLine.ArgsJoinQuoted | src/main.cpp:29-63 | Splitting undoes quoting: any list of quotable arguments, quoted and joined, splits back into itself |
| CmdLine.StoredAction | src/main.cpp:30-61 | One pass of the loop keeps every argument laid out in the written text at its recorded start |
| CmdLine.Advance | src/main.cpp:30-62 | One pass of the loop body keeps the loop invariant and moves the read position forward |
| CmdLine.SplitCommandLine | src/main.cpp:20-64 | The in-place loop records one start per argument of `Args` of the original line, each start holding that argument NUL-terminated in the rewritten buffer, in increasing non-overlapping positions, never more than the line's length (the size of `argv`) |
| Patterns.Seeded | src/patterns.cpp:15-20 | The xorshift128 state `PRNG(seed)` starts in, modulo 2^32; `SeededNonZero` states it is never all zero |
| Patterns.Next | src/patterns.cpp:21-26 | The xorshift128 step of `getU32`; `NextZero`, `NextNonZero` and `SeededNeverZero` state its properties |
| Patterns.SeededNonZero | src/patterns.cpp:15-20 | No seed starts the xorshift128 generator in the all-zero state |
| Patterns.FirstMixNonZero | src/patterns.cpp:22 | `x ^ (x << 11)` of a nonzero word is nonzero |
| Patterns.LastMixNonZero | src/patterns.cpp:24 | With `w` zero, the new word `t ^ (t >> 8)` of a nonzero `t` is nonzero |
| Patterns.NextZero | src/patterns.cpp:21-26 | The all-zero state is a fixed point of `getU32` |
| Patterns.NextNonZero | src/patterns.cpp:21-26 | `getU32` never moves a nonzero state into the all-zero state |
| Patterns.SeededNeverZero | src/patterns.cpp:15-26 | However many numbers are drawn, a seeded generator never reaches the all-zero state |
| Patterns.RangeValue | src/patterns.cpp:29 | The value derived from a drawn number lies between the bounds |
| Patterns.Prng.constructor | src/patterns.cpp:15-20 | The generator starts in `Seeded(seed)` |
| Patterns.Prng.GetU32 | src/patterns.cpp:21-26 | One xorshift128 step; the result is the new `w` |
| Patterns.Prng.GetRange | src/patterns.cpp:27-30 | One step, and a value between the two bounds in either order, reduced modulo the width of the range |
| Patterns.XorPattern | src/patterns.cpp:264-274 | Every byte of the buffer, row by row: red is `x ^ 255`, green `x ^ y`, blue `y`, alpha `x - y` or 255, each cut to a byte |
| Patterns.NextNoise | src/patterns.cpp:160 | The next noise amplitude `(n >> 1) \| 1` is odd and at most `n` |
| Patterns.CornersFill | src/patterns.cpp:125-126 | A rectangle at which `recurse` stops is filled once its corners are |
| Patterns.FilledByQuadrants | src/patterns.cpp:161-164 | A split rectangle is filled once its four quadrants are |
| Patterns.GridCorners | src/patterns.cpp:133-164 | The nine grid points are exactly the corners of the four quadrants |
| Patterns.Recursion.constructor | src/patterns.cpp:166-171 | The recursion's generator is seeded with 42 |
| Patterns.Recursion.AddNoise | src/patterns.cpp:137-139 | A nonzero byte within `n` of the value, clamped to 1..255 |
| Patterns.Recursion.GenPix | src/patterns.cpp:140-144 | A pixel still 0 gets a noisy mean of its neighbours; a nonzero pixel is kept |
| Patterns.Recursion.Recurse | src/patterns.cpp:123-165 | Only channel `c` of the rectangle changes, and only to nonzero values. Nothing changes where `recurse` stops at once. A rectangle with nonzero corners ends up all nonzero, except, as written, a line one pixel wide or high |
| Patterns.Recursion.Split | src/patterns.cpp:128-164 | A rectangle that is not stopped at is filled once its corners are set |
| Patterns.Recursion.Edges | src/patterns.cpp:128-157 | Midpoints and centre are generated; with the corners set, all nine grid points are nonzero |
| Patterns.Recursion.Subdivide | src/patterns.cpp:160-164 | The four recursive calls fill the rectangle once its nine grid points are set |
| Patterns.Recursion.SeedPixel | src/patterns.cpp:176-179 | One corner byte becomes odd, hence nonzero; nothing else changes |
| Patterns.Recursion.SetCorners | src/patterns.cpp:176-179 | The four image corners of channel `c` become nonzero; nothing else changes |
| Patterns.Recursion.SeedChannel | src/patterns.cpp:172-186 | One pass of the driver loop fills channel `c`, except, as written, the inner pixels of a one-pixel-wide or one-pixel-high image |
| Patterns.Clouds | src/patterns.cpp:117-188 | Unused channels stay 0. Every used channel of every pixel is nonzero, under the corrected reading always and as written whenever the image is at least 2 x 2. As written, a one-pixel-wide or one-pixel-high image keeps its inner pixels at 0 |
| Patterns.Corner | src/patterns.cpp:176 | `uint8_t(getU32()) \| 1` is odd |
| ClipboardDib.Int32 | src/clipboard_win32.cpp:115-116 | A 32-bit field read as a signed `LONG`: unchanged below 2^31, less 2^32 from there on |
| ClipboardDib.LE16 | src/clipboard_win32.cpp:207-208 | A 16-bit header field written little-endian reads back as itself |
| ClipboardDib.LE32 | src/clipboard_win32.cpp:204-210 | A 32-bit header field written little-endian reads back as itself |
| ClipboardDib.ParseFields | src/clipboard_win32.cpp:95-119 | The header fields read back from written bytes are the written values, width and height taken as signed |
| ClipboardDib.Bpp | src/clipboard_win32.cpp:117 | Bytes per pixel are 4 for 32-bit DIBs and 3 otherwise |
| ClipboardDib.Stride | src/clipboard_win32.cpp:118 | `(rowBytes + 3) & ~3` is the least multiple of four not below the row's bytes |
| ClipboardDib.SmallStrides | src/clipboard_win32.cpp:118 | A row of one 24-bit or 32-bit pixel takes four bytes |
| ClipboardDib.WordStride | src/clipboard_win32.cpp:118 | Rows of 32-bit pixels need no padding |
| ClipboardDib.AbsHeight | src/clipboard_win32.cpp:116 | `std::abs` of any height except INT_MIN is its non-negative magnitude |
| ClipboardDib.HeaderCheckAsWritten | src/clipboard_win32.cpp:96-119 | The `headerOK` test as written: size, planes, `BI_RGB` 24/32-bit or `BI_BITFIELDS` 32-bit with the RGB masks, then the pixel-size check, with `biSize` read as a signed `int`; `HeaderCheckAgrees`, `NegativeBiSizeAccepted` and `BigBiSizeChecks` state how it relates to the intended check |
| ClipboardDib.HeaderCheckAgrees | src/clipboard_win32.cpp:96-119 | For `biSize` below 2^31 - 12 the check as written, with signed `int(biSize)` and 32-bit `biSize + 12`, accepts exactly the headers of the corrected check `HeaderAccepted`, which takes `biSize` as the unsigned offset it is |
| ClipboardDib.NegativeBiSizeAccepted | src/clipboard_win32.cpp:96-119 | A 44-byte DIB whose `biSize` is 0x80000000 passes the check as written, but not the corrected one, although its pixel data would start past its end |
| ClipboardDib.BigBiSizeChecks | src/clipboard_win32.cpp:96-119 | Any DIB under 2 GiB with that header passes the check as written and fails the corrected one |
| ClipboardDib.PixelOffset | src/clipboard_win32.cpp:124-143 | Every pixel the conversion loop reads lies inside the DIB, for a DIB accepted by the corrected check |
| ClipboardDib.OffsetInside | src/clipboard_win32.cpp:119-143 | Pixel `X` of stored row `r` ends within the size the check compared against |
| ClipboardDib.DecodedAsWritten | src/clipboard_win32.cpp:127-155 | As written, `maxAlpha <= 0xFF` always holds for a `uint8_t`, so every alpha comes out 0xFF and the colours are the converted ones |
| ClipboardDib.Decodable | src/clipboard_win32.cpp:96-125 | The DIBs converted directly: an accepted header and a non-negative width and height (the one exception to the source, for empty images with a negative dimension, is under Left out); `EncodedDecodable` states that every image the encoder writes is one |
| ClipboardDib.Decoded | src/clipboard_win32.cpp:123-161 | The intended output byte: the converted BGR(A) pixel, with alpha forced to 0xFF only when every stored alpha is 0; `DecodeDirect`, `GetRgba8Image` and `RoundTrip` state it is what is returned and that it restores an encoded image |
| ClipboardDib.GetRgba8Image | src/clipboard_win32.cpp:88-163 | The corrected reading: an image exactly for the DIBs `Decodable` accepts (the header check with unsigned `biSize`, and a non-negative width and height), with the DIB's width and height, every byte the converted one, and alpha forced to 0xFF only when every stored alpha is 0; otherwise null for the stb_image fallback |
| ClipboardDib.DecodeDirect | src/clipboard_win32.cpp:123-161 | The corrected reading of the direct branch: the rows converted bottom-up, then the opacity fix-up under the intended test `maxAlpha == 0`, giving `Decoded` for every byte |
| ClipboardDib.ConvertRow | src/clipboard_win32.cpp:130-143 | Output row `y` becomes the converted stored row; other rows stay. The running maximum alpha stays 0 exactly while every alpha read is 0 |
| ClipboardDib.StorePixel | src/clipboard_win32.cpp:132-140 | The four `*pDest++` writes set the one pixel's R, G, B, A; nothing else changes |
| ClipboardDib.MakeOpaque | src/clipboard_win32.cpp:150-154 | Every alpha becomes 0xFF; the colours are untouched |
| ClipboardDib.AlphaDroppedAsWritten | src/clipboard_win32.cpp:127-155 | A 1 x 1 32-bit DIB with stored alpha 0x80 decodes to alpha 0xFF as written and to 0x80 under the intended test |
| ClipboardDib.OnePixelAlpha | src/clipboard_win32.cpp:127-155 | In a 1 x 1 DIB with the encoder's header, a nonzero stored alpha survives under the intended test |
| ClipboardDib.InfoHeaderBytes | src/clipboard_win32.cpp:203-212 | The header `setRGBA8ImageAndText` writes is 40 bytes |
| ClipboardDib.PixelBgra | src/clipboard_win32.cpp:219-225 | One stored pixel is four bytes, B, G, R, A |
| ClipboardDib.RowBytes | src/clipboard_win32.cpp:218-226 | The first `n` pixels of a row are `4 * n` bytes |
| ClipboardDib.EncodeDib | src/clipboard_win32.cpp:192-227 | No DIB (false) exactly for a null image or an empty dimension; otherwise the header followed by the rows from the bottom up, each pixel swizzled to BGRA |
| ClipboardDib.CopyImage | src/clipboard_win32.cpp:203-227 | The header and the copy loop produce exactly the encoded DIB |
| ClipboardDib.AppendRow | src/clipboard_win32.cpp:217-226 | The inner loop appends exactly the row's bytes |
| ClipboardDib.RowBytesIndex | src/clipboard_win32.cpp:218-226 | Pixel `X` of a row sits at bytes `4 * X` to `4 * X + 3` |
| ClipboardDib.StoredRowsLength | src/clipboard_win32.cpp:216-227 | `n` stored rows take `n * 4 * width` bytes |
| ClipboardDib.StoredRowsAt | src/clipboard_win32.cpp:216-227 | Stored row `r` occupies the `r`-th block of `4 * width` bytes |
| ClipboardDib.EncodedHeader | src/clipboard_win32.cpp:197-213 | The encoded DIB has the header's length plus the pixel bytes, and its header parses to the encoder's fields |
| ClipboardDib.EncodedDecodable | src/clipboard_win32.cpp:96-119 | The encoder's DIB passes both header checks and carries the image's width and height |
| ClipboardDib.HeaderOfEncoder | src/clipboard_win32.cpp:96-119 | Any DIB with the encoder's header and exactly its pixel bytes passes both checks |
| ClipboardDib.EncodedPixel | src/clipboard_win32.cpp:129-140 | Every byte the decoder converts from the encoder's DIB is the image's own byte |
| ClipboardDib.DibPixel | src/clipboard_win32.cpp:129-140 | In a DIB with the encoder's header, the stored byte of a channel decodes to the image's byte |
| ClipboardDib.StoredPixel | src/clipboard_win32.cpp:216-226 | Byte `j` of pixel `X` in stored row `r` is byte `j` of image row `height - 1 - r` in BGRA order |
| ClipboardDib.EncodedByte | src/clipboard_win32.cpp:213-226 | Byte `i` of stored row `r` sits `r` rows of `4 * width` bytes past the header |
| ClipboardDib.ConvertedOfEncoder | src/clipboard_win32.cpp:124-143 | Where the decoder finds each channel of pixel (X, Y) in a DIB with the encoder's header |
| ClipboardDib.RoundTrip | src/clipboard_win32.cpp:88-227 | Under the corrected reading, copying an image to the clipboard and reading it back gives the same width, height and colours. Alpha is kept too, unless it is zero everywhere; then the image comes back opaque |
| ClipboardDib.RoundTripAsWritten | src/clipboard_win32.cpp:88-227 | As written, the round trip keeps width, height and colours but always comes back opaque |
| LogoConv.Quantize | logo/logoconv.py:28-29 | One grey value scaled to `0..levels-1`, rounded (`(x*(levels-1)+127)//255`); `QuantizeRange` and `QuantizeDequantize` state its properties |
| LogoConv.Dequantize | logo/logoconv.py:31-33 | One level scaled back with Python's floor division by `levels - 1`; `DequantizeRange` and `QuantizeDequantize` state its properties |
| LogoConv.QuantizeImage | logo/logoconv.py:28-29 | Quantising keeps the image's shape |
| LogoConv.DequantizeImage | logo/logoconv.py:31-33 | Dequantising keeps the image's shape; it divides by `levels - 1`, so one level is allowed only for an image without pixels |
| LogoConv.QuantizeRange | logo/logoconv.py:29 | A grey value 0..255 quantises to one of the `levels` levels |
| LogoConv.DequantizeRange | logo/logoconv.py:32-33 | A level dequantises to a grey value 0..255 |
| LogoConv.QuantizeDequantize | logo/logoconv.py:28-33 | For 2 to 256 levels, quantising a dequantised level gives the level back |
| LogoConv.QuantizeImageRange | logo/logoconv.py:28-29 | A quantised image of grey values holds levels only |
| LogoConv.QuantizeDequantizeImage | logo/logoconv.py:28-33 | Dequantising and then quantising an image of levels restores it |
| LogoConv.ExpandAppend | logo/logoconv.py:151 | The pixels of runs with one more run are followed by that run's pixels |
| LogoConv.ScanStep | logo/logoconv.py:133-140 | One pixel of the row loop keeps the loop invariant: the emitted runs and the pending run cover the pixels read, bounded and maximal |
| LogoConv.ScanExtend | logo/logoconv.py:134-136 | A pixel that extends the pending run keeps the invariant |
| LogoConv.ScanClose | logo/logoconv.py:137-140 | A pixel that closes the pending run and starts a new one keeps the invariant |
| LogoConv.ScanRowInv | logo/logoconv.py:131-140 | The row loop keeps the invariant over the whole row |
| LogoConv.RowRunsExact | logo/logoconv.py:130-140 | A row's runs stand for exactly its pixels. Each covers one pixel, or up to `runlimit` pixels of a level in `runlevs`. No two neighbours could have been one run |
| LogoConv.TakeRow | logo/logoconv.py:148-151 | The inner re-synthesis loop consumes runs, at least one while the row is short |
| LogoConv.TakeRowRuns | logo/logoconv.py:147-152 | Runs covering exactly a row's width are taken as that row, and the rest is left |
| LogoConv.ImageRunsFront | logo/logoconv.py:130-140 | The runs of an image are those of its first row, then those of the rest |
| LogoConv.Rebuild | logo/logoconv.py:143-152 | The re-synthesis: rows of width `w` filled from the runs in order, failing where the runs end inside a row; `RebuildImageRuns` states it restores the image |
| LogoConv.RebuildImageRuns | logo/logoconv.py:127-152 | Re-synthesising the runs of a rectangular image, at its width, gives the image back |
| LogoConv.Resynthesize | logo/logoconv.py:144-152 | The popping loop over the reversed runs builds exactly `Rebuild`, and fails where the runs run out inside a row |
| LogoConv.PrependNil | logo/logoconv.py:146-152 | Prepending no rows changes nothing |
| LogoConv.PrependTwice | logo/logoconv.py:146-152 | Prepending rows and then one more row is prepending them together |
| LogoConv.RowMax | logo/logoconv.py:128 | `max` of a row is one of its pixels and no pixel exceeds it |
| LogoConv.MaxPixel | logo/logoconv.py:128 | `max(map(max, img))` is a pixel of the image and no pixel exceeds it |
| LogoConv.CompressRows | logo/logoconv.py:129-140 | The row loops append exactly the runs of every row, top to bottom |
| LogoConv.CompressRle | logo/logoconv.py:127-157 | Fails, as Python raises, for an image with no row or an empty row; otherwise gives the re-synthesised image and the bytes |
| LogoConv.EncodeRun | logo/logoconv.py:153-157 | The bytes of one entry: a level outside `{0, max}` as `count` copies of `level + 47`, otherwise one byte `64 + count` (level 0) or `96 + count`; `EncodeDecode` states that they read back |
| LogoConv.DecodeByte | logo/logoconv.py:153-157 | How a byte of the encoding reads back: 'A'.. a run of level 0, 'a'.. a run of the top level, anything lower one pixel of level `b - 47`; `EncodeDecode` states it inverts `EncodeRun` |
| LogoConv.DecodeBytes | logo/logoconv.py:153-157 | Every byte reads back as one run |
| LogoConv.EncodeDecode | logo/logoconv.py:153-157 | With at most 19 levels and runs of at most 26, the bytes are printable (never a quote or a backslash) and read back as the runs that made them |
| LogoConv.CompressRoundTrip | logo/logoconv.py:127-157 | For a rectangular image whose brightest level is at most 18 and a run limit of 1 to 26, compression succeeds, re-synthesises the image, and its printable bytes decode back to the image |
| LogoConv.ImageRunsProps | logo/logoconv.py:129-140 | The runs of all rows are bounded, and their levels are pixels of the image |
| LogoConv.RowRunsLevels | logo/logoconv.py:133-140 | Every run of a row repeats one of the row's pixels |
| LogoConv.ExpandHas | logo/logoconv.py:151 | A run of positive count puts its level among the pixels |
| LogoConv.QuantizedLogoRoundTrip | logo/logoconv.py:170-174 | The logo as the driver makes it (12 levels, runs of at most 26) compresses, and its bytes give the quantised logo back |
| LogoBlockMap.HFlip | logo/logoconv.py:42-43 | `_hflip` keeps the block's size |
| LogoBlockMap.VFlip | logo/logoconv.py:44-45 | `_vflip` keeps the block's size |
| LogoBlockMap.HFlipPx | logo/logoconv.py:42-43 | `_hflip` mirrors each row: pixel (y, x) comes from (y, size - 1 - x) |
| LogoBlockMap.VFlipPx | logo/logoconv.py:44-45 | `_vflip` mirrors the rows: pixel (y, x) comes from (size - 1 - y, x) |
| LogoBlockMap.FlipBy | logo/logoconv.py:68-70 | The bitmap under each flip code keeps the block's size |
| LogoBlockMap.FlipByPx | logo/logoconv.py:68-70 | Pixel (y, x) under a flip code is the pixel that flip moves there |
| LogoBlockMap.XorMoves | logo/logoconv.py:93 | The flip `r1 ^ r2` moves rows and columns as `r1` after `r2` |
| LogoBlockMap.FlipCompose | logo/logoconv.py:93 | Flipping by `r1` and then by `r2` is flipping by `r1 ^ r2` |
| LogoBlockMap.FlipTwice | logo/logoconv.py:68-70 | Every flip undoes itself |
| LogoBlockMap.HFlipTwice | logo/logoconv.py:42-43 | `_hflip` is an involution |
| LogoBlockMap.VFlipTwice | logo/logoconv.py:44-45 | `_vflip` is an involution |
| LogoBlockMap.XorCancel | logo/logoconv.py:93 | `r1 ^ (r1 ^ r2) == r2` and `0 ^ r == r` on flip codes |
| LogoBlockMap.BlockRows | logo/logoconv.py:59-60 | The `block.extend` loop gathers `bs` pixels per row |
| LogoBlockMap.BlockOf | logo/logoconv.py:59-61 | A block has `bs * bs` pixels |
| LogoBlockMap.BlockRowSlice | logo/logoconv.py:60 | Row `sy` of a block is the matching slice of an image row |
| LogoBlockMap.ReadBlock | logo/logoconv.py:59-61 | The loop builds exactly the block at (br, bc) |
| LogoBlockMap.AddBitmap | logo/logoconv.py:67-75 | The block and its three flips are stored as bitmap `n`; the maps stay inverse and earlier entries stay |
| LogoBlockMap.StoreKeepsInverse | logo/logoconv.py:71-74 | Storing a block under a fresh key in both maps keeps them inverse |
| LogoBlockMap.NewBitmap | logo/logoconv.py:67-75 | The bitmaps grow by one block under its four flip codes |
| LogoBlockMap.PosUnique | logo/logoconv.py:57-58 | Distinct blocks have distinct places in the name table |
| LogoBlockMap.AppendEntry | logo/logoconv.py:63-67 | The entry appended for a block displays that block |
| LogoBlockMap.VisitBlock | logo/logoconv.py:59-75 | One block, looked up or added, keeps the dedup invariant and adds one entry |
| LogoBlockMap.VisitRow | logo/logoconv.py:57-75 | Visiting every block of one block row, left to right, keeps the dedup invariant and adds one name-table entry per block |
| LogoBlockMap.Dedup | logo/logoconv.py:52-75 | One entry per block, in reading order, each naming a stored bitmap whose flip displays exactly that block |
| LogoBlockMap.SqDiffZero | logo/logoconv.py:87 | The squared difference is never negative, and vanishes only for equal blocks |
| LogoBlockMap.TryFlips | logo/logoconv.py:85-90 | `nb` is merged under the first flip within `diffthresh`, or under none when no flip is close |
| LogoBlockMap.AbsorbLater | logo/logoconv.py:83-90 | Bitmap `na` absorbs every later unmerged bitmap that some flip brings within `diffthresh` |
| LogoBlockMap.Merge | logo/logoconv.py:79-90 | Every merge targets an earlier unmerged bitmap within `diffthresh`; afterwards no two unmerged bitmaps are within it under any flip |
| LogoBlockMap.Remapped | logo/logoconv.py:93 | The remapped name table has the same length |
| LogoBlockMap.DefinedBelow | logo/logoconv.py:98 | `defined` is exactly 0 .. nblocks-1 |
| LogoBlockMap.UsedAfterMerge | logo/logoconv.py:93-99 | After the merge the name table names exactly the bitmaps not merged away |
| LogoBlockMap.UnusedSet | logo/logoconv.py:98-100 | `unused` is exactly the merged bitmaps |
| LogoBlockMap.UnusedAreMerged | logo/logoconv.py:101 | The assertion of line 101 always holds |
| LogoBlockMap.ExactEntry | logo/logoconv.py:93 | With `diffthresh <= 0`, a redirected entry shows the same pixels |
| LogoBlockMap.RemappedListed | logo/logoconv.py:93 | Every remapped entry names a stored, unmerged bitmap |
| LogoBlockMap.ExactMergeKeepsBlocks | logo/logoconv.py:79-93 | With `diffthresh <= 0` every entry still displays the same pixels after the merge |
| LogoBlockMap.NumberNext | logo/logoconv.py:103-104 | Numbering the next larger number keeps the numbering dense and increasing |
| LogoBlockMap.Renumber | logo/logoconv.py:102-104 | The used bitmaps are numbered 0, 1, ... in increasing order |
| LogoBlockMap.NumberingInjective | logo/logoconv.py:103-104 | No two bitmaps get the same new number |
| LogoBlockMap.Renumbered | logo/logoconv.py:107 | The renamed name table has the same length |
| LogoBlockMap.RenumberedAt | logo/logoconv.py:108 | A used bitmap keeps its four flips under its new number |
| LogoBlockMap.RenumberedShape | logo/logoconv.py:108-109 | The renamed bitmaps are numbered 0 .. |remap|-1 with all four flips |
| LogoBlockMap.RenumberedEntries | logo/logoconv.py:107-108 | Every renamed entry names the renamed bitmap with the same pixels |
| LogoBlockMap.RenumberedUsed | logo/logoconv.py:107 | The renamed table names exactly 0 .. |remap|-1 |
| LogoBlockMap.RenumberedTables | logo/logoconv.py:102-109 | After renumbering, the table names exactly 0 .. |remap|-1, with no holes, and every entry displays the same pixels |
| LogoBlockMap.TileRow | logo/logoconv.py:119-121 | The `row.extend` loop over `n` blocks gives `n * bs` pixels |
| LogoBlockMap.SynthesizeRow | logo/logoconv.py:119-121 | One pixel row, block by block, is exactly `TileRow` |
| LogoBlockMap.SynthesizeBlockRow | logo/logoconv.py:118-122 | A block row gives its `bs` pixel rows |
| LogoBlockMap.AppendBlockRow | logo/logoconv.py:117-122 | Appending a block row keeps the earlier rows in place |
| LogoBlockMap.BlockRowOf | logo/logoconv.py:117-118 | Every pixel row belongs to one block row and one row within it |
| LogoBlockMap.SynthesizedTiles | logo/logoconv.py:115-122 | A finished synthesis is `bh * bs` rows of `bw * bs` pixels |
| LogoBlockMap.Resynthesize | logo/logoconv.py:115-122 | The re-synthesised image has the input's dimensions and every row in place |
| LogoBlockMap.TileRowOfBlocks | logo/logoconv.py:119-121 | A row assembled from the blocks the table shows is the image row they came from |
| LogoBlockMap.ResynthesisLossless | logo/logoconv.py:115-122 | Re-synthesising from a table that shows every block gives back the image |
| LogoBlockMap.ShowsTransfer | logo/logoconv.py:107-108 | A table showing the same pixels entry by entry as one that shows the image shows the image too |
| LogoBlockMap.ExactTablesShowBlocks | logo/logoconv.py:93-109 | With `diffthresh <= 0` the renumbered tables still show every block |
| LogoBlockMap.CompressBlockMap | logo/logoconv.py:47-123 | Fails, as the assertions do, exactly for an empty image or sides that are not multiples of the block size. Otherwise the result has the input's dimensions, and with `diffthresh <= 0` it is the input itself |

## Left out

- OpenGL: shader compilation and linking, textures, framebuffers and draw calls are an oracle (`Toolchain`) or a recorded draw list; their results are not modelled.
- Files, directories and the clock are oracles: file contents, directory entries, "newer than" and the steady clock are parameters.
- Floating point: `strtof`, the stream formatting of values and the float arithmetic of parameters are an oracle (`TextCodec`), and values are Dafny `real`s.
- The "Gradient" and "Plasma" patterns and `PRNG::getF` and its float `getRange` (src/patterns.cpp:31-36, 43-113, 192-260) use floating-point trigonometry; they are not modelled.
- `Node::reload` and `Pipeline::reload` are declared but their bodies are not part of this model.
- `FileSystem.addRoot` is declared returning `int` in src/vfs.h but defined returning nothing in src/vfs.cpp; the model follows the definition.
- The Windows `\\` to `/` rewrite of pipeline paths (src/gips_io.cpp:46-55) is not modelled; paths are written as the resolver gives them.
- C strings are Dafny strings: a NUL inside a `std::string` cuts it only where `c_str()` is modelled explicitly (`GipsApp.CStringOf`, the command-line buffer); elsewhere strings are taken to hold no NUL.
- `tolower` is the "C" locale's: only 'A'..'Z' are lowered.
- `new(std::nothrow)` failing in `WinMain` (src/main.cpp:22-23, exit code 99) and the copy of the command line are not modelled; `CmdLine.SplitCommandLine` starts from the copied, NUL-terminated buffer.
- The operating system's clipboard (open, empty, enumerate formats, global memory) and the text clipboard are not modelled; only the DIB bytes are.
- The PNG clipboard format and the stb_image fallback (src/clipboard_win32.cpp:62-85, 165-187) are decoders outside this model: `GetRgba8Image` returns null where the source would try them.
- ClipboardDib.HeaderCheckAsWritten: `biSize + 12` wraps modulo 2^32 and is read as a signed `int`, as at line 106, but three quantities are computed without the 32-bit wrap of `int`: `width * bpp` (line 118), `int(biSize) + height * stride` (line 119) and `int(GlobalSize())` (line 92); DIBs of 2 GiB and more are out of scope.
- ClipboardDib.EncodeDib: `width * height * 4` (src/clipboard_win32.cpp:197, 210) is taken without 32-bit overflow; images are required to fit the `LONG` header fields.
- ClipboardDib.MakeOpaque: walks rows and columns where the source steps one pointer through all pixels (lines 150-154); the bytes written are the same.
- ClipboardDib.Decodable: a negative width with a nonzero height, or the INT_MIN height that `std::abs` leaves negative with a nonzero width, makes `malloc` fail in the source, and the model sends such DIBs to the fallback as that failure does. When `width * height` is 0 (for example width -1 and height 0), `malloc(0)` succeeds and the source returns an empty, non-null image with a negative dimension, which an `array3` cannot hold; the model returns null for those DIBs instead.
- DirListing.SortBy: an insertion sort, which is stable, where `std::sort` (src/vfs.cpp:60, src/dirlist.cpp:35) is not; items equivalent under the order (same kind, same name up to case) may come out in a different order.
- ShaderLoader.LoadFile: its own contract states only the shape of the result; what a load computes is stated by `LoadPassCount`, `BuildCount`, `MissingPassesReported` and `GipsCore.Node.Load`.
- ShaderLoader.BuildFrom: its own contract states only the shape of the result; what the build computes is stated by `BuildCount` and `MissingPassesReported`.
- GipsIO.Apply: its own contract states only that the reader stays coherent; each of its cases is stated by `ApplyShow`, `ApplyVersion`, `ApplyEnable`, `ApplyParameter` and `ApplyUnknown`, and the values a saved pipeline reads back by `RoundTripValues`.
- GipsIO.Run: states only that the reader stays coherent; what whole documents read as is stated by the `…Rejected` lemmas, `RoundTrip`, `RoundTripValues` and `ShowRoundTrip`.
- GipsIO.RoundTripValues: assumes the text codec reads back every value it writes, and that each saved node's parameters are those its shader declares when loaded again (same names and types); floating-point printing is an oracle here.
- GipsIO.RoundTrip: requires at least one node; a saved empty pipeline reads back keeping the old nodes, which `EmptyPipelineKeepsNodes` states.
- LogoConv: Python's `PIL` image loading, `os.chdir`, the `print` statistics and the `__main__` driver's file output are not modelled; `QuantizedLogoRoundTrip` states what the driver relies on.
- LogoConv.DecodeByte: the program's own reader of the logo bytes is not part of this model; `DecodeByte` is the reading the encoding of logo/logoconv.py:153-157 implies.
- LogoConv.RowRunsExact: rows must not hold the value -1, which the loop uses as its end-of-row sentinel; image pixels are 0..255.
- LogoConv.CompressRoundTrip: proved for images whose brightest level is at most 18 and run limits 1..26, where every byte is printable; larger values make `bytes` raise or produce quote characters.
- LogoBlockMap.CompressBlockMap: requires a rectangular image and a positive block size; a block size of 0 or less, or ragged rows, give Python errors or short slices the model does not follow.
- LogoBlockMap.CompressBlockMap: for `diffthresh > 0` only the dimensions of the result are proved, not how far it lies from the input.
- LogoBlockMap.Renumber: `sorted(used)` is modelled as a scan of 0 .. nblocks-1 that meets the used numbers in increasing order.
- The module docstring of logo/logoconv.py (lines 12-14) assigns 'A'..'Z' to white runs and 'a'..'z' to black ones, but the code (line 156) writes `64 + run` for level 0 (black) and `96 + run` for the brightest level; the model follows the code.

## Findings

| source | as written | input that shows it | evidently intended | confidence | as-written member | corrected member |
|---|---|---|---|---|---|---|
| src/clipboard_win32.cpp:145 | `if (maxAlpha <= 0xFF)` holds for every `uint8_t`, so every 32-bit DIB comes back fully opaque | a 1 x 1 32-bit `BI_RGB` DIB whose pixel has alpha 0x80 | force alpha to 0xFF only when every stored alpha is 0 (`maxAlpha == 0`) | high; not executed | ClipboardDib.AlphaDroppedAsWritten, ClipboardDib.RoundTripAsWritten | ClipboardDib.GetRgba8Image, ClipboardDib.RoundTrip |
| src/clipboard_win32.cpp:97,106,119 | `int(bmih->biSize)` makes a `biSize` of 2^31 or more negative, so the offset checks pass | a 44-byte 1 x 1 24-bit DIB with `biSize` 0x80000000 | compare `biSize` as the unsigned offset it is | high; not executed | ClipboardDib.NegativeBiSizeAccepted, ClipboardDib.BigBiSizeChecks | ClipboardDib.HeaderCheckAgrees, ClipboardDib.GetRgba8Image |
| src/gips_io.cpp:124-128 | a line ended by a bare LF has its NUL written over the '\n', which ends the whole text | a saved pipeline with LF line ends: only "[GIPS]" is read | end the line at the LF and read on | medium; not executed | GipsIO.LfStopsAsWritten, GipsIO.LfFileIgnoredAsWritten | GipsIO.JoinLines, GipsIO.ShowRoundTrip |
| src/gips_io.cpp:180-189 | the key's terminating NUL is written at the '=' when no blank precedes it, so the '=' is lost | the line "gain=1" | "key=value" splits like "key = value" | high; not executed | GipsIO.KeyWithoutGapAsWritten | GipsIO.KeySplit |
| src/gips_io.cpp:196 | the empty-value error quotes the value, which is empty | the line "gain =" | the error names the key | high; not executed | GipsIO.EmptyValueQuotesNothing | GipsIO.EmptyValueNamesKey |
| src/gips_io.cpp:213-214,231-236 | a bad colour or number before the first node section reports the error through a null `node` | the lines "[GIPS]", "gain = #zz" | reject the document (-1), as the other syntax errors of the `[GIPS]` section do (lines 186, 195) | high; not executed | GipsIO.CrashBeforeSectionAsWritten | GipsIO.ReadNeverCrashes |
| src/gips_io.cpp:39-42,247-249 | ".show 0" in the header returns `nodeCount()` of the pipeline before `clear()` | a pipeline with two nodes reads a saved one-node file with show index 0 | return the loaded file's show index | high; not executed | GipsIO.ShowZeroAsWritten | GipsIO.ShowRoundTrip |
| src/patterns.cpp:125,182 | `recurse` stops at once on a rectangle of width or height 0, so a one-pixel-wide or one-pixel-high image keeps its inner pixels at 0 | a 1 x 3 image: pixel (0, 1) stays 0 in every channel | every pixel of every used channel gets a cloud value | low; not executed | Patterns.Clouds with `AsWritten` | Patterns.Clouds with `Corrected` |
