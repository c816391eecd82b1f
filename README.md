# garnet.js template compiler, modelled in Dafny

garnet compiles `<% … %>` templates into JavaScript function bodies. This
project models the synchronous core of `garnet.js` and proves what it
promises:

- **The two escapers.**
  - `sanitizeForString` backslash-escapes `\`, `'`, `"` and newline, so that
    template text can sit inside a `'…'` literal.
  - `sanitizeForHTML` turns `&`, `"`, `'`, `<` and `>` into entities.
  - Both are modelled as the chain of `replace` calls the source writes, and
    each is proved equal to a one-pass character escaper.
- **The tokenizer**, the `while (true)` loop of `compile`.
  - It is specified by the recursive function `Tokenizer.Scan`, and the method
    `Tokenizer.Tokenize` is the loop itself.
  - It splits a template into parts that alternate text and code.
  - It fails with `UnexpectedClose(n)`, `UnexpectedOpen(n)` or `MissingClose`,
    where `n` is the reported position, counted in characters (see
    "Left out" for how this differs from JavaScript's UTF-16 positions).
- **The code generator**, the `for` loop of `compile`.
  - Each part becomes at most one instruction (`CodeGen.Instr`).
  - `CodeGen.Emit` writes an instruction as JavaScript source, with text
    escaped by `sanitizeForString` as written, and the method
    `CodeGen.GenerateBody` is the loop.
  - `CodeGen.Execute` gives the instructions their meaning on the accumulator.
    A text contributes the value its emitted `'…'` literal denotes, and an
    instruction whose literal does not lex makes the whole body fail.
  - A template whose code parts are all `=`/`-` expressions and whose text has
    no carriage return is proved to render its text and values in order.
- **`normalizeTemplatePath`.** It adds the default extension, makes a relative
  path absolute against the current or the default directory, and normalizes
  the result. It runs on a model of the POSIX `path.extname`, `path.join` and
  `path.normalize` (module `Paths`).
- **The module state** (`Garnet.Engine`): `enableCaching`, `templateDir`,
  `templateExt` and `templateCache`.
  - `Compile` normalizes the path, answers from the cache when caching is on
    and the path is cached, and otherwise reads, tokenizes, generates and (with
    caching on) caches.
  - The file system is a `map` from path to contents passed to each call.
  - The random draw behind the accumulator name is a `nonce` parameter.

Every loop terminates. Each tokenizer iteration moves `pos` to `closePos + 2`
with `closePos >= pos`; this is the `decreases |t| - pos` of `Scan` and of the
loop in `Tokenize`.

## Model

| member | source | states |
|---|---|---|
| Escape.SanitizeForHTML | garnet.js:44-52 | the output holds no `"`, `'`, `<` or `>` |
| Escape.SanitizeForHTMLIsOnePass | garnet.js:44-52 | the five chained `replace` calls, `&` first, equal escaping each character once |
| Escape.SanitizeForHTMLAppend | garnet.js:44-52 | escaping distributes over concatenation |
| Escape.SanitizeForHTMLIsSafe | garnet.js:44-52 | the output has no `<`, `>`, `"` or `'`, and every `&` in it begins `&amp;`, `&quot;`, `&#39;`, `&lt;` or `&gt;` |
| Escape.SanitizeForHTMLRoundTrip | garnet.js:44-52 | decoding the five entities recovers the input exactly |
| Escape.SanitizeForString | garnet.js:35-42 | the output holds no raw newline, for every input |
| Escape.SanitizeForStringDecodes | garnet.js:35-42 | undoing the four escapes `\\`, `\'`, `\"` and `\n` recovers every input exactly, carriage returns included |
| Escape.SanitizeForStringIsOnePass | garnet.js:35-42 | the four chained `replace` calls, `\` first, equal escaping each character once |
| Escape.SanitizeForStringAppend | garnet.js:35-42 | escaping distributes over concatenation |
| Escape.SanitizeForStringRoundTrip | garnet.js:35-42 | for text without `\r`: the escaped text has no raw newline, and closed by `'` it lexes as a JavaScript string literal whose value is the input, with whatever follows left over |
| Escape.CarriageReturnBreaksLiteral | garnet.js:35-42 | as written, `"a\r\nb"` escapes to `a`, raw `\r`, `\n` as an escape, `b`, which is no string literal |
| Escape.SanitizeForStringFixedIsOnePass | garnet.js:35-42 | the corrected escaper (also `\r` to `\\r`) is a one-pass character escaper |
| Escape.StringLiteralRoundTrip | garnet.js:35-42 | for every input, the corrected escaper's output closed by `'` lexes back to exactly the input |
| Escape.SanitizeForStringFixedHasNoLineTerminator | garnet.js:35-42 | the corrected escaper's output holds no JavaScript line terminator |
| Strings.Find | garnet.js:72-73 | `indexOf` gives -1 or a position at or after `from` where the delimiter starts |
| Strings.FindFirst | garnet.js:72-73 | the position `indexOf` gives is the first occurrence at or after `from`, and -1 means there is none |
| Tokenizer.Scan | garnet.js:70-100 | the walk the loop is proved against: a reported `UnexpectedClose(n)` or `UnexpectedOpen(n)` has `n` at or after `pos` and holding `%>` or `<%` respectively |
| Tokenizer.Tokenize | garnet.js:65-100 | the `while (true)` loop returns exactly `Scan(t, 0)`: the parts, or the first syntax error |
| Tokenizer.ScanWellFormed | garnet.js:72-98 | on success there is an odd number of parts, and no part contains `<%` or `%>`, the final tail included; no code part starts with `>` or ends with `<` |
| Tokenizer.ScanJoin | garnet.js:85-99 | without a `<%>` overlap, `parts[0] + "<%" + parts[1] + "%>" + …` rebuilds the input |
| Tokenizer.JoinScan | garnet.js:65-100 | every well-formed list of parts is what the tokenizer returns for its join |
| Tokenizer.TokenizeJoinInverse | garnet.js:65-100 | without a `<%>` overlap, the tokenizer succeeds with `parts` if and only if `parts` is well formed and joins to the input |
| Tokenizer.OverlapIsEmptyDirective | garnet.js:85-98 | `<%>` tokenizes to three empty parts, whose join `<%%>` is not the input |
| Tokenizer.UnexpectedCloseReported | garnet.js:74-86 | the reported position holds a `%>`, and the text before it tokenizes without error, so every earlier `%>` closed a directive |
| Tokenizer.UnexpectedOpenReported | garnet.js:89-91 | the reported position holds a `<%`, and the text before it fails only for a missing `%>`; some `<%` reached without error opens a directive with neither `<%` nor `%>` between it and the reported position, so that is the first nested `<%` |
| Tokenizer.MissingCloseReported | garnet.js:82-83 | some `<%` has no `%>` anywhere after it, and the text before it tokenizes without error |
| Strings.Trim | garnet.js:112-116 | the whitespace trim leaves a string that neither starts nor ends with whitespace (the `\s` class of JavaScript) |
| Strings.TrimIsInfix | garnet.js:112-116 | what the trim removes is whitespace, taken from the two ends only |
| CodeGen.ResultName | garnet.js:103 | the accumulator name is `r` followed by decimal digits |
| CodeGen.ResultNameInjective | garnet.js:103 | different draws give different accumulator names |
| CodeGen.ResultNameIsFresh | garnet.js:103 | the accumulator never shadows the parameters `sanitizeForHTML`, `render` or `locals` of the generated function |
| CodeGen.PartInstrs | garnet.js:105-118 | an even part gives an append exactly when it is non-empty; an odd part always gives one escaped append, raw append or statement |
| CodeGen.Program | garnet.js:104-120 | the instructions start with the initialisation from `parts[0]` and end with `return` |
| CodeGen.Emit | garnet.js:104-120 | every instruction is written as a complete statement: ending in `;`, and a statement copied from the template ending in `;` and a line break |
| CodeGen.GeneratePart | garnet.js:106-118 | one pass of the loop body writes the source of the instruction for `parts[i]` |
| CodeGen.GenerateBody | garnet.js:104-120 | the loop writes the source of `Program(parts)` |
| CodeGen.BodyFrame | garnet.js:104-120 | every body begins `var <acc>='` and ends `return <acc>;` |
| CodeGen.RendersExpected | garnet.js:104-120 | when every code part is an `=`/`-` expression or blank and no text holds `\r`, running the body, each text read as the value of its emitted literal, yields the texts and values in order, the `=` values HTML-escaped |
| CodeGen.TextValueExact | garnet.js:104-120 | for text without `\r`, the literal the generator emits denotes exactly the text |
| CodeGen.CarriageReturnTextValue | garnet.js:35-42 | the literal emitted for `"a\r\nb"` denotes no value |
| CodeGen.CarriageReturnRendersNothing | garnet.js:104-120 | the body compiled from the template `"a\r\nb"` renders nothing: running it fails |
| Paths.SplitJoinSegs | garnet.js:32 | cutting a path at `/` undoes joining segments with `/` |
| Paths.ResolveCanonical | garnet.js:32 | resolving `.` and `..` leaves no empty, `.` or inner `..` segment, and no `..` at all in an absolute path |
| Paths.NormalizeAbsolute | garnet.js:32 | the normalized path starts with `/` exactly when the input does |
| Paths.NormalizeIdempotent | garnet.js:32 | normalizing twice is normalizing once |
| Paths.ExtName | garnet.js:17 | the extension is empty, or a `.` followed by neither `.` nor `/` |
| Paths.ExtAppended | garnet.js:17-19 | after appending `.x` to a name, its extension is `.x` |
| Paths.DotFileHasNoExt | garnet.js:17-19 | a base name `.x` counts as having no extension |
| Paths.NormalizeKeepsLast | garnet.js:31 | `normalize` keeps a last segment that is not empty, `.` or `..` |
| Paths.JoinKeepsLast | garnet.js:27 | `path.join` of any directory and a path whose last segment is not empty, `.` or `..` ends with that segment |
| Paths.ResolvedKeepsExt | garnet.js:25-31 | resolving such a path against any directory and normalizing keeps its extension |
| Paths.ExistingExtKept | garnet.js:17-31 | a path with an extension gets no `templateExt`, so the result does not depend on it, and, when the path does not end with `/`, the result keeps that extension |
| Paths.ExtensionAppended | garnet.js:17-31 | a path with no extension and not ending with `/` leaves with the extension `.x` when `templateExt` is `.x` |
| Paths.NormalizeTemplatePath | garnet.js:12-33 | with an absolute base directory (the current one, else `templateDir`), or an absolute template path, the result is absolute |
| Paths.TemplatePathFixpoint | garnet.js:12-33 | an absolute, normalized path with an extension is left unchanged, whatever the directories |
| Paths.TemplatePathStable | garnet.js:12-33 | a path already normalized against an absolute base, if it has an extension, normalizes to itself again against any directory |
| Garnet.CompileSource | garnet.js:62-120 | it fails with `ReadFailed` exactly when the file is missing; it succeeds exactly when the file is present and tokenizes; otherwise it fails with the tokenizer's error; a template carries the path it was read from |
| Garnet.TextOnlyTemplate | garnet.js:102-120 | a template without delimiters compiles to `var <acc>='<text>';return <acc>;` |
| Garnet.TextOnlyLiteral | garnet.js:102-120 | in the body of a text-only template without `\r`, the literal after `var <acc>='` lexes back to exactly the text, followed by `;return <acc>;` |
| Garnet.CarriageReturnTemplate | garnet.js:102-120 | the template `"a\r\nb"` compiles, but the literal in its body does not lex |
| Garnet.TextOnlyProgram | garnet.js:102-120 | a text-only body whose text has no `\r` renders exactly its text |
| Garnet.CompiledBodyFrame | garnet.js:102-120 | every compiled body declares the accumulator first and returns it last |
| Garnet.Load | garnet.js:62-120 | reading, the tokenizer loop and the generator loop together compute `CompileSource` |
| Garnet.Engine.constructor | garnet.js:6-10 | caching on, `templateDir` is `<cwd>/views`, `templateExt` is `.garnet`, and the cache is empty |
| Garnet.Engine.Key | garnet.js:55 | with an absolute `templateDir` (the default `<cwd>/views` is one) the cache key is absolute |
| Garnet.Engine.Configure | garnet.js:6-8 | assigning the three settings keeps the cache |
| Garnet.Engine.Compile | garnet.js:54-63 | with caching on and the path cached, the cached template is returned with no read and no change; otherwise the file is read, the result is `CompileSource`; any template returned carries the normalized path, and it is cached only when caching is on and the compile succeeded; with caching off the cache is never read or written |
| Garnet.CompileTwice | garnet.js:134-139 | with caching on, a second compile of the same path returns the first template, even after the file changed, and reads at most once in all |

## Left out

- `fs.readFileSync` (garnet.js:63): the file system is a `map` from path to text passed to `Compile`. Any missing path is a `ReadFailed` error, and read errors are not told apart.
- `Math.random` (garnet.js:103): the draw is the `nonce` parameter, a natural below 10^9.
- `new Function` and the `template` and `render` closures (garnet.js:122-132): a compiled template is its path and body string. Running JavaScript is modelled only for the accumulator instructions (`CodeGen.Execute`); a statement part other than a blank one has no modelled effect. A text whose emitted literal does not lex (one holding `\r`) makes `CodeGen.Execute` fail, where `new Function` would throw a `SyntaxError`.
- Node's `path` module is replaced by a POSIX model. It covers `extname` (the basename after trailing slashes are dropped, with `..` and names whose only dot is the first character having no extension), `join` (`Paths.JoinPaths`: the non-empty arguments joined with `/`, then normalized, and `.` when both are empty) and `normalize` (collapsing slashes, resolving `.` and `..`, keeping a trailing slash).
- `path.dirname` (garnet.js:124) is used only by the `render` closure, which is not modelled. `Paths.NormalizeTemplatePath` still takes the current directory as an `Option`.
- Windows path semantics are not modelled.
- The Express shim `exports.__express` (garnet.js:143-149) is not modelled.
- Positions in error messages: JavaScript's `indexOf` counts UTF-16 code units, and the model counts characters (Unicode scalar values). The positions differ after any character outside the Basic Multilingual Plane. For `"😀%>"` the source reports position 2, and the model gives `UnexpectedClose(1)`.
- Error messages: the thrown `Error` texts are modelled as `SyntaxError` values carrying the reported position. The text of the messages is not modelled.
- Paths.TemplatePathStable: stated only for results that have an extension. A path normalized to a dot-file name such as `/views/.garnet` has no extension by `extname`, so normalizing it again appends `templateExt` a second time (`Paths.DotFileHasNoExt`).
- Paths.NormalizeTemplatePath: its own contract states only that the result is non-empty and when it is absolute. The extension decision is stated by `Paths.ExistingExtKept` and `Paths.ExtensionAppended`, and fixed points by `Paths.TemplatePathFixpoint` and `Paths.TemplatePathStable`. Those two lemmas leave out a template path that is empty or ends with `/`. For such a path `extname` looks past the trailing slash, and an appended extension follows the slash as a dot-file name (`Paths.DotFileHasNoExt`).
- The code generator uses `sanitizeForString` as written, as the source does. The corrected escaper `Escape.SanitizeForStringFixed` is modelled and proved beside it (see Findings), but no generator uses it.

## Findings

| source | as written | input that shows it | evidently intended | confidence | as-written member | corrected member |
|---|---|---|---|---|---|---|
| garnet.js:35-42 | `sanitizeForString` escapes `\`, `'`, `"` and `\n` but leaves `\r` raw. A carriage return is a JavaScript line terminator, so the generated `'…'` literal is broken and the body does not compile | a template whose text is `"a\r\nb"` (a file with Windows line endings) | every line terminator in the text is escaped, so the literal holds the text exactly | high; not executed | CodeGen.CarriageReturnRendersNothing | Escape.StringLiteralRoundTrip |
