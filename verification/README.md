# fmu's JavaScript module-syntax guesser, in Dafny

fmu decides whether a JavaScript source text is an ES module, a CommonJS module, both ("Mixed")
or neither ("Unknown"). It does not parse anything. It makes one pass over the bytes with a
forward-only cursor and a few counters:

- It jumps over comments, quoted strings, template text and regex literals.
- It sets `is_esm` on a recognised `import` or `export` outside skipped text, at any brace depth.
- It sets `is_cjs` on a free reference to `require`, `module` or `exports`. A reference is not
  free when a `var`/`let`/`const` declaration or a function parameter shadows it in the current
  brace scope.

The project models three parts of the repository:

- **`guess_js_syntax`** (src/walk.rs), the current scanner. Modules: `Walk`, plus `Lexer` for
  the jumps.
- **The helpers of src/utils.rs**. Module: `Utils`. They cover clamped reads, backslash-escape
  parity, word boundaries, the nearest non-whitespace byte, keyword matchers, declaration and
  parameter tests, and the regex-keyword test.
- **`get_js_syntax`** (src/lib.rs), the older scanner, as a separate model. Module: `Lib`. It
  has no early exit and no shadowing. Every `/` that does not open a comment is a regex. Its
  template depth is a signed counter read by parity.

Other modules:

- `Ascii`: the byte type and the ASCII classes.
- `Steps`: the result shapes and the shared `Verdict`.
- `WalkSamples` and `LibSamples`: whole runs over short texts.

How the model is built:

- **Bytes.** A byte is a `char` below 256, so keywords are string literals. `s.as_bytes()` is the
  identity on the input.
- **One pass.** Each pass of a scan loop is a pure function `StepAt`. It returns `Continue(next)`,
  `Break` (an unterminated construct leaves the loop with the flags it has), or `Panic`.
- **Panics.** Rust panics are modelled as the `Panic` outcome. They come from an index past the
  end of the buffer, or from the usize underflow of the brace depth on an unmatched `}`. They
  are never silently clamped away.
- **The loop.** `Run` is the loop as a recursive function over `|b| - i`. `GuessJsSyntax` and
  `GetJsSyntax` are the same loops written as `while` loops over an explicit state record.

Behaviours of the code that the model reproduces (each one is proved or shown on a sample):

- The `import.meta` branch of walk.rs:187 cannot be taken. `is_import_identifier` already
  demands `m` at `i + 1`. See `Utils.ImportMetaBranchUnreachable`.
- The `yield` clause of the regex-keyword test cannot hold. It wants both `i` and `y` at the same
  index. See `Utils.YieldIsNotRecognised`.
- Backslash parity flips when the run of backslashes reaches index 0. See
  `Utils.IsBackslashEscaped`.
- In lib.rs, the scan that resumes template text at a `}` looks for another `}`, not for a
  backtick. See `LibSamples.TemplateCodeHidesImport`.
- In lib.rs, the template depth can go negative. See `LibSamples.EmptyTemplateGoesNegative`.
- In lib.rs, an `import` that is not static moves the cursor 8 bytes, not 7. See
  `Lib.DetectKeywords`.

Where the source's own comments and its code disagree, the model follows the code:

- **Line comments.** The comments at walk.rs:47 and lib.rs:26 say "ignore until \n".
  walk.rs:48-59 ends the comment at the first LF or CR. It also swallows an LF that directly
  follows the terminator, unless the terminator is the first byte of the comment. It panics when
  the first terminator is not the first comment byte and is the last byte of the buffer, so
  `"//\n"` does not panic.
- **`import.meta` and `yield`.** The branch at walk.rs:186-189 is written to treat `import.meta`
  as ESM. The comment at utils.rs:215-216 lists `yield` as a regex keyword. The code can do
  neither.
- **Clamping at the buffer end.** utils.rs:1 introduces `si` as a "safe index". Several reads in
  walk.rs and lib.rs do not go through it, and they are modelled as panics.

## Model

| member | source | states |
|---|---|---|
| Steps.Verdict | src/walk.rs:278-286 | Mixed exactly when both flags are set, ESM when only the ESM flag is, CJS when only the CommonJS flag is, Unknown when neither is |
| Utils.Si | src/utils.rs:2-4 | For a non-empty buffer, the index read is in bounds: i itself below the end, the last index at or past it |
| Utils.IsBackslashEscaped | src/utils.rs:8-19 | For every run of n backslashes ending just before k: escaped iff n is odd when a non-backslash precedes the run, iff n is even when the run reaches index 0 |
| Utils.RunStartBoundsEveryRun | src/utils.rs:9-16 | The backward walk stops just before the run of backslashes, or at 0 when the run reaches the start |
| Utils.NearestNonWhitespaceLeft | src/utils.rs:37-49 | 0 for c = 0; otherwise r < c, every byte strictly between r and c is whitespace, and b[r] is not whitespace unless r = 0 |
| Utils.NearestNonWhitespaceRight | src/utils.rs:53-69 | The last index when c is at or past it; otherwise c ≤ r < \|b\|, every byte in [c, r) is whitespace, and b[r] is not whitespace unless r is the last index |
| Utils.ClampedMatchIsExact | src/utils.rs:71-79 | For a keyword with no two equal adjacent bytes, the clamped reads match exactly when the keyword lies in the buffer at i |
| Utils.ClampedReadsCollide | src/utils.rs:2-4 | A keyword that would run past the end is never matched by clamped reads, because two adjacent reads land on the same last byte |
| Utils.IsImportIdentifier | src/utils.rs:71-79 | True exactly when `import` lies in the buffer at i and is word-bounded |
| Utils.IsMetaIdentifier | src/utils.rs:81-87 | True exactly when `meta` lies in the buffer at i and is word-bounded |
| Utils.IsExportIdentifier | src/utils.rs:89-97 | True exactly when `export` lies in the buffer at i and is word-bounded |
| Utils.IsRequireIdentifier | src/utils.rs:99-108 | True exactly when `require` lies in the buffer at i and is word-bounded |
| Utils.IsModuleIdentifier | src/utils.rs:110-118 | True exactly when `module` lies in the buffer at i and is word-bounded |
| Utils.IsExportsIdentifier | src/utils.rs:120-129 | True exactly when `exports` lies in the buffer at i and is word-bounded |
| Utils.WordBoundedIsWholeWord | src/utils.rs:21-33 | For a run of letters and digits, word-bounded holds exactly when the run cannot be extended left or right, as `\b` on both sides |
| Utils.ExportExcludesExports | src/utils.rs:89-129 | `export` and `exports` are never both recognised at one index |
| Utils.ImportMetaBranchUnreachable | src/walk.rs:185-189 | Wherever `import` is recognised, the byte after its first letter exists and is not '.', so the `import.meta` branch is never taken |
| Utils.ClampedMatchBackIsExact | src/utils.rs:137-175 | The saturating backward reads match exactly when the keyword really ends at p, so the unchecked subtractions never run below 0 on a match |
| Utils.SaturatedReadsCollide | src/utils.rs:137-175 | A keyword longer than the prefix ending at p is never matched by saturating backward reads |
| Utils.IsVarDeclaration | src/utils.rs:132-178 | True exactly when the nearest non-whitespace byte left of the name ends a word-bounded `var`, `let` or `const` |
| Utils.IsFunctionParamDeclaration | src/utils.rs:181-213 | True exactly when '=' is not on the left and '(' or ',' is on the left, or ')', ',' or `=>` is on the right; a panic exactly when the right-hand '=' is the last byte and no earlier test decided |
| Utils.IsSlashPrecededByRegexPossibleKeyword | src/utils.rs:217-254 | True exactly when `if`, `else`, `return` or `while` ends at the index |
| Utils.YieldIsNotRecognised | src/utils.rs:245-252 | `yield` ending at the index never makes the test true on its own |
| Lexer.FirstIndex | src/walk.rs:49 | `Iterator::position` over a suffix: the first index from the start that satisfies the test, with none before it, or none when no index in the range does |
| Lexer.LineCommentEnd | src/walk.rs:48-61 | The scan ends when no LF or CR follows. It panics when the first terminator is not the first comment byte and is the last byte. Otherwise it lands one past the first terminator, or two past it when a following LF is swallowed |
| Lexer.BlockCommentEnd | src/walk.rs:64-75 | Panics when the buffer ends right after the opening. Otherwise it lands one past the first '/' preceded by '*' from i + 3, or ends the scan when there is none |
| Lexer.QuotedEnd | src/walk.rs:78-92 | Lands one past the first unescaped quote of the same kind, or ends the scan when there is none; never panics |
| Lexer.TemplateStop | src/walk.rs:97-110 | Finds the first unescaped `${` or delimiter from the start index. It reports the out-of-bounds read when the buffer ends in a '$' that is reached first |
| Lexer.RegexFlagsEnd | src/walk.rs:165-171 | The first non-letter at or after the index, every byte before it a letter; none when letters run to the end |
| Lexer.ImportLooksStatic | src/walk.rs:192-200 | True exactly when a trigger byte occurs before any '(' |
| Walk.CloseScope | src/walk.rs:220-233 | The brace depth drops by one. A shadow made deeper than the new depth is reset. Shadows at or below it are kept. Nothing else changes |
| Walk.TrackBraces | src/walk.rs:218-233 | '{' deepens the scope. '}' closes it, or panics at depth 0 (usize underflow). Any other byte changes nothing |
| Walk.GlobalAt | src/walk.rs:236 | The name of the global lies at i and is word-bounded |
| Walk.VisibleGlobal | src/walk.rs:236-262 | Finds a global at the cursor whose shadow depth lies above the brace depth, or reports that none qualifies |
| Walk.UseOfGlobal | src/walk.rs:236-271 | After a declaration the shadow is set to the current depth. As a parameter it is set one deeper. Otherwise the CommonJS flag is set. The cursor moves past the name, and a panic happens exactly when the parameter test reads past the end |
| Walk.DetectCjs | src/walk.rs:214-273 | Moves the cursor forward and never breaks. '{' deepens the scope by one and moves 1. '}' panics at depth 0 and otherwise closes the scope and moves 1. At any other byte, a visible global is handled as a declaration, a parameter or a use, and with no visible global the cursor moves 1 and nothing else changes. It sets the CommonJS flag only on a visible global and keeps every shadow within its scope |
| Walk.SkipTemplate | src/walk.rs:96-127 | Panics and breaks exactly at the end-of-buffer conditions. Otherwise it resumes after the first stop. The depth goes up only when a backtick scan stops at `${`, and down only when a '}' scan stops at a backtick |
| Walk.SlashStartsRegex | src/walk.rs:130-138 | A '/' starts a regex exactly when the nearest byte to its left is not a letter or digit, or ends `if`, `else`, `return` or `while` |
| Walk.InBracketShift | src/walk.rs:140-147 | The bracket state reached from a start equals the state reached from one byte later after applying the first byte's effect |
| Walk.RegexEnd | src/walk.rs:140-158 | Finds the first line feed, or the first unescaped '/' outside an unescaped character class, by the bracket state of the reference definition |
| Walk.SkipRegex | src/walk.rs:139-178 | A line feed first means division and moves one byte. Otherwise it lands on the first non-letter after the flags that follow the closing '/'. It ends the scan exactly when there is no stop or the flags run to the end |
| Walk.DetectEsm | src/walk.rs:183-211 | Acts exactly at a recognised `import` or `export` and moves 6. `export` always sets the ESM flag; `import` sets it exactly when ' " { or a line feed comes before any '(' |
| Walk.StepAt | src/walk.rs:45-275 | Every pass that goes round again moves the cursor forward within the buffer and never clears a flag. Each flag is set only by its own keyword at the cursor. The template depth moves only at a backtick or '}', the brace depth only at a brace, and shadows stay in scope. A panic happens only at '/', a backtick, '}' or a global. Completeness: at a byte that opens no skipped text, a recognised `import`/`export` is acted on while ESM is undecided (`export` sets the flag and moves 6). Otherwise the CommonJS test runs while CommonJS is undecided, and once it is decided the cursor just moves 1 |
| Walk.StepAtSkips | src/walk.rs:46-178 | A '/' as the last byte panics. `//`, `/*`, a quote, a backtick or a '}' inside template code, and a '/' that starts a regex each take their own jump. A '/' that starts none of these is a division and moves the cursor one byte |
| Walk.TemplateStopped | src/walk.rs:111-125 | After the first stop of a template scan, the cursor lands past it. At `${` the depth rises only for a backtick scan, and at a backtick it falls only for a '}' scan. Nothing else changes |
| Walk.Run | src/walk.rs:44-276 | The loop ends at the end of the buffer, once both flags are set, or at a break. Flags only go from false to true, and a set flag has its keyword somewhere in the scanned part. With both flags already set, or the cursor at the end, it stops at once with the state unchanged |
| Walk.ReachesStep | src/walk.rs:44-276 | A pass from a state the loop passes through, taken while the loop goes on, leads to another state it passes through |
| Walk.RunFromReached | src/walk.rs:44-276 | From every state the loop passes through, the loop ends exactly as it does from the start |
| Walk.ReachedKeywordCounts | src/walk.rs:17-287 | Completeness of the verdict: when a pass the loop reaches sets the ESM flag, a classified verdict is ESM or Mixed. When it sets the CommonJS flag, the verdict is CJS or Mixed |
| Walk.Guess | src/walk.rs:17-287 | An ESM or Mixed verdict has an `import`/`export` in the text; a CJS or Mixed verdict has a global in the text; an empty text is Unknown |
| Walk.GuessJsSyntax | src/walk.rs:44-286 | The while loop computes the same outcome as the recursive definition |
| Lib.RemTwo | src/lib.rs:71 | Rust's signed `% 2`: 1 for positive odd, -1 for negative odd, 0 for even |
| Lib.IsOddDepth | src/lib.rs:71 | The parity test holds only for positive odd depths |
| Lib.KeywordFrom | src/lib.rs:135-142 | The unrolled test succeeds exactly when the keyword lies at i, is followed by a non-letter and preceded by a non-letter or the start. It panics exactly when the buffer ends inside the keyword or right after it while still matching |
| Lib.KeywordAt | src/lib.rs:135-142 | The same characterisation as KeywordFrom, starting from the first byte |
| Lib.ExportsIsNotExport | src/lib.rs:162-169 | Where `exports` is recognised, `export` is not |
| Lib.LineCommentEnd | src/lib.rs:27-35 | Lands one past the first line feed, with carriage returns ignored, or ends the scan when there is none |
| Lib.SkipRegex | src/lib.rs:111-130 | Lands one past the first non-letter after the flags that follow the first unescaped '/'. It ends the scan exactly when there is no unescaped '/' or the flags run to the end, and it never panics |
| Lib.FlagsSkipped | src/lib.rs:120-128 | From a closing '/', lands one past the first non-letter, every byte before it a letter; it ends the scan exactly when letters run to the end |
| Lib.SkipTemplate | src/lib.rs:71-107 | Searches for `${` or the byte that opened the scan and lands one past it. The depth is adjusted by the parity rule after a '}' has decremented it. The scan panics exactly when the buffer ends in a reached '$', and ends the loop exactly when no stop is found and no such '$' is reached |
| Lib.DetectCjs | src/lib.rs:177-228 | `require`, `module`, `exports`, tested in that order, each set the CommonJS flag and move 8, 7, 8 with nothing else changed. When all three tests fail, the cursor moves 1. A panic comes only from a keyword read past the end |
| Lib.DetectKeywords | src/lib.rs:133-230 | A static `import` sets ESM and moves 7. A non-static one moves 8, and static means ' " or a line feed before any '('. An `export` sets ESM and moves 7. A keyword read past the end panics. When ESM is decided or both ESM tests fail, the CommonJS test runs while CommonJS is undecided, and otherwise the cursor moves 1. Flags are set only by their keywords |
| Lib.StepAt | src/lib.rs:24-230 | Every pass that goes round again moves forward and never clears a flag. Flags are set only by their keywords, and the depth changes only at a backtick or at '}' on an odd depth. At a byte that opens no skipped text, the keyword tests always run |
| Lib.StepAtSkips | src/lib.rs:25-130 | A '/' as the last byte panics. `//`, `/*`, a quote, a backtick or a '}' at odd depth each take their own jump, and every other '/' is taken as the start of a regex |
| Lib.Run | src/lib.rs:23-231 | The loop ends only at the end of the buffer or at a break. Flags only go from false to true, each with its keyword in the scanned part. With the cursor at the end it stops at once with the state unchanged |
| Lib.ReachesStep | src/lib.rs:23-231 | A pass from a state the loop passes through, taken while the loop goes on, leads to another state it passes through |
| Lib.RunFromReached | src/lib.rs:23-231 | From every state the loop passes through, the loop ends exactly as it does from the start. There is no early exit once both flags are set |
| Lib.ReachedKeywordCounts | src/lib.rs:10-242 | Completeness of the verdict: when a pass the loop reaches sets the ESM flag, a classified verdict is ESM or Mixed. When it sets the CommonJS flag, the verdict is CJS or Mixed |
| Lib.Guess | src/lib.rs:10-242 | ESM/Mixed verdicts have an ESM keyword in the text, CJS/Mixed a CommonJS keyword; an empty text is Unknown |
| Lib.GetJsSyntax | src/lib.rs:23-241 | The while loop computes the same outcome as the recursive definition |
| WalkSamples.RunOverInert | src/walk.rs:275 | A stretch of bytes that start nothing leaves the outcome of the run unchanged |
| WalkSamples.RequireBetweenSpaces | tests/unit/main.rs:43 | `" n     require     "` is CJS |
| WalkSamples.TemplateCodeThenImport | src/walk.rs:96-127 | Code inside `${}` is scanned, the following backtick closes the template, and a later static import makes the text ESM |
| WalkSamples.ParameterShadowsRequire | src/walk.rs:236-246 | `require` as an arrow-function parameter hides it in the body, so `(require)=>{require}` is Unknown |
| WalkSamples.QuotedRequire | src/walk.rs:77-92 | `'require'` is Unknown: the keyword is jumped over with the string |
| WalkSamples.RegexImport | src/walk.rs:129-178 | `/import/g;` is Unknown: the keyword is jumped over with the regex and its flags |
| LibSamples.TemplateCodeHidesImport | src/lib.rs:87 | The same template text as TemplateCodeThenImport is Unknown in lib.rs: the resume at '}' searches for '}' and ends the scan |
| LibSamples.EmptyTemplateGoesNegative | src/lib.rs:92-96 | An empty template from depth 0 leaves the depth at -1 |
| LibSamples.CreateRequireLine | tests/main.rs:20-23 | The first line of tests/samples/cjs_create_require_scope.js is CJS |
| LibSamples.CommentedRequire | src/lib.rs:26-35 | `//require` is Unknown: the keyword is jumped over with the line comment |
| LibSamples.RegexImport | src/lib.rs:110-130 | `/import/g;` is Unknown: the keyword is jumped over with the regex and its flags |

## Left out

- The wasm-bindgen attributes and `console_error_panic_hook` (src/walk.rs:1-19): host bindings with no logic.
- The commented-out and live `println!` debug output (src/lib.rs:190): console output, modelled as nothing.
- The network fetching and file caching of the repository's tests (tests/main.rs, tests/integration/main.rs): HTTP and filesystem I/O.
- examples/vite and dist-proxy: browser UI, a JS-regex comparator, and a mapping of enum values to strings.
- UTF-8 decoding: `s.as_bytes()` hands the bytes over unchanged, so the model takes the bytes as input.
- Walk.TrackBraces: the `scope_depth -= 1` at src/walk.rs:221 is modelled as the build with overflow checks on, where an unmatched '}' at depth 0 panics. A release or wasm build without overflow checks wraps the depth to usize::MAX and goes on, and the model does not follow that build.
- Walk.State: the template depth (src/walk.rs:35, an inferred i32) is an unbounded `nat`. Overflow would need about 2^31 nested templates.
- Walk.State: the `usize::MAX` shadow sentinel is the constructor `Unshadowed`, which is above every depth. A real depth can never reach usize::MAX.
- Lib.LibState: the i32 template depth is an unbounded `int`. Overflow would need about 2^31 nested templates.
- Walk.StepAt: the `import.meta` branch (src/walk.rs:187-189) is not modelled, because `Utils.ImportMetaBranchUnreachable` proves it is never taken.
- Utils.IsBackslashEscaped: lib.rs:246-257 is a byte-for-byte copy of it, so both scanners use this one definition.
- Lib.SkipTemplate: when the scan after a '}' finds no stop, the loop breaks and the already-decremented depth is dropped with the rest of the state. Only the flags decide the verdict, so the outcome is the same.
- Walk.Guess and Lib.Guess: the whole sample files of tests/unit/samples and tests/samples (for example esm_entice_cjs.js) are not proved. Only short texts and the first line of cjs_create_require_scope.js are.
- Walk.Run: the ESM and CommonJS witnesses in its contract say that a keyword occurs in the scanned part. They do not say that the keyword lies outside comments and strings. That a keyword in skipped text leaves the verdict alone is shown only on samples (`WalkSamples.QuotedRequire`, `WalkSamples.RegexImport`).
- Lib.Run: the same holds for its witnesses. Skipped text is shown only on samples (`LibSamples.CommentedRequire`, `LibSamples.RegexImport`).
