/** Whole runs of the scanner in src/walk.rs over short texts, each taken one pass at a time. */
module WalkSamples {
  import opened Ascii
  import opened Steps
  import opened Walk
  import Utils
  import Lexer

  /** A byte that opens nothing the scanner skips and starts none of its keywords. */
  predicate IsInert(c: Byte) {
    && c != '/' && c != '\'' && c != '"' && c != '`' && c != '{' && c != '}'
    && c != 'i' && c != 'e' && c != 'r' && c != 'm'
  }

  /** At an inert byte one pass only moves the cursor on. */
  lemma StepOverInert(b: seq<Byte>, st: State)
    requires st.i < |b| && IsInert(b[st.i])
    ensures StepAt(b, st) == Continue(st.(i := st.i + 1))
  {
  }

  /** A stretch of inert bytes does not change the outcome of the run. */
  lemma {:induction false} RunOverInert(b: seq<Byte>, st: State, j: nat)
    requires st.i <= j <= |b|
    requires !(st.esm && st.cjs)
    requires forall k :: st.i <= k < j ==> IsInert(b[k])
    ensures Run(b, st) == Run(b, st.(i := j))
    decreases j - st.i
  {
    if st.i < j {
      StepOverInert(b, st);
      RunStep(b, st, st.(i := st.i + 1));
      RunOverInert(b, st.(i := st.i + 1), j);
    }
  }

  lemma RequireFoundAt7(b: seq<Byte>)
    requires b == " n     require     "
    ensures GlobalAt(b, 7, Require)
  {
  }

  lemma RequireNotDeclared(b: seq<Byte>)
    requires b == " n     require     "
    ensures !Utils.IsVarDeclaration(b, 7)
  {
  }

  lemma RequireNotParameter(b: seq<Byte>)
    requires b == " n     require     "
    ensures Utils.IsFunctionParamDeclaration(b, 7, 14) == Value(false)
  {
  }

  lemma RequireCountsAt7(b: seq<Byte>)
    requires b == " n     require     "
    requires GlobalAt(b, 7, Require)
    requires !Utils.IsVarDeclaration(b, 7)
    requires Utils.IsFunctionParamDeclaration(b, 7, 14) == Value(false)
    ensures StepAt(b, Initial.(i := 7)) == Continue(Initial.(i := 7).(cjs := true, i := 14))
  {
  }

  lemma UpToRequire(b: seq<Byte>)
    requires b == " n     require     "
    ensures Run(b, Initial) == Run(b, Initial.(i := 7))
  {
    assert forall k :: 0 <= k < 7 ==> IsInert(b[k]);
    RunOverInert(b, Initial, 7);
  }

  lemma OverRequire(b: seq<Byte>)
    requires b == " n     require     "
    ensures Run(b, Initial.(i := 7)) == Run(b, Initial.(cjs := true, i := 14))
  {
    RequireFoundAt7(b);
    RequireNotDeclared(b);
    RequireNotParameter(b);
    RequireCountsAt7(b);
  }

  lemma AfterRequire(b: seq<Byte>)
    requires b == " n     require     "
    ensures Run(b, Initial.(cjs := true, i := 14)) == Stopped(Initial.(cjs := true, i := 19))
  {
    var s14 := Initial.(cjs := true, i := 14);
    assert forall k :: 14 <= k < 19 ==> IsInert(b[k]);
    RunOverInert(b, s14, 19);
  }

  /** The text of the quick unit test (tests/unit/main.rs:43): a free `require` makes it CommonJS. */
  lemma RequireBetweenSpaces(b: seq<Byte>)
    requires b == " n     require     "
    ensures Guess(b) == Classified(CJS)
  {
    UpToRequire(b);
    OverRequire(b);
    AfterRequire(b);
  }

  lemma TemplateOpens(b: seq<Byte>)
    requires b == "`${a}`import'x'"
    ensures StepAt(b, Initial) == Continue(Initial.(i := 3, templateDepth := 1))
  {
    assert Lexer.TemplateStop(b, 1, '`') == Found(1);
  }

  lemma TemplateCodeCloses(b: seq<Byte>)
    requires b == "`${a}`import'x'"
    ensures StepAt(b, Initial.(i := 4, templateDepth := 1)) == Continue(Initial.(i := 6))
  {
    assert Lexer.TemplateStop(b, 5, '`') == Found(5);
  }

  lemma StaticImportSeen(b: seq<Byte>)
    requires b == "`${a}`import'x'"
    ensures StepAt(b, Initial.(i := 6)) == Continue(Initial.(i := 12, esm := true))
  {
    assert Utils.IsImportIdentifier(b, 6);
    assert Lexer.ImportLooksStatic(b, 12, StaticImportMarkers);
  }

  lemma SpecifierSkipped(b: seq<Byte>)
    requires b == "`${a}`import'x'"
    ensures StepAt(b, Initial.(i := 12, esm := true)) == Continue(Initial.(i := 15, esm := true))
  {
    assert Lexer.ClosesQuote(b, 14, '\'');
    assert !Lexer.ClosesQuote(b, 13, '\'');
  }

  /** One pass that goes round again leaves the rest of the run unchanged. */
  lemma RunStep(b: seq<Byte>, st: State, next: State)
    requires st.i < |b| && !(st.esm && st.cjs)
    requires StepAt(b, st) == Continue(next)
    ensures Run(b, st) == Run(b, next)
  {
  }

  /** Template code is scanned as code, and the backtick after it resumes template text;
      the static import that follows is seen. */
  lemma TemplateCodeThenImport(b: seq<Byte>)
    requires b == "`${a}`import'x'"
    ensures Guess(b) == Classified(ESM)
  {
    var s3 := Initial.(i := 3, templateDepth := 1);
    var s4 := Initial.(i := 4, templateDepth := 1);
    var s6 := Initial.(i := 6);
    var s12 := Initial.(i := 12, esm := true);
    var s15 := Initial.(i := 15, esm := true);
    TemplateOpens(b);
    RunStep(b, Initial, s3);
    assert IsInert(b[3]);
    StepOverInert(b, s3);
    RunStep(b, s3, s4);
    TemplateCodeCloses(b);
    RunStep(b, s4, s6);
    StaticImportSeen(b);
    RunStep(b, s6, s12);
    SpecifierSkipped(b);
    RunStep(b, s12, s15);
    assert Run(b, s15) == Stopped(s15);
  }

  /** A byte that opens nothing the scanner skips, at which no keyword is seen. */
  lemma StepOverPlain(b: seq<Byte>, st: State)
    requires st.i < |b|
    requires b[st.i] !in {'/', '\'', '"', '`', '{', '}'}
    requires !Utils.IsImportIdentifier(b, st.i) && !Utils.IsExportIdentifier(b, st.i)
    requires VisibleGlobal(b, st).None?
    ensures StepAt(b, st) == Continue(st.(i := st.i + 1))
  {
  }

  lemma ParameterShadows(b: seq<Byte>)
    requires b == "(require)=>{require}"
    ensures StepAt(b, Initial.(i := 1)) == Continue(Initial.(i := 8, requireShadow := ShadowedAt(1)))
  {
    assert GlobalAt(b, 1, Require);
    assert !Utils.IsVarDeclaration(b, 1);
    assert Utils.IsFunctionParamDeclaration(b, 1, 8) == Value(true);
  }

  lemma ShadowedRequireIgnored(b: seq<Byte>, k: nat)
    requires b == "(require)=>{require}"
    requires 12 <= k < 19
    ensures var st := Initial.(i := k, scopeDepth := 1, requireShadow := ShadowedAt(1));
            StepAt(b, st) == Continue(st.(i := k + 1))
  {
    var st := Initial.(i := k, scopeDepth := 1, requireShadow := ShadowedAt(1));
    assert !GlobalAt(b, k, Module) && !GlobalAt(b, k, Exports);
    assert !Utils.IsImportIdentifier(b, k) && !Utils.IsExportIdentifier(b, k);
    StepOverPlain(b, st);
  }

  lemma BlockCloses(b: seq<Byte>)
    requires b == "(require)=>{require}"
    ensures StepAt(b, Initial.(i := 19, scopeDepth := 1, requireShadow := ShadowedAt(1)))
            == Continue(Initial.(i := 20))
  {
  }

  lemma UpToArrow(b: seq<Byte>)
    requires b == "(require)=>{require}"
    ensures Run(b, Initial) == Run(b, Initial.(i := 8, requireShadow := ShadowedAt(1)))
  {
    StepOverInert(b, Initial);
    RunStep(b, Initial, Initial.(i := 1));
    ParameterShadows(b);
    RunStep(b, Initial.(i := 1), Initial.(i := 8, requireShadow := ShadowedAt(1)));
  }

  lemma UpToBlockBody(b: seq<Byte>)
    requires b == "(require)=>{require}"
    ensures Run(b, Initial.(i := 8, requireShadow := ShadowedAt(1)))
            == Run(b, Initial.(i := 12, scopeDepth := 1, requireShadow := ShadowedAt(1)))
  {
    var s8 := Initial.(i := 8, requireShadow := ShadowedAt(1));
    assert forall k :: 8 <= k < 11 ==> IsInert(b[k]);
    RunOverInert(b, s8, 11);
    BlockOpens(b);
    RunStep(b, s8.(i := 11), s8.(i := 12, scopeDepth := 1));
  }

  lemma BlockOpens(b: seq<Byte>)
    requires b == "(require)=>{require}"
    ensures StepAt(b, Initial.(i := 11, requireShadow := ShadowedAt(1)))
            == Continue(Initial.(i := 12, scopeDepth := 1, requireShadow := ShadowedAt(1)))
  {
    var st := Initial.(i := 11, requireShadow := ShadowedAt(1));
    assert b[11] == '{' && IsCodeByte(b, st);
    assert DetectEsm(b, st).None?;
  }

  lemma OverBlockBody(b: seq<Byte>)
    requires b == "(require)=>{require}"
    ensures Run(b, Initial.(i := 12, scopeDepth := 1, requireShadow := ShadowedAt(1)))
            == Run(b, Initial.(i := 19, scopeDepth := 1, requireShadow := ShadowedAt(1)))
  {
    var k := 12;
    while k < 19
      invariant 12 <= k <= 19
      invariant Run(b, Initial.(i := 12, scopeDepth := 1, requireShadow := ShadowedAt(1)))
                == Run(b, Initial.(i := k, scopeDepth := 1, requireShadow := ShadowedAt(1)))
    {
      ShadowedRequireIgnored(b, k);
      RunStep(b, Initial.(i := k, scopeDepth := 1, requireShadow := ShadowedAt(1)),
              Initial.(i := k + 1, scopeDepth := 1, requireShadow := ShadowedAt(1)));
      k := k + 1;
    }
  }

  /** A parameter named require hides it in the braces that follow, and closing them makes it
      visible again. */
  lemma ParameterShadowsRequire(b: seq<Byte>)
    requires b == "(require)=>{require}"
    ensures Guess(b) == Classified(Unknown)
  {
    UpToArrow(b);
    UpToBlockBody(b);
    OverBlockBody(b);
    BlockCloses(b);
    RunStep(b, Initial.(i := 19, scopeDepth := 1, requireShadow := ShadowedAt(1)), Initial.(i := 20));
  }

  /** A keyword inside a quoted string is jumped over with the string and leaves the verdict alone. */
  lemma QuotedRequire(b: seq<Byte>)
    requires b == "'require'"
    ensures Guess(b) == Classified(Unknown)
  {
    assert Lexer.QuotedEnd(b, 0) == Continue(9);
  }

  lemma RegexClosesAt7(b: seq<Byte>)
    requires b == "/import/g;"
    ensures RegexEnd(b, 1, false) == Some(7)
  {
    assert b[7] == '/' && b[6] == 't' && !Utils.IsBackslashEscaped(b, 7);
    assert RegexEnd(b, 7, false) == Some(7);
    assert forall j :: 1 <= j < 7 ==> b[j] != '[' && b[j] != ']' && b[j] != '\n' && b[j] != '/';
    assert RegexEnd(b, 6, false) == RegexEnd(b, 7, false);
    assert RegexEnd(b, 5, false) == RegexEnd(b, 6, false);
    assert RegexEnd(b, 4, false) == RegexEnd(b, 5, false);
    assert RegexEnd(b, 3, false) == RegexEnd(b, 4, false);
    assert RegexEnd(b, 2, false) == RegexEnd(b, 3, false);
  }

  lemma RegexSkipped(b: seq<Byte>)
    requires b == "/import/g;"
    ensures StepAt(b, Initial) == Continue(Initial.(i := 9))
  {
    RegexClosesAt7(b);
    assert b[8] == 'g' && b[9] == ';';
    assert Lexer.RegexFlagsEnd(b, 8) == Some(9);
    assert SlashStartsRegex(b, 0);
    StepAtSkips(b, Initial);
  }

  /** A keyword inside a regex literal is jumped over with the regex and its flags. */
  lemma RegexImport(b: seq<Byte>)
    requires b == "/import/g;"
    ensures Guess(b) == Classified(Unknown)
  {
    RegexSkipped(b);
    RunStep(b, Initial, Initial.(i := 9));
    RunOverInert(b, Initial.(i := 9), 10);
  }
}

/** Whole runs of the older scanner in src/lib.rs over short texts. */
module LibSamples {
  import opened Ascii
  import opened Steps
  import opened Lib
  import Lexer

  /** One pass that goes round again leaves the rest of the run unchanged. */
  lemma RunStep(b: seq<Byte>, st: LibState, next: LibState)
    requires st.i < |b|
    requires StepAt(b, st) == Continue(next)
    ensures Run(b, st) == Run(b, next)
  {
  }

  lemma TemplateOpens(b: seq<Byte>)
    requires b == "`${a}`import'x'"
    ensures StepAt(b, LibInitial) == Continue(LibState(2, false, false, 1))
  {
    assert Lexer.TemplateStop(b, 1, '`') == Found(1);
  }

  lemma TemplateCodeBytes(b: seq<Byte>)
    requires b == "`${a}`import'x'"
    ensures StepAt(b, LibState(2, false, false, 1)) == Continue(LibState(3, false, false, 1))
    ensures StepAt(b, LibState(3, false, false, 1)) == Continue(LibState(4, false, false, 1))
  {
  }

  lemma ResumeFindsNoBrace(b: seq<Byte>)
    requires b == "`${a}`import'x'"
    ensures StepAt(b, LibState(4, false, false, 1)) == Break
  {
    assert Lexer.TemplateStop(b, 5, '}') == NotFound;
  }

  /** The same text as WalkSamples.TemplateCodeThenImport: here the '}' that ends the template
      code searches for another '}', finds none, and the loop exits before the import. */
  lemma TemplateCodeHidesImport(b: seq<Byte>)
    requires b == "`${a}`import'x'"
    ensures Guess(b) == Classified(Unknown)
  {
    TemplateOpens(b);
    RunStep(b, LibInitial, LibState(2, false, false, 1));
    TemplateCodeBytes(b);
    RunStep(b, LibState(2, false, false, 1), LibState(3, false, false, 1));
    RunStep(b, LibState(3, false, false, 1), LibState(4, false, false, 1));
    ResumeFindsNoBrace(b);
  }

  /** Two backticks from depth 0: the closing one meets an even depth and decrements it. */
  lemma EmptyTemplateGoesNegative(b: seq<Byte>)
    requires b == "``"
    ensures StepAt(b, LibInitial) == Continue(LibState(2, false, false, -1))
  {
    assert Lexer.TemplateStop(b, 1, '`') == Found(1);
  }

  /** At a byte that opens no skipped construct, where none of the five keywords is found, one
      pass only moves the cursor on. A '}' counts as such at an even depth. */
  predicate PlainAt(b: seq<Byte>, k: nat) {
    && k < |b|
    && b[k] != '/' && b[k] != '\'' && b[k] != '"' && b[k] != '`'
    && KeywordAt(b, k, "import") == Value(false)
    && KeywordAt(b, k, "export") == Value(false)
    && KeywordAt(b, k, "require") == Value(false)
    && KeywordAt(b, k, "module") == Value(false)
    && KeywordAt(b, k, "exports") == Value(false)
  }

  /** A byte that is none of the special bytes and starts no keyword is plain. */
  lemma InertIsPlain(b: seq<Byte>, k: nat)
    requires k < |b|
    requires b[k] !in {'/', '\'', '"', '`', 'i', 'e', 'r', 'm'}
    ensures PlainAt(b, k)
  {
  }

  lemma StepOverPlain(b: seq<Byte>, st: LibState)
    requires PlainAt(b, st.i) && !IsOddDepth(st.templateDepth)
    ensures StepAt(b, st) == Continue(st.(i := st.i + 1))
  {
  }

  lemma {:induction false} RunOverPlain(b: seq<Byte>, st: LibState, j: nat)
    requires st.i <= j <= |b| && !IsOddDepth(st.templateDepth)
    requires forall k :: st.i <= k < j ==> PlainAt(b, k)
    ensures Run(b, st) == Run(b, st.(i := j))
    decreases j - st.i
  {
    if st.i < j {
      StepOverPlain(b, st);
      RunOverPlain(b, st.(i := st.i + 1), j);
    }
  }

  lemma CreateIsPlain(b: seq<Byte>)
    requires b == "const { createRequire } = require('module')"
    ensures PlainAt(b, 9) && PlainAt(b, 10) && PlainAt(b, 13)
  {
    assert b[13] == 'e' && b[14] == 'R';
  }

  lemma RequireSuffixIsPlain(b: seq<Byte>)
    requires b == "const { createRequire } = require('module')"
    ensures PlainAt(b, 15) && PlainAt(b, 18)
  {
    assert b[15] == 'e' && b[16] == 'q' && b[18] == 'i' && b[19] == 'r';
  }

  lemma RequireEndIsPlain(b: seq<Byte>)
    requires b == "const { createRequire } = require('module')"
    ensures PlainAt(b, 19) && PlainAt(b, 20)
  {
    assert b[19] == 'r' && b[20] == 'e' && b[21] == ' ';
  }

  lemma InertBeforeRequire(b: seq<Byte>)
    requires b == "const { createRequire } = require('module')"
    ensures forall k :: 0 <= k < 26 && k !in {9, 10, 13, 15, 18, 19, 20} ==> PlainAt(b, k)
  {
    forall k | 0 <= k < 26 && k !in {9, 10, 13, 15, 18, 19, 20}
      ensures PlainAt(b, k)
    {
      InertIsPlain(b, k);
    }
  }

  lemma WordsBeforeRequire(b: seq<Byte>)
    requires b == "const { createRequire } = require('module')"
    ensures forall k :: 0 <= k < 26 ==> PlainAt(b, k)
  {
    CreateIsPlain(b);
    RequireSuffixIsPlain(b);
    RequireEndIsPlain(b);
    InertBeforeRequire(b);
  }

  lemma RequireCalled(b: seq<Byte>)
    requires b == "const { createRequire } = require('module')"
    ensures StepAt(b, LibInitial.(i := 26)) == Continue(LibInitial.(i := 34, cjs := true))
  {
    assert KeywordAt(b, 26, "import") == Value(false);
    assert KeywordAt(b, 26, "export") == Value(false);
    assert KeywordAt(b, 26, "require") == Value(true);
  }

  lemma SpecifierSkipped(b: seq<Byte>)
    requires b == "const { createRequire } = require('module')"
    ensures StepAt(b, LibInitial.(i := 34, cjs := true)) == Continue(LibInitial.(i := 42, cjs := true))
  {
    assert Lexer.ClosesQuote(b, 41, '\'');
    assert forall k :: 34 < k < 41 ==> b[k] != '\'';
    assert Lexer.QuotedEnd(b, 34) == Continue(42);
    StepAtSkips(b, LibInitial.(i := 34, cjs := true));
  }

  /** The first line of tests/samples/cjs_create_require_scope.js: with no shadowing, the call of
      require makes the text CommonJS, and the destructured createRequire does not count. */
  lemma CreateRequireLine(b: seq<Byte>)
    requires b == "const { createRequire } = require('module')"
    ensures Guess(b) == Classified(CJS)
  {
    WordsBeforeRequire(b);
    RunOverPlain(b, LibInitial, 26);
    RequireCalled(b);
    RunStep(b, LibInitial.(i := 26), LibInitial.(i := 34, cjs := true));
    SpecifierSkipped(b);
    RunStep(b, LibInitial.(i := 34, cjs := true), LibInitial.(i := 42, cjs := true));
    InertIsPlain(b, 42);
    StepOverPlain(b, LibInitial.(i := 42, cjs := true));
    RunStep(b, LibInitial.(i := 42, cjs := true), LibInitial.(i := 43, cjs := true));
  }

  /** A keyword inside a line comment is jumped over with the comment. */
  lemma CommentedRequire(b: seq<Byte>)
    requires b == "//require"
    ensures Guess(b) == Classified(Unknown)
  {
    assert LineCommentEnd(b, 0) == Break;
    assert StepAt(b, LibInitial) == Break;
  }

  /** A keyword inside a regex literal is jumped over with the regex and its flags. */
  lemma RegexImport(b: seq<Byte>)
    requires b == "/import/g;"
    ensures Guess(b) == Classified(Unknown)
  {
    assert b[7] == '/' && !Utils.IsBackslashEscaped(b, 7);
    assert FirstRegexClose(b, 0, 7);
    assert b[8] == 'g' && b[9] == ';';
    assert Lexer.RegexFlagsEnd(b, 8) == Some(9);
    assert FlagsSkipped(b, 0, 7) == Continue(10);
    assert SkipRegex(b, 0) == Continue(10);
  }
}
