/** get_js_syntax (src/lib.rs:10-242): the earlier, self-contained scanner. It has no early exit,
    no brace or shadow tracking, treats every '/' that does not open a comment as a regex, and
    tells template text from template code by the parity of a signed depth. */
module Lib {
  import opened Ascii
  import opened Steps
  import Utils
  import Lexer

  /** The loop variables of get_js_syntax (lib.rs:11-21). The template depth is an i32 that can go
      below zero. */
  datatype LibState = LibState(i: nat, esm: bool, cjs: bool, templateDepth: int)

  const LibInitial := LibState(0, false, false, 0)

  // ---------------------------------------------------------------------------------------------
  // Template depth parity

  /** Rust's `d % 2` on a signed integer: the remainder takes the sign of the dividend, so it is
      -1 for a negative odd d, where Dafny's Euclidean remainder is 1. */
  function RemTwo(d: int): (r: int)
    ensures r == 1 <==> d > 0 && d % 2 == 1
    ensures r == -1 <==> d < 0 && d % 2 == 1
    ensures r == 0 <==> d % 2 == 0
  {
    if d >= 0 then d % 2 else -((-d) % 2)
  }

  /** `template_literal_js_depth % 2 == 1` (lib.rs:71, 92): true only for positive odd depths. */
  function IsOddDepth(d: int): (r: bool)
    ensures r <==> d > 0 && d % 2 == 1
  {
    RemTwo(d) == 1
  }

  // ---------------------------------------------------------------------------------------------
  // Keywords

  /** The keyword test of lib.rs after its first byte matched: the bytes of kw from index k on, the
      byte after kw (not a letter), then the byte before i (not a letter). Each read past the end of
      the buffer panics. */
  function KeywordFrom(b: seq<Byte>, i: nat, kw: seq<Byte>, k: nat): (r: Checked<bool>)
    requires i < |b| && 0 < k <= |kw|
    requires forall j :: 0 <= j < k ==> i + j < |b| && b[i + j] == kw[j]
    ensures r == Value(true) <==> && i + |kw| < |b| && MatchesAt(b, i, kw)
                                  && !IsAsciiAlphabetic(b[i + |kw|])
                                  && (i == 0 || !IsAsciiAlphabetic(b[i - 1]))
    ensures r == OutOfRange <==> && |b| <= i + |kw|
                                 && forall j :: i <= j < |b| ==> b[j] == kw[j - i]
    decreases |kw| - k
  {
    if i + k >= |b| then OutOfRange
    else if k == |kw| then Value(!IsAsciiAlphabetic(b[i + k]) && (i == 0 || !IsAsciiAlphabetic(b[i - 1])))
    else if b[i + k] != kw[k] then Value(false)
    else KeywordFrom(b, i, kw, k + 1)
  }

  /** The unrolled keyword tests of lib.rs:135-142, 162-169, 180-188, 198-205 and 214-222: kw at i,
      not followed by a letter, and at the buffer start or after a non-letter. The reads b[i + k]
      are unchecked: a buffer that ends while still matching kw, or right after it, panics. */
  function KeywordAt(b: seq<Byte>, i: nat, kw: seq<Byte>): (r: Checked<bool>)
    requires i < |b| && 0 < |kw|
    ensures r == Value(true) <==> && i + |kw| < |b| && MatchesAt(b, i, kw)
                                  && !IsAsciiAlphabetic(b[i + |kw|])
                                  && (i == 0 || !IsAsciiAlphabetic(b[i - 1]))
    ensures r == OutOfRange <==> && |b| <= i + |kw|
                                 && forall j :: i <= j < |b| ==> b[j] == kw[j - i]
  {
    if b[i] != kw[0] then Value(false) else KeywordFrom(b, i, kw, 1)
  }

  /** `exports` is never taken for `export` (lib.rs:162-169): the byte after `export` in it is the
      letter s, so the boundary test fails. */
  lemma ExportsIsNotExport(b: seq<Byte>, i: nat)
    requires i < |b|
    requires KeywordAt(b, i, "exports") == Value(true)
    ensures KeywordAt(b, i, "export") == Value(false)
  {
    assert b[i + 6] == "exports"[6];
  }

  // ---------------------------------------------------------------------------------------------
  // Skips

  /** The `//` jump of lib.rs:27-35: to one past the first line feed. A carriage return does not
      end the comment. */
  function LineCommentEnd(b: seq<Byte>, i: nat): (r: Step<nat>)
    requires i + 1 < |b| && b[i] == '/' && b[i + 1] == '/'
    ensures !r.Panic?
    ensures r.Break? <==> forall k :: i + 2 <= k < |b| ==> b[k] != '\n'
    ensures r.Continue? ==> && i + 3 <= r.next <= |b| && b[r.next - 1] == '\n'
                            && forall k :: i + 2 <= k < r.next - 1 ==> b[k] != '\n'
  {
    var p := (k: nat) => k < |b| && b[k] == '\n';
    assert forall k: nat :: k < |b| ==> (p(k) <==> b[k] == '\n');
    match Lexer.FirstIndex(|b|, i + 2, p)
    case None => Break
    case Some(t) => Continue(t + 1)
  }

  /** The byte at k is an unescaped '/'. */
  predicate ClosesRegex(b: seq<Byte>, k: nat) {
    1 <= k < |b| && b[k] == '/' && !Utils.IsBackslashEscaped(b, k)
  }

  /** e is the first unescaped '/' after i. */
  ghost predicate FirstRegexClose(b: seq<Byte>, i: nat, e: nat) {
    i < e < |b| && ClosesRegex(b, e) && forall k :: i < k < e ==> !ClosesRegex(b, k)
  }

  /** The regex skip of lib.rs:111-130 for a '/' at i: to the first unescaped '/' after it, then one
      past the first byte after that which is not a flag letter. There is no character-class or
      division handling. */
  function SkipRegex(b: seq<Byte>, i: nat): (r: Step<nat>)
    requires i < |b|
    ensures !r.Panic?
    ensures r.Continue? ==>
              exists e: nat :: && FirstRegexClose(b, i, e) && e < r.next - 1 < |b|
                               && !IsAsciiAlphabetic(b[r.next - 1])
                               && forall k :: e < k < r.next - 1 ==> IsAsciiAlphabetic(b[k])
    ensures r.Break? <==> || (forall k :: i < k < |b| ==> !ClosesRegex(b, k))
                          || exists e: nat :: && FirstRegexClose(b, i, e)
                                              && forall k :: e < k < |b| ==> IsAsciiAlphabetic(b[k])
  {
    var p := (k: nat) => ClosesRegex(b, k);
    assert forall k: nat :: p(k) <==> ClosesRegex(b, k);
    match Lexer.FirstIndex(|b|, i + 1, p)
    case None => Break
    case Some(e) =>
      assert FirstRegexClose(b, i, e);
      FlagsSkipped(b, i, e)
  }

  /** The flag skip after the closing '/' at e: one past the first non-letter, or the end of the
      scan when letters run to the end of the buffer. */
  function FlagsSkipped(b: seq<Byte>, i: nat, e: nat): (r: Step<nat>)
    requires FirstRegexClose(b, i, e)
    ensures !r.Panic?
    ensures r.Break? <==> forall k :: e < k < |b| ==> IsAsciiAlphabetic(b[k])
    ensures r.Continue? ==> && e < r.next - 1 < |b|
                            && !IsAsciiAlphabetic(b[r.next - 1])
                            && forall k :: e < k < r.next - 1 ==> IsAsciiAlphabetic(b[k])
  {
    match Lexer.RegexFlagsEnd(b, e + 1)
    case None => Break
    case Some(m) => Continue(m + 1)
  }

  /** The template scan of lib.rs:71-107 for a backtick at the cursor, or for a '}' at an odd depth
      (which first drops the depth by one). The scan looks for an unescaped `${` or an unescaped
      copy of the byte it started at, so a '}'-started scan looks for '}' and not for a backtick.
      At `${` the depth goes up; at the delimiter it goes up at an odd depth and down at an even
      one. The cursor moves one past the stop either way. When the scan finds nothing the loop
      exits, and the depth it decremented is never read again, so that state is not kept. */
  function SkipTemplate(b: seq<Byte>, st: LibState): (r: Step<LibState>)
    requires st.i < |b| && (b[st.i] == '`' || (IsOddDepth(st.templateDepth) && b[st.i] == '}'))
    ensures r.Panic? <==> && st.i + 1 < |b| && b[|b| - 1] == '$'
                          && forall k :: st.i < k < |b| - 1 ==> !Lexer.IsTemplateStop(b, k, b[st.i])
    ensures r.Break? <==> && !(st.i + 1 < |b| && b[|b| - 1] == '$')
                          && forall k :: st.i < k < |b| ==> !Lexer.IsTemplateStop(b, k, b[st.i])
    ensures r.Continue? ==>
              && r.next.esm == st.esm && r.next.cjs == st.cjs
              && st.i + 1 < r.next.i <= |b|
              && Lexer.IsTemplateStop(b, r.next.i - 1, b[st.i])
              && (forall k :: st.i < k < r.next.i - 1 ==> !Lexer.IsTemplateStop(b, k, b[st.i]))
              && (b[r.next.i - 1] == '$' || b[r.next.i - 1] == b[st.i])
    ensures r.Continue? ==>
              var d := if b[st.i] == '}' then st.templateDepth - 1 else st.templateDepth;
              r.next.templateDepth == if b[r.next.i - 1] == '$' || IsOddDepth(d) then d + 1 else d - 1
  {
    var c := b[st.i];
    var d := if c == '}' then st.templateDepth - 1 else st.templateDepth;
    match Lexer.TemplateStop(b, st.i + 1, c)
    case NotFound => Break
    case IndexOutOfBounds => Panic
    case Found(k) =>
      var d' := if b[k] == '$' then d + 1 else if IsOddDepth(d) then d + 1 else d - 1;
      Continue(st.(i := k + 1, templateDepth := d'))
  }

  // ---------------------------------------------------------------------------------------------
  // Keyword detection

  /** The bytes whose appearance before any '(' marks an import as static (lib.rs:146). */
  const StaticImportMarkers: set<Byte> := {'\'', '"', '\n'}

  /** A word-bounded import or export at k, as lib.rs tests them. */
  predicate EsmKeywordAt(b: seq<Byte>, k: nat)
    requires k < |b|
  {
    KeywordAt(b, k, "import") == Value(true) || KeywordAt(b, k, "export") == Value(true)
  }

  /** A word-bounded require, module or exports at k, as lib.rs tests them. */
  predicate CjsKeywordAt(b: seq<Byte>, k: nat)
    requires k < |b|
  {
    || KeywordAt(b, k, "require") == Value(true)
    || KeywordAt(b, k, "module") == Value(true)
    || KeywordAt(b, k, "exports") == Value(true)
  }

  /** The CommonJS keyword tests of lib.rs:177-228, taken while CommonJS is undecided: require,
      module and exports each set the flag, with no scope or declaration test. */
  function DetectCjs(b: seq<Byte>, st: LibState): (r: Step<LibState>)
    requires st.i < |b| && !st.cjs
    ensures !r.Break?
    ensures r.Continue? ==> r.next.esm == st.esm && r.next.templateDepth == st.templateDepth
    ensures r.Continue? && r.next.cjs ==>
              || (KeywordAt(b, st.i, "require") == Value(true) && r.next.i == st.i + 8)
              || (KeywordAt(b, st.i, "module") == Value(true) && r.next.i == st.i + 7)
              || (KeywordAt(b, st.i, "exports") == Value(true) && r.next.i == st.i + 8)
    ensures r.Continue? && !r.next.cjs ==> r.next == st.(i := st.i + 1)
    ensures r.Panic? ==> || KeywordAt(b, st.i, "require").OutOfRange?
                         || KeywordAt(b, st.i, "module").OutOfRange?
                         || KeywordAt(b, st.i, "exports").OutOfRange?
    ensures KeywordAt(b, st.i, "require") == Value(true) ==> r == Continue(st.(cjs := true, i := st.i + 8))
    ensures KeywordAt(b, st.i, "require") == Value(false) && KeywordAt(b, st.i, "module") == Value(true) ==>
              r == Continue(st.(cjs := true, i := st.i + 7))
    ensures && KeywordAt(b, st.i, "require") == Value(false) && KeywordAt(b, st.i, "module") == Value(false)
            && KeywordAt(b, st.i, "exports") == Value(true) ==>
              r == Continue(st.(cjs := true, i := st.i + 8))
    ensures && KeywordAt(b, st.i, "require") == Value(false) && KeywordAt(b, st.i, "module") == Value(false)
            && KeywordAt(b, st.i, "exports") == Value(false) ==>
              r == Continue(st.(i := st.i + 1))
  {
    match KeywordAt(b, st.i, "require")
    case OutOfRange => Panic
    case Value(true) => Continue(st.(cjs := true, i := st.i + 8))
    case Value(false) =>
      match KeywordAt(b, st.i, "module")
      case OutOfRange => Panic
      case Value(true) => Continue(st.(cjs := true, i := st.i + 7))
      case Value(false) =>
        match KeywordAt(b, st.i, "exports")
        case OutOfRange => Panic
        case Value(true) => Continue(st.(cjs := true, i := st.i + 8))
        case Value(false) => Continue(st.(i := st.i + 1))
  }

  /** No ESM keyword acts at the cursor: the ESM flag is already set, or neither import nor
      export is found there (lib.rs:133). */
  predicate EsmUndecidedOrSettled(b: seq<Byte>, st: LibState)
    requires st.i < |b|
  {
    st.esm || (KeywordAt(b, st.i, "import") == Value(false) && KeywordAt(b, st.i, "export") == Value(false))
  }

  /** The keyword half of one pass (lib.rs:133-230). An import that is not static moves the cursor
      by 7 and then falls through with the byte it started at: that byte is 'i', so no other test
      matches and the pass ends with the common one-byte step, 8 bytes in all. */
  function DetectKeywords(b: seq<Byte>, st: LibState): (r: Step<LibState>)
    requires st.i < |b|
    ensures !r.Break?
    ensures r.Continue? ==> st.i < r.next.i && r.next.templateDepth == st.templateDepth
    ensures r.Continue? ==> (st.esm ==> r.next.esm) && (st.cjs ==> r.next.cjs)
    ensures r.Continue? && r.next.esm && !st.esm ==> EsmKeywordAt(b, st.i)
    ensures r.Continue? && r.next.cjs && !st.cjs ==> CjsKeywordAt(b, st.i)
    ensures !st.esm && KeywordAt(b, st.i, "import") == Value(true) ==>
              && r.Continue?
              && (r.next.esm <==>
                    exists k: nat :: && st.i + 6 <= k < |b|
                                     && b[k] in StaticImportMarkers
                                     && forall j :: st.i + 6 <= j < k ==> b[j] !in StaticImportMarkers && b[j] != '(')
              && r.next.i == if r.next.esm then st.i + 7 else st.i + 8
    ensures && !st.esm && KeywordAt(b, st.i, "import") == Value(false)
            && KeywordAt(b, st.i, "export") == Value(true) ==>
              r == Continue(st.(esm := true, i := st.i + 7))
    ensures !st.esm && KeywordAt(b, st.i, "import").OutOfRange? ==> r.Panic?
    ensures && !st.esm && KeywordAt(b, st.i, "import") == Value(false)
            && KeywordAt(b, st.i, "export").OutOfRange? ==>
              r.Panic?
    ensures EsmUndecidedOrSettled(b, st) && !st.cjs ==> r == DetectCjs(b, st)
    ensures EsmUndecidedOrSettled(b, st) && st.cjs ==> r == Continue(st.(i := st.i + 1))
  {
    if st.esm then
      if st.cjs then Continue(st.(i := st.i + 1)) else DetectCjs(b, st)
    else
      match KeywordAt(b, st.i, "import")
      case OutOfRange => Panic
      case Value(true) =>
        if Lexer.ImportLooksStatic(b, st.i + 6, StaticImportMarkers) then
          Continue(st.(esm := true, i := st.i + 7))
        else
          Continue(st.(i := st.i + 8))
      case Value(false) =>
        match KeywordAt(b, st.i, "export")
        case OutOfRange => Panic
        case Value(true) => Continue(st.(esm := true, i := st.i + 7))
        case Value(false) =>
          if st.cjs then Continue(st.(i := st.i + 1)) else DetectCjs(b, st)
  }

  // ---------------------------------------------------------------------------------------------
  // The scan loop

  /** A jump of the cursor over a comment, a string or a regex, keeping the rest of the state. */
  function Jump(st: LibState, s: Step<nat>): (r: Step<LibState>)
    ensures r.Continue? <==> s.Continue?
    ensures r.Panic? <==> s.Panic?
    ensures r.Continue? ==> r.next == st.(i := s.next)
  {
    match s
    case Continue(n) => Continue(st.(i := n))
    case Break => Break
    case Panic => Panic
  }

  /** The byte at the cursor opens nothing that is skipped, so the keyword tests see it. */
  predicate IsCodeByte(b: seq<Byte>, st: LibState)
    requires st.i < |b|
  {
    var c := b[st.i];
    c != '/' && c != '\'' && c != '"' && c != '`' && !(c == '}' && IsOddDepth(st.templateDepth))
  }

  /** One pass of the loop body of get_js_syntax (lib.rs:24-230) with the cursor in the buffer. */
  function StepAt(b: seq<Byte>, st: LibState): (r: Step<LibState>)
    requires st.i < |b|
    ensures r.Continue? ==> st.i < r.next.i
    ensures r.Continue? ==> (st.esm ==> r.next.esm) && (st.cjs ==> r.next.cjs)
    ensures r.Continue? && r.next.esm && !st.esm ==> EsmKeywordAt(b, st.i)
    ensures r.Continue? && r.next.cjs && !st.cjs ==> CjsKeywordAt(b, st.i)
    ensures r.Continue? && r.next.templateDepth != st.templateDepth ==>
              b[st.i] == '`' || (b[st.i] == '}' && IsOddDepth(st.templateDepth))
    ensures IsCodeByte(b, st) ==> r == DetectKeywords(b, st)
  {
    var i := st.i;
    var c := b[i];
    if c == '/' && i + 1 == |b| then Panic
    else if c == '/' && b[i + 1] == '/' then Jump(st, LineCommentEnd(b, i))
    else if c == '/' && b[i + 1] == '*' then Jump(st, Lexer.BlockCommentEnd(b, i))
    else if c == '\'' || c == '"' then Jump(st, Lexer.QuotedEnd(b, i))
    else if c == '`' || (IsOddDepth(st.templateDepth) && c == '}') then SkipTemplate(b, st)
    else if c == '/' then Jump(st, SkipRegex(b, i))
    else DetectKeywords(b, st)
  }

  /** The jumps of one pass (lib.rs:25-130): a '/' as the last byte panics on the read after it;
      otherwise a line comment, a block comment, a quoted string and template text are each
      jumped over by their own scan, and every other '/' is taken to start a regex. */
  lemma StepAtSkips(b: seq<Byte>, st: LibState)
    requires st.i < |b|
    ensures b[st.i] == '/' && st.i + 1 == |b| ==> StepAt(b, st).Panic?
    ensures b[st.i] == '/' && st.i + 1 < |b| && b[st.i + 1] == '/' ==>
              StepAt(b, st) == Jump(st, LineCommentEnd(b, st.i))
    ensures b[st.i] == '/' && st.i + 1 < |b| && b[st.i + 1] == '*' ==>
              StepAt(b, st) == Jump(st, Lexer.BlockCommentEnd(b, st.i))
    ensures b[st.i] == '/' && st.i + 1 < |b| && b[st.i + 1] != '/' && b[st.i + 1] != '*' ==>
              StepAt(b, st) == Jump(st, SkipRegex(b, st.i))
    ensures b[st.i] == '\'' || b[st.i] == '"' ==> StepAt(b, st) == Jump(st, Lexer.QuotedEnd(b, st.i))
    ensures b[st.i] == '`' || (IsOddDepth(st.templateDepth) && b[st.i] == '}') ==>
              StepAt(b, st) == SkipTemplate(b, st)
  {
  }

  /** The loop of get_js_syntax (lib.rs:23-231): it runs to the end of the buffer whatever the
      flags are, unless an unterminated construct leaves it early. */
  function Run(b: seq<Byte>, st: LibState): (r: Ending<LibState>)
    ensures r.Stopped? ==> && st.i <= r.final.i
                           && (st.esm ==> r.final.esm) && (st.cjs ==> r.final.cjs)
    ensures r.Stopped? ==> r.final.i >= |b| || StepAt(b, r.final).Break?
    ensures r.Stopped? && r.final.esm && !st.esm ==>
              exists k: nat :: st.i <= k < |b| && EsmKeywordAt(b, k)
    ensures r.Stopped? && r.final.cjs && !st.cjs ==>
              exists k: nat :: st.i <= k < |b| && CjsKeywordAt(b, k)
    ensures st.i >= |b| ==> r == Stopped(st)
    decreases |b| - st.i
  {
    if st.i >= |b| then Stopped(st)
    else
      match StepAt(b, st)
      case Break => Stopped(st)
      case Panic => Aborted
      case Continue(next) => Run(b, next)
  }

  /** s is a state the loop of get_js_syntax passes through when started from st. */
  ghost predicate Reaches(b: seq<Byte>, st: LibState, s: LibState)
    decreases |b| - st.i
  {
    || s == st
    || (st.i < |b| && StepAt(b, st).Continue? && Reaches(b, StepAt(b, st).next, s))
  }

  /** A pass taken from a reached state that goes round again leads to a reached state. */
  lemma {:induction false} ReachesStep(b: seq<Byte>, st: LibState, s: LibState)
    requires Reaches(b, st, s) && s.i < |b| && StepAt(b, s).Continue?
    ensures Reaches(b, st, StepAt(b, s).next)
    decreases |b| - st.i
  {
    if s != st {
      ReachesStep(b, StepAt(b, st).next, s);
    }
  }

  /** The loop ends the same way from every state it passes through: with no early exit, it keeps
      going past the point where both flags are set. */
  lemma {:induction false} RunFromReached(b: seq<Byte>, st: LibState, s: LibState)
    requires Reaches(b, st, s)
    ensures Run(b, s) == Run(b, st)
    decreases |b| - st.i
  {
    if s != st {
      RunFromReached(b, StepAt(b, st).next, s);
    }
  }

  /** Completeness of the verdict: a pass the loop reaches that sets a flag decides the verdict for
      that flag, unless a later pass panics. With the contracts of StepAt, DetectKeywords and
      DetectCjs, every keyword the cursor lands on outside skipped text counts. */
  lemma ReachedKeywordCounts(b: seq<Byte>, s: LibState)
    requires Reaches(b, LibInitial, s) && s.i < |b| && StepAt(b, s).Continue?
    ensures StepAt(b, s).next.esm && Guess(b).Classified? ==>
              Guess(b).syntax == ESM || Guess(b).syntax == Mixed
    ensures StepAt(b, s).next.cjs && Guess(b).Classified? ==>
              Guess(b).syntax == CJS || Guess(b).syntax == Mixed
  {
    ReachesStep(b, LibInitial, s);
    RunFromReached(b, LibInitial, StepAt(b, s).next);
  }

  /** get_js_syntax (lib.rs:10-242): the verdict of the flags the loop ends with, or a panic. */
  function Guess(b: seq<Byte>): (r: Outcome)
    ensures r.Classified? && (r.syntax == ESM || r.syntax == Mixed) ==>
              exists k: nat :: k < |b| && EsmKeywordAt(b, k)
    ensures r.Classified? && (r.syntax == CJS || r.syntax == Mixed) ==>
              exists k: nat :: k < |b| && CjsKeywordAt(b, k)
    ensures |b| == 0 ==> r == Classified(Unknown)
  {
    match Run(b, LibInitial)
    case Aborted => Panicked
    case Stopped(final) => Classified(Verdict(final.esm, final.cjs))
  }

  /** get_js_syntax as the while loop of lib.rs:23-231. */
  method GetJsSyntax(b: seq<Byte>) returns (r: Outcome)
    ensures r == Guess(b)
  {
    var st := LibInitial;
    while st.i < |b|
      invariant Run(b, st) == Run(b, LibInitial)
      decreases |b| - st.i
    {
      match StepAt(b, st)
      case Panic =>
        return Panicked;
      case Break =>
        break;
      case Continue(next) =>
        st := next;
    }
    return Classified(Verdict(st.esm, st.cjs));
  }
}
