/** guess_js_syntax (src/walk.rs:17-287): the current scanner. One pass over the byte buffer with a
    forward-only cursor, two sticky flags, a template-literal depth, a brace depth and one shadow
    field per CommonJS global. */
module Walk {
  import opened Ascii
  import opened Steps
  import Utils
  import Lexer

  // ---------------------------------------------------------------------------------------------
  // State

  /** A shadow-depth field of walk.rs:40-42. Unshadowed is the usize::MAX sentinel: no brace depth
      the scan can reach is as large, so every depth is below it. ShadowedAt(d) means a declaration
      or a parameter hides the global from depth d inward. */
  datatype Shadow = Unshadowed | ShadowedAt(depth: nat)

  /** scope_depth < shadowed_depth: the global is visible at brace depth d. */
  predicate Below(d: nat, s: Shadow) {
    s.Unshadowed? || d < s.depth
  }

  /** The three CommonJS globals the scanner watches for. */
  datatype Global = Require | Module | Exports

  function Name(g: Global): seq<Byte> {
    match g
    case Require => "require"
    case Module => "module"
    case Exports => "exports"
  }

  /** The loop variables of guess_js_syntax (walk.rs:21-42). */
  datatype State = State(
    i: nat,
    esm: bool,
    cjs: bool,
    templateDepth: nat,
    scopeDepth: nat,
    requireShadow: Shadow,
    moduleShadow: Shadow,
    exportsShadow: Shadow)

  const Initial := State(0, false, false, 0, 0, Unshadowed, Unshadowed, Unshadowed)

  function ShadowOf(st: State, g: Global): Shadow {
    match g
    case Require => st.requireShadow
    case Module => st.moduleShadow
    case Exports => st.exportsShadow
  }

  function WithShadow(st: State, g: Global, s: Shadow): (r: State)
    ensures ShadowOf(r, g) == s
    ensures forall h :: h != g ==> ShadowOf(r, h) == ShadowOf(st, h)
    ensures r.(requireShadow := st.requireShadow, moduleShadow := st.moduleShadow,
               exportsShadow := st.exportsShadow) == st
  {
    match g
    case Require => st.(requireShadow := s)
    case Module => st.(moduleShadow := s)
    case Exports => st.(exportsShadow := s)
  }

  /** No shadow outlives the scope it was made for: a declaration shadows from the current depth
      and a parameter from one deeper, and closing a brace forgets every deeper shadow. */
  predicate ShadowsInScope(st: State) {
    && InScope(st.requireShadow, st.scopeDepth)
    && InScope(st.moduleShadow, st.scopeDepth)
    && InScope(st.exportsShadow, st.scopeDepth)
  }

  predicate InScope(s: Shadow, d: nat) {
    s.ShadowedAt? ==> s.depth <= d + 1
  }

  // ---------------------------------------------------------------------------------------------
  // Braces and the CommonJS globals

  function Forget(s: Shadow, d: nat): Shadow {
    if Below(d, s) then Unshadowed else s
  }

  /** An unskipped '}' while CommonJS is still undecided (walk.rs:220-233): the brace depth drops by
      one and every shadow made deeper than the new depth is reset. */
  function CloseScope(st: State): (r: State)
    requires st.scopeDepth > 0
    ensures r.scopeDepth + 1 == st.scopeDepth
    ensures forall g :: ShadowOf(r, g) == ShadowOf(st, g) || ShadowOf(r, g).Unshadowed?
    ensures forall g :: ShadowOf(r, g).ShadowedAt? ==> !Below(r.scopeDepth, ShadowOf(r, g))
    ensures forall g :: ShadowOf(st, g).ShadowedAt? && ShadowOf(st, g).depth <= r.scopeDepth ==>
              ShadowOf(r, g) == ShadowOf(st, g)
    ensures r.(scopeDepth := st.scopeDepth, requireShadow := st.requireShadow,
               moduleShadow := st.moduleShadow, exportsShadow := st.exportsShadow) == st
  {
    var d := st.scopeDepth - 1;
    st.(scopeDepth := d,
        requireShadow := Forget(st.requireShadow, d),
        moduleShadow := Forget(st.moduleShadow, d),
        exportsShadow := Forget(st.exportsShadow, d))
  }

  /** The matcher of utils.rs for g: is_require_identifier, is_module_identifier or
      is_exports_identifier. */
  function GlobalAt(b: seq<Byte>, i: nat, g: Global): (r: bool)
    requires i < |b|
    ensures r <==> MatchesAt(b, i, Name(g)) && Utils.IsWordBounded(b, i, i + |Name(g)|)
    ensures r ==> b[i] != '{' && b[i] != '}'
  {
    match g
    case Require => Utils.IsRequireIdentifier(b, i)
    case Module => Utils.IsModuleIdentifier(b, i)
    case Exports => Utils.IsExportsIdentifier(b, i)
  }

  /** A visible, word-bounded global at the cursor (walk.rs:236-271): after var, let or const it is
      a declaration and hides the global from this depth; as a parameter it hides it in the
      function body, one depth deeper; otherwise it is a CommonJS reference. The cursor moves past
      the name either way. */
  function UseOfGlobal(b: seq<Byte>, st: State, g: Global): (r: Step<State>)
    requires st.i < |b| && !st.cjs && GlobalAt(b, st.i, g)
    ensures !r.Break?
    ensures r.Panic? <==> !Utils.IsVarDeclaration(b, st.i)
                          && Utils.IsFunctionParamDeclaration(b, st.i, st.i + |Name(g)|).OutOfRange?
    ensures r.Continue? ==> && r.next.i == st.i + |Name(g)|
                            && r.next.esm == st.esm
                            && r.next.templateDepth == st.templateDepth
                            && r.next.scopeDepth == st.scopeDepth
                            && forall h :: h != g ==> ShadowOf(r.next, h) == ShadowOf(st, h)
    ensures r.Continue? && !r.next.cjs ==>
              if Utils.IsVarDeclaration(b, st.i) then ShadowOf(r.next, g) == ShadowedAt(st.scopeDepth)
              else && Utils.IsFunctionParamDeclaration(b, st.i, st.i + |Name(g)|) == Value(true)
                   && ShadowOf(r.next, g) == ShadowedAt(st.scopeDepth + 1)
    ensures r.Continue? && r.next.cjs ==>
              && !Utils.IsVarDeclaration(b, st.i)
              && Utils.IsFunctionParamDeclaration(b, st.i, st.i + |Name(g)|) == Value(false)
              && ShadowOf(r.next, g) == ShadowOf(st, g)
  {
    var e := st.i + |Name(g)|;
    if Utils.IsVarDeclaration(b, st.i) then
      Continue(WithShadow(st, g, ShadowedAt(st.scopeDepth)).(i := e))
    else
      match Utils.IsFunctionParamDeclaration(b, st.i, e)
      case OutOfRange => Panic
      case Value(true) => Continue(WithShadow(st, g, ShadowedAt(st.scopeDepth + 1)).(i := e))
      case Value(false) => Continue(st.(cjs := true, i := e))
  }

  /** The first of require, module and exports (in that order) that is visible and word-bounded at
      the cursor. */
  function VisibleGlobal(b: seq<Byte>, st: State): (r: Option<Global>)
    requires st.i < |b|
    ensures r.Some? ==> GlobalAt(b, st.i, r.value) && Below(st.scopeDepth, ShadowOf(st, r.value))
    ensures r.None? ==> forall g :: !(GlobalAt(b, st.i, g) && Below(st.scopeDepth, ShadowOf(st, g)))
  {
    if Below(st.scopeDepth, st.requireShadow) && GlobalAt(b, st.i, Require) then Some(Require)
    else if Below(st.scopeDepth, st.moduleShadow) && GlobalAt(b, st.i, Module) then Some(Module)
    else if Below(st.scopeDepth, st.exportsShadow) && GlobalAt(b, st.i, Exports) then Some(Exports)
    else None
  }

  /** The brace bookkeeping of walk.rs:218-233. An unmatched '}' underflows the usize depth. */
  function TrackBraces(b: seq<Byte>, st: State): (r: Step<State>)
    requires st.i < |b|
    ensures !r.Break?
    ensures r.Panic? <==> b[st.i] == '}' && st.scopeDepth == 0
    ensures b[st.i] == '{' ==> r == Continue(st.(scopeDepth := st.scopeDepth + 1))
    ensures b[st.i] != '{' && b[st.i] != '}' ==> r == Continue(st)
    ensures b[st.i] == '}' && st.scopeDepth > 0 ==> r == Continue(CloseScope(st))
  {
    if b[st.i] == '{' then Continue(st.(scopeDepth := st.scopeDepth + 1))
    else if b[st.i] == '}' then
      if st.scopeDepth == 0 then Panic else Continue(CloseScope(st))
    else Continue(st)
  }

  /** The CommonJS half of one pass (walk.rs:214-273), taken while CommonJS is undecided: brace
      bookkeeping, then the first visible global at the cursor, or one byte forward. */
  function DetectCjs(b: seq<Byte>, st: State): (r: Step<State>)
    requires st.i < |b| && !st.cjs
    ensures !r.Break?
    ensures r.Continue? ==> && st.i < r.next.i <= |b|
                            && r.next.esm == st.esm
                            && r.next.templateDepth == st.templateDepth
    ensures r.Continue? && r.next.cjs ==>
              exists g :: GlobalAt(b, st.i, g) && Below(st.scopeDepth, ShadowOf(st, g))
    ensures r.Continue? && r.next.scopeDepth != st.scopeDepth ==> b[st.i] == '{' || b[st.i] == '}'
    ensures ShadowsInScope(st) && r.Continue? ==> ShadowsInScope(r.next)
    ensures r.Continue? ==> Advances(b, st, r.next)
    ensures b[st.i] == '{' ==> r == Continue(st.(scopeDepth := st.scopeDepth + 1, i := st.i + 1))
    ensures b[st.i] == '}' ==>
              if st.scopeDepth == 0 then r.Panic? else r == Continue(CloseScope(st).(i := st.i + 1))
    ensures b[st.i] != '{' && b[st.i] != '}' && VisibleGlobal(b, st).Some? ==>
              r == UseOfGlobal(b, st, VisibleGlobal(b, st).value)
    ensures b[st.i] != '{' && b[st.i] != '}' && VisibleGlobal(b, st).None? ==>
              r == Continue(st.(i := st.i + 1))
  {
    match TrackBraces(b, st)
    case Panic => Panic
    case Break => Break
    case Continue(s) =>
      match VisibleGlobal(b, s)
      case Some(g) => UseOfGlobal(b, s, g)
      case None => Continue(s.(i := s.i + 1))
  }

  // ---------------------------------------------------------------------------------------------
  // Template literals

  /** k is where the template scan that starts after i stops. */
  ghost predicate FirstTemplateStop(b: seq<Byte>, i: nat, k: nat) {
    && i < k < |b|
    && Lexer.IsTemplateStop(b, k, '`')
    && forall j :: i < j < k ==> !Lexer.IsTemplateStop(b, j, '`')
  }

  /** The template skip of walk.rs:96-127, for a backtick at the cursor or for a '}' that ends the
      code of a `${` (template depth above 0). Both scan for an unescaped `${` or backtick. A
      backtick-opened scan that stops at `${` enters template code (depth + 1); a '}'-opened scan
      that stops at a backtick leaves it (depth - 1). */
  function SkipTemplate(b: seq<Byte>, st: State): (r: Step<State>)
    requires st.i < |b| && (b[st.i] == '`' || (st.templateDepth > 0 && b[st.i] == '}'))
    ensures r.Panic? <==> && st.i + 1 < |b| && b[|b| - 1] == '$'
                          && forall k :: st.i < k < |b| - 1 ==> !Lexer.IsTemplateStop(b, k, '`')
    ensures r.Break? <==> && !(st.i + 1 < |b| && b[|b| - 1] == '$')
                          && forall k :: st.i < k < |b| ==> !Lexer.IsTemplateStop(b, k, '`')
    ensures r.Continue? ==> && r.next == st.(i := r.next.i, templateDepth := r.next.templateDepth)
                            && st.i < r.next.i <= |b|
    ensures r.Continue? ==>
              exists k: nat :: && FirstTemplateStop(b, st.i, k)
                          && if b[k] == '$' then
                               && r.next.i == k + 2
                               && r.next.templateDepth == st.templateDepth + (if b[st.i] == '`' then 1 else 0)
                             else
                               && r.next.i == k + 1
                               && r.next.templateDepth + (if b[st.i] == '}' then 1 else 0) == st.templateDepth
    ensures r.Continue? ==> Advances(b, st, r.next)
  {
    match Lexer.TemplateStop(b, st.i + 1, '`')
    case NotFound => Break
    case IndexOutOfBounds => Panic
    case Found(k) =>
      assert FirstTemplateStop(b, st.i, k);
      TemplateStopped(b, st, k)
  }

  /** Where the template skip resumes once its scan has stopped at k. */
  function TemplateStopped(b: seq<Byte>, st: State, k: nat): (r: Step<State>)
    requires st.i < |b| && (b[st.i] == '`' || (st.templateDepth > 0 && b[st.i] == '}'))
    requires FirstTemplateStop(b, st.i, k)
    ensures r.Continue?
    ensures r.next == st.(i := r.next.i, templateDepth := r.next.templateDepth)
    ensures st.i < r.next.i <= |b|
    ensures if b[k] == '$' then
              && r.next.i == k + 2
              && r.next.templateDepth == st.templateDepth + (if b[st.i] == '`' then 1 else 0)
            else
              && r.next.i == k + 1
              && r.next.templateDepth + (if b[st.i] == '}' then 1 else 0) == st.templateDepth
    ensures Advances(b, st, r.next)
  {
    if b[k] == '$' then
      Continue(st.(i := k + 2, templateDepth := if b[st.i] == '`' then st.templateDepth + 1 else st.templateDepth))
    else
      Continue(st.(i := k + 1, templateDepth := if b[st.i] == '}' then st.templateDepth - 1 else st.templateDepth))
  }

  // ---------------------------------------------------------------------------------------------
  // Regex literals

  /** The regex-or-division test of walk.rs:131-137 for a '/' at i: the nearest non-whitespace
      byte to its left is neither a letter nor a digit, or it ends if, else, return or while. */
  function SlashStartsRegex(b: seq<Byte>, i: nat): (r: bool)
    requires i < |b|
    ensures var left := Utils.NearestNonWhitespaceLeft(b, i);
            r <==> || !IsAsciiAlphanumeric(b[left])
                   || EndsAt(b, left, "if") || EndsAt(b, left, "else")
                   || EndsAt(b, left, "return") || EndsAt(b, left, "while")
  {
    var left := Utils.NearestNonWhitespaceLeft(b, i);
    !IsAsciiAlphanumeric(b[left]) || Utils.IsSlashPrecededByRegexPossibleKeyword(b, left)
  }

  /** The byte at k is c and is not escaped. */
  predicate IsUnescaped(b: seq<Byte>, k: nat, c: Byte)
    requires 1 <= k < |b|
  {
    b[k] == c && !Utils.IsBackslashEscaped(b, k)
  }

  /** The bracket state after the byte at k: an unescaped '[' opens a character class and an
      unescaped ']' closes it. */
  function BracketAfter(b: seq<Byte>, k: nat, open: bool): bool
    requires 1 <= k < |b|
  {
    if IsUnescaped(b, k, '[') then true
    else if IsUnescaped(b, k, ']') then false
    else open
  }

  /** The bracket state the regex scan holds on reaching k, having started at from with state open:
      the last unescaped '[' or ']' in [from, k) decides it. */
  ghost function InBracketBefore(b: seq<Byte>, from: nat, k: nat, open: bool): bool
    requires 1 <= from <= k <= |b|
    decreases k - from
  {
    if k == from then open else BracketAfter(b, k - 1, InBracketBefore(b, from, k - 1, open))
  }

  /** Where the regex scan stops: a line feed, or an unescaped '/' outside a character class. */
  predicate IsRegexStop(b: seq<Byte>, k: nat, open: bool)
    requires 1 <= k < |b|
  {
    b[k] == '\n' || (!open && IsUnescaped(b, k, '/'))
  }

  /** Starting one byte later with the first byte's effect already applied gives the same state. */
  lemma {:induction false} InBracketShift(b: seq<Byte>, from: nat, k: nat, open: bool)
    requires 1 <= from < k <= |b|
    ensures InBracketBefore(b, from, k, open) == InBracketBefore(b, from + 1, k, BracketAfter(b, from, open))
    decreases k - from
  {
    if k > from + 1 {
      InBracketShift(b, from, k - 1, open);
    }
  }

  lemma InBracketShiftAll(b: seq<Byte>, from: nat, open: bool)
    requires 1 <= from < |b|
    ensures forall k :: from < k <= |b| ==>
              InBracketBefore(b, from, k, open) == InBracketBefore(b, from + 1, k, BracketAfter(b, from, open))
  {
    forall k | from < k <= |b|
      ensures InBracketBefore(b, from, k, open) == InBracketBefore(b, from + 1, k, BracketAfter(b, from, open))
    {
      InBracketShift(b, from, k, open);
    }
  }

  /** The search of walk.rs:140-158 from j with bracket state open: the first regex stop, reading
      the bracket state the bytes before it leave. */
  function RegexEnd(b: seq<Byte>, j: nat, open: bool): (r: Option<nat>)
    requires 1 <= j <= |b|
    ensures r.Some? ==> && j <= r.value < |b|
                        && IsRegexStop(b, r.value, InBracketBefore(b, j, r.value, open))
                        && forall k :: j <= k < r.value ==> !IsRegexStop(b, k, InBracketBefore(b, j, k, open))
    ensures r.None? ==> forall k :: j <= k < |b| ==> !IsRegexStop(b, k, InBracketBefore(b, j, k, open))
    decreases |b| - j
  {
    if j == |b| then None
    else
      InBracketShiftAll(b, j, open);
      if IsUnescaped(b, j, '[') then RegexEnd(b, j + 1, true)
      else if IsUnescaped(b, j, ']') then RegexEnd(b, j + 1, false)
      else if b[j] == '\n' then Some(j)
      else if !open && IsUnescaped(b, j, '/') then Some(j)
      else RegexEnd(b, j + 1, open)
  }

  /** The byte at k stops the regex scan that starts after the '/' at i. */
  ghost predicate StopsRegexAfter(b: seq<Byte>, i: nat, k: nat) {
    i < k < |b| && IsRegexStop(b, k, InBracketBefore(b, i + 1, k, false))
  }

  /** e is the first stop of the regex scan that starts after the '/' at i. */
  ghost predicate FirstRegexStop(b: seq<Byte>, i: nat, e: nat) {
    && StopsRegexAfter(b, i, e)
    && forall k :: i < k < e ==> !StopsRegexAfter(b, i, k)
  }

  lemma FirstRegexStopIsUnique(b: seq<Byte>, i: nat, e: nat)
    requires FirstRegexStop(b, i, e)
    ensures forall f: nat :: FirstRegexStop(b, i, f) ==> f == e
  {
    forall f: nat | FirstRegexStop(b, i, f) ensures f == e {
    }
  }

  /** The regex skip of walk.rs:139-178 for a '/' at i taken to start a regex. A line feed before
      the closing '/' means the slash was a division after all: one byte forward. Otherwise the
      cursor lands on the first byte after the closing '/' that is not a flag letter. */
  function SkipRegex(b: seq<Byte>, i: nat): (r: Step<nat>)
    requires i < |b|
    ensures !r.Panic?
    ensures r.Continue? ==> i < r.next < |b|
    ensures r == Continue(i + 1) <==> exists e: nat :: FirstRegexStop(b, i, e) && b[e] == '\n'
    ensures r.Continue? && r.next != i + 1 ==>
              exists e: nat :: && FirstRegexStop(b, i, e) && b[e] == '/' && e < r.next
                               && !IsAsciiAlphabetic(b[r.next])
                               && forall k :: e < k < r.next ==> IsAsciiAlphabetic(b[k])
    ensures r.Break? <==> || (forall k :: i < k < |b| ==> !StopsRegexAfter(b, i, k))
                          || exists e: nat :: && FirstRegexStop(b, i, e) && b[e] != '\n'
                                              && forall k :: e < k < |b| ==> IsAsciiAlphabetic(b[k])
  {
    match RegexEnd(b, i + 1, false)
    case None => Break
    case Some(e) =>
      assert FirstRegexStop(b, i, e);
      FirstRegexStopIsUnique(b, i, e);
      if b[e] == '\n' then Continue(i + 1)
      else
        match Lexer.RegexFlagsEnd(b, e + 1)
        case None => Break
        case Some(m) => Continue(m)
  }

  // ---------------------------------------------------------------------------------------------
  // ES module syntax

  /** The bytes whose appearance before any '(' marks an import as static (walk.rs:193). */
  const StaticImportMarkers: set<Byte> := {'\'', '"', '{', '\n'}

  /** The ESM half of one pass (walk.rs:183-211), taken while ESM is undecided. A word-bounded
      import moves the cursor past the keyword and decides ESM when a marker byte comes before any
      '('; a word-bounded export decides ESM. The import.meta branch of walk.rs:187-189 is not
      here: ImportMetaBranchUnreachable shows its guard never holds. */
  function DetectEsm(b: seq<Byte>, st: State): (r: Option<State>)
    requires st.i < |b| && !st.esm
    ensures r.Some? <==> Utils.IsImportIdentifier(b, st.i) || Utils.IsExportIdentifier(b, st.i)
    ensures r.Some? ==> r.value == st.(esm := r.value.esm, i := st.i + 6) && st.i + 6 <= |b|
    ensures r.Some? && Utils.IsExportIdentifier(b, st.i) ==> r.value.esm
    ensures r.Some? && Utils.IsImportIdentifier(b, st.i) ==>
              (r.value.esm <==>
                 exists k: nat :: && st.i + 6 <= k < |b|
                                  && b[k] in StaticImportMarkers
                                  && forall j :: st.i + 6 <= j < k ==> b[j] !in StaticImportMarkers && b[j] != '(')
    ensures r.Some? ==> Advances(b, st, r.value)
  {
    if Utils.IsImportIdentifier(b, st.i) then
      Some(st.(esm := Lexer.ImportLooksStatic(b, st.i + 6, StaticImportMarkers), i := st.i + 6))
    else if Utils.IsExportIdentifier(b, st.i) then
      Some(st.(esm := true, i := st.i + 6))
    else None
  }

  // ---------------------------------------------------------------------------------------------
  // The scan loop

  /** What every pass that goes round again guarantees (walk.rs:44-276): the cursor moves forward
      and stays within the buffer; the flags never go back to false, and each is set only by its
      own keyword at the cursor; the template depth moves by one, up only at a backtick whose scan
      stopped at `${` and down only at a '}' whose scan stopped at a backtick; the brace depth
      moves only at a brace while CommonJS is undecided; and no shadow outlives its scope. */
  ghost predicate Advances(b: seq<Byte>, st: State, n: State)
    requires st.i < |b|
  {
    && st.i < n.i <= |b|
    && (st.esm ==> n.esm) && (st.cjs ==> n.cjs)
    && (n.esm && !st.esm ==> Utils.IsImportIdentifier(b, st.i) || Utils.IsExportIdentifier(b, st.i))
    && (n.cjs && !st.cjs ==> exists g :: GlobalAt(b, st.i, g) && Below(st.scopeDepth, ShadowOf(st, g)))
    && (n.templateDepth > st.templateDepth ==>
          && b[st.i] == '`' && n.templateDepth == st.templateDepth + 1
          && 2 <= n.i && b[n.i - 2] == '$' && b[n.i - 1] == '{')
    && (n.templateDepth < st.templateDepth ==>
          b[st.i] == '}' && n.templateDepth + 1 == st.templateDepth && b[n.i - 1] == '`')
    && (n.scopeDepth != st.scopeDepth ==> !st.cjs && (b[st.i] == '{' || b[st.i] == '}'))
    && (ShadowsInScope(st) ==> ShadowsInScope(n))
  }

  /** A jump of the cursor over a comment, a string or a regex, keeping the rest of the state. */
  function Jump(b: seq<Byte>, st: State, s: Step<nat>): (r: Step<State>)
    requires st.i < |b|
    requires s.Continue? ==> st.i < s.next <= |b|
    ensures r.Continue? <==> s.Continue?
    ensures r.Panic? <==> s.Panic?
    ensures r.Continue? ==> r.next.i == s.next && Advances(b, st, r.next)
  {
    match s
    case Continue(n) => Continue(st.(i := n))
    case Break => Break
    case Panic => Panic
  }

  /** The byte at the cursor opens nothing that is skipped, so the keyword tests see it. */
  predicate IsCodeByte(b: seq<Byte>, st: State)
    requires st.i < |b|
  {
    var c := b[st.i];
    c != '/' && c != '\'' && c != '"' && c != '`' && !(c == '}' && st.templateDepth > 0)
  }

  /** One pass of the loop body of guess_js_syntax (walk.rs:45-275) with the cursor in the buffer:
      comments, strings, template text and regexes are jumped over in that order of precedence;
      otherwise the keywords at the cursor are looked at, ESM first. */
  function StepAt(b: seq<Byte>, st: State): (r: Step<State>)
    requires st.i < |b|
    ensures r.Continue? ==> Advances(b, st, r.next)
    ensures r.Panic? ==> || b[st.i] == '/' || b[st.i] == '`' || b[st.i] == '}'
                         || exists g :: GlobalAt(b, st.i, g)
    ensures IsCodeByte(b, st) && !st.esm && DetectEsm(b, st).Some? ==> r == Continue(DetectEsm(b, st).value)
    ensures IsCodeByte(b, st) && (st.esm || DetectEsm(b, st).None?) && !st.cjs ==> r == DetectCjs(b, st)
    ensures IsCodeByte(b, st) && (st.esm || DetectEsm(b, st).None?) && st.cjs ==>
              r == Continue(st.(i := st.i + 1))
  {
    var i := st.i;
    var c := b[i];
    if c == '/' && i + 1 == |b| then Panic
    else if c == '/' && b[i + 1] == '/' then Jump(b, st, Lexer.LineCommentEnd(b, i))
    else if c == '/' && b[i + 1] == '*' then Jump(b, st, Lexer.BlockCommentEnd(b, i))
    else if c == '\'' || c == '"' then Jump(b, st, Lexer.QuotedEnd(b, i))
    else if c == '`' || (st.templateDepth > 0 && c == '}') then SkipTemplate(b, st)
    else if c == '/' && SlashStartsRegex(b, i) then Jump(b, st, SkipRegex(b, i))
    else if !st.esm && DetectEsm(b, st).Some? then Continue(DetectEsm(b, st).value)
    else if !st.cjs then DetectCjs(b, st)
    else Continue(st.(i := i + 1))
  }

  /** The jumps of one pass (walk.rs:46-178): a '/' as the last byte panics on the read after it;
      otherwise a line comment, a block comment, a quoted string, template text and a regex are
      each jumped over by their own scan, and a '/' that starts none of them is a division, which
      moves the cursor one byte. */
  lemma StepAtSkips(b: seq<Byte>, st: State)
    requires st.i < |b|
    ensures b[st.i] == '/' && st.i + 1 == |b| ==> StepAt(b, st).Panic?
    ensures b[st.i] == '/' && st.i + 1 < |b| && b[st.i + 1] == '/' ==>
              StepAt(b, st) == Jump(b, st, Lexer.LineCommentEnd(b, st.i))
    ensures b[st.i] == '/' && st.i + 1 < |b| && b[st.i + 1] == '*' ==>
              StepAt(b, st) == Jump(b, st, Lexer.BlockCommentEnd(b, st.i))
    ensures b[st.i] == '\'' || b[st.i] == '"' ==> StepAt(b, st) == Jump(b, st, Lexer.QuotedEnd(b, st.i))
    ensures b[st.i] == '`' || (st.templateDepth > 0 && b[st.i] == '}') ==> StepAt(b, st) == SkipTemplate(b, st)
    ensures && b[st.i] == '/' && st.i + 1 < |b| && b[st.i + 1] != '/' && b[st.i + 1] != '*'
            && SlashStartsRegex(b, st.i) ==>
              StepAt(b, st) == Jump(b, st, SkipRegex(b, st.i))
    ensures && b[st.i] == '/' && st.i + 1 < |b| && b[st.i + 1] != '/' && b[st.i + 1] != '*'
            && !SlashStartsRegex(b, st.i) ==>
              StepAt(b, st) == Continue(st.(i := st.i + 1))
  {
    if b[st.i] == '/' && st.i + 1 < |b| && b[st.i + 1] != '/' && b[st.i + 1] != '*' && !SlashStartsRegex(b, st.i) {
      assert !Utils.IsImportIdentifier(b, st.i) && !Utils.IsExportIdentifier(b, st.i);
      assert forall g :: !GlobalAt(b, st.i, g);
    }
  }

  /** The loop of guess_js_syntax (walk.rs:44-276) from state st: it runs while the cursor is in
      the buffer and not both flags are set; an unterminated construct leaves it early. */
  function Run(b: seq<Byte>, st: State): (r: Ending<State>)
    ensures r.Stopped? ==> && st.i <= r.final.i
                           && (st.esm ==> r.final.esm) && (st.cjs ==> r.final.cjs)
    ensures r.Stopped? ==> || r.final.i >= |b|
                           || (r.final.esm && r.final.cjs)
                           || (r.final.i < |b| && StepAt(b, r.final).Break?)
    ensures r.Stopped? && st.i <= |b| ==> r.final.i <= |b|
    ensures r.Stopped? && ShadowsInScope(st) ==> ShadowsInScope(r.final)
    ensures r.Stopped? && r.final.esm && !st.esm ==>
              exists k: nat :: && st.i <= k < |b|
                               && (Utils.IsImportIdentifier(b, k) || Utils.IsExportIdentifier(b, k))
    ensures r.Stopped? && r.final.cjs && !st.cjs ==>
              exists k: nat, g :: st.i <= k < |b| && GlobalAt(b, k, g)
    ensures st.esm && st.cjs ==> r == Stopped(st)
    ensures st.i >= |b| ==> r == Stopped(st)
    decreases |b| - st.i
  {
    if st.i >= |b| || (st.esm && st.cjs) then Stopped(st)
    else
      match StepAt(b, st)
      case Break => Stopped(st)
      case Panic => Aborted
      case Continue(next) => Run(b, next)
  }

  /** s is a state the loop of guess_js_syntax passes through when started from st. */
  ghost predicate Reaches(b: seq<Byte>, st: State, s: State)
    decreases |b| - st.i
  {
    || s == st
    || (&& st.i < |b| && !(st.esm && st.cjs) && StepAt(b, st).Continue?
        && Reaches(b, StepAt(b, st).next, s))
  }

  /** A pass taken from a reached state that goes round again leads to a reached state. */
  lemma {:induction false} ReachesStep(b: seq<Byte>, st: State, s: State)
    requires Reaches(b, st, s) && s.i < |b| && !(s.esm && s.cjs) && StepAt(b, s).Continue?
    ensures Reaches(b, st, StepAt(b, s).next)
    decreases |b| - st.i
  {
    if s != st {
      ReachesStep(b, StepAt(b, st).next, s);
    }
  }

  /** The loop ends the same way from every state it passes through. */
  lemma {:induction false} RunFromReached(b: seq<Byte>, st: State, s: State)
    requires Reaches(b, st, s)
    ensures Run(b, s) == Run(b, st)
    decreases |b| - st.i
  {
    if s != st {
      RunFromReached(b, StepAt(b, st).next, s);
    }
  }

  /** Completeness of the verdict: a pass the loop reaches that sets a flag decides the verdict for
      that flag, unless a later pass panics. With the contracts of StepAt, DetectEsm, DetectCjs and
      UseOfGlobal, every unshadowed keyword the cursor lands on outside skipped text counts. */
  lemma ReachedKeywordCounts(b: seq<Byte>, s: State)
    requires Reaches(b, Initial, s) && s.i < |b| && !(s.esm && s.cjs) && StepAt(b, s).Continue?
    ensures StepAt(b, s).next.esm && Guess(b).Classified? ==>
              Guess(b).syntax == ESM || Guess(b).syntax == Mixed
    ensures StepAt(b, s).next.cjs && Guess(b).Classified? ==>
              Guess(b).syntax == CJS || Guess(b).syntax == Mixed
  {
    ReachesStep(b, Initial, s);
    RunFromReached(b, Initial, StepAt(b, s).next);
  }

  /** guess_js_syntax (walk.rs:17-287): the verdict of the flags the loop ends with, or a panic. */
  function Guess(b: seq<Byte>): (r: Outcome)
    ensures r.Classified? && (r.syntax == ESM || r.syntax == Mixed) ==>
              exists k: nat :: k < |b| && (Utils.IsImportIdentifier(b, k) || Utils.IsExportIdentifier(b, k))
    ensures r.Classified? && (r.syntax == CJS || r.syntax == Mixed) ==>
              exists k: nat, g :: k < |b| && GlobalAt(b, k, g)
    ensures |b| == 0 ==> r == Classified(Unknown)
  {
    match Run(b, Initial)
    case Aborted => Panicked
    case Stopped(final) => Classified(Verdict(final.esm, final.cjs))
  }

  /** guess_js_syntax as the while loop of walk.rs:44-276 over an explicit state record. */
  method GuessJsSyntax(b: seq<Byte>) returns (r: Outcome)
    ensures r == Guess(b)
    ensures r.Classified? && r.syntax != Unknown ==> |b| > 0
  {
    var st := Initial;
    while st.i < |b| && !(st.esm && st.cjs)
      invariant st.i <= |b|
      invariant ShadowsInScope(st)
      invariant Run(b, st) == Run(b, Initial)
      decreases |b| - st.i
    {
      match StepAt(b, st)
      case Panic =>
        return Panicked;
      case Break =>
        break;
      case Continue(next) =>
        st := next;
    }
    return Classified(Verdict(st.esm, st.cjs));
  }
}
