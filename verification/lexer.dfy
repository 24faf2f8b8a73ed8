/** The skipping half of both scanners: forward position searches over the buffer and the jumps
    over comments, quoted strings, template text and regex flags. The block-comment and
    quoted-string jumps are the same code in src/walk.rs and src/lib.rs and are defined once here. */
module Lexer {
  import opened Ascii
  import opened Steps
  import Utils

  /** The first index k in [from, n) satisfying p: Iterator::position over a suffix of the buffer,
      reported as an absolute index. */
  function FirstIndex(n: nat, from: nat, p: nat -> bool): (r: Option<nat>)
    ensures r.Some? ==> from <= r.value < n && p(r.value)
    ensures r.Some? ==> forall k :: from <= k < r.value ==> !p(k)
    ensures r.None? ==> forall k :: from <= k < n ==> !p(k)
    decreases n - from
  {
    if from >= n then None
    else if p(from) then Some(from)
    else FirstIndex(n, from + 1, p)
  }

  // ---------------------------------------------------------------------------------------------
  // Line comments (walk.rs flavour; lib.rs has its own)

  predicate IsLineTerminator(c: Byte) {
    c == '\n' || c == '\r'
  }

  /** t is the first line feed or carriage return after the `//` opening at i. */
  ghost predicate LineCommentTerminator(b: seq<Byte>, i: nat, t: nat) {
    && i + 2 <= t < |b|
    && IsLineTerminator(b[t])
    && forall k :: i + 2 <= k < t ==> !IsLineTerminator(b[k])
  }

  /** The `//` jump of walk.rs:48-61 for a comment opening at i: to one past the first line
      terminator, or one further when that terminator is not the first comment byte and a line
      feed follows it. Reading that following byte panics when the terminator is the last byte. */
  function LineCommentEnd(b: seq<Byte>, i: nat): (r: Step<nat>)
    requires i + 1 < |b| && b[i] == '/' && b[i + 1] == '/'
    ensures r.Break? <==> forall k :: i + 2 <= k < |b| ==> !IsLineTerminator(b[k])
    ensures r.Panic? <==> exists t: nat :: LineCommentTerminator(b, i, t) && i + 2 < t && t + 1 == |b|
    ensures r.Continue? ==>
              exists t: nat :: && LineCommentTerminator(b, i, t)
                          && r.next == if i + 2 < t && t + 1 < |b| && b[t + 1] == '\n' then t + 2
                                       else t + 1
  {
    var p := (k: nat) => k < |b| && IsLineTerminator(b[k]);
    assert forall k: nat :: k < |b| ==> (p(k) <==> IsLineTerminator(b[k]));
    match FirstIndex(|b|, i + 2, p)
    case None => Break
    case Some(t) =>
      assert LineCommentTerminator(b, i, t);
      var pos := t - (i + 2);
      if pos > 0 && t + 1 >= |b| then Panic
      else if pos > 0 && b[t + 1] == '\n' then Continue(t + 2)
      else Continue(t + 1)
  }

  // ---------------------------------------------------------------------------------------------
  // Block comments and quoted strings (identical in walk.rs and lib.rs)

  /** The byte at k is a '/' right after a '*'. */
  predicate ClosesBlockComment(b: seq<Byte>, k: nat) {
    1 <= k < |b| && b[k] == '/' && b[k - 1] == '*'
  }

  /** The block-comment jump of walk.rs:64-75 and lib.rs:38-49 for a comment opening at i: to one past the
      first '/' preceded by '*', searching from i + 3 so that the opening star cannot close it.
      Slicing from i + 3 panics when the buffer ends right after the opening. */
  function BlockCommentEnd(b: seq<Byte>, i: nat): (r: Step<nat>)
    requires i + 1 < |b| && b[i] == '/' && b[i + 1] == '*'
    ensures r.Panic? <==> i + 2 == |b|
    ensures r.Break? <==> i + 2 < |b| && forall k :: i + 3 <= k < |b| ==> !ClosesBlockComment(b, k)
    ensures r.Continue? ==> && i + 4 <= r.next <= |b|
                            && ClosesBlockComment(b, r.next - 1)
                            && forall k :: i + 3 <= k < r.next - 1 ==> !ClosesBlockComment(b, k)
  {
    if i + 3 > |b| then Panic
    else
      var p := (k: nat) => ClosesBlockComment(b, k);
      assert forall k: nat :: p(k) <==> ClosesBlockComment(b, k);
      match FirstIndex(|b|, i + 3, p)
      case None => Break
      case Some(k) => Continue(k + 1)
  }

  /** The byte at k is the quote q and is not escaped. */
  predicate ClosesQuote(b: seq<Byte>, k: nat, q: Byte) {
    1 <= k < |b| && b[k] == q && !Utils.IsBackslashEscaped(b, k)
  }

  /** The quote jump of walk.rs:78-92 and lib.rs:52-65 for a string opening at i: to one past the
      first unescaped quote of the same kind. Nothing inside is looked at. */
  function QuotedEnd(b: seq<Byte>, i: nat): (r: Step<nat>)
    requires i < |b| && (b[i] == '\'' || b[i] == '"')
    ensures !r.Panic?
    ensures r.Break? <==> forall k :: i < k < |b| ==> !ClosesQuote(b, k, b[i])
    ensures r.Continue? ==> && i + 2 <= r.next <= |b|
                            && ClosesQuote(b, r.next - 1, b[i])
                            && forall k :: i < k < r.next - 1 ==> !ClosesQuote(b, k, b[i])
  {
    var q := b[i];
    var p := (k: nat) => ClosesQuote(b, k, q);
    assert forall k: nat :: p(k) <==> ClosesQuote(b, k, q);
    match FirstIndex(|b|, i + 1, p)
    case None => Break
    case Some(k) => Continue(k + 1)
  }

  // ---------------------------------------------------------------------------------------------
  // Template text

  /** Where the scan of template text stops: an unescaped `${`, or an unescaped delim. */
  predicate IsTemplateStop(b: seq<Byte>, k: nat, delim: Byte) {
    && 1 <= k < |b|
    && ((b[k] == '$' && k + 1 < |b| && b[k + 1] == '{') || b[k] == delim)
    && !Utils.IsBackslashEscaped(b, k)
  }

  /** The search over template text of walk.rs:97-110 (delim is the backtick) and lib.rs:77-105
      (delim is the byte that started the scan). Each '$' is tested against the byte after it
      before anything else, so a '$' at the very end of the buffer panics once reached. */
  function TemplateStop(b: seq<Byte>, from: nat, delim: Byte): (r: Search)
    requires 1 <= from && delim != '$'
    ensures r.Found? ==> && from <= r.at < |b|
                         && IsTemplateStop(b, r.at, delim)
                         && forall k :: from <= k < r.at ==> !IsTemplateStop(b, k, delim)
    ensures r.Found? && b[r.at] == '$' ==> r.at + 1 < |b| && b[r.at + 1] == '{'
    ensures r.IndexOutOfBounds? <==>
              && from < |b| && b[|b| - 1] == '$'
              && forall k :: from <= k < |b| - 1 ==> !IsTemplateStop(b, k, delim)
    ensures r.NotFound? ==> forall k :: from <= k < |b| ==> !IsTemplateStop(b, k, delim)
    decreases |b| - from
  {
    if from >= |b| then NotFound
    else if b[from] == '$' && from + 1 == |b| then IndexOutOfBounds
    else if IsTemplateStop(b, from, delim) then Found(from)
    else TemplateStop(b, from + 1, delim)
  }

  // ---------------------------------------------------------------------------------------------
  // Regex flags and import clauses

  /** The search for the end of a regex's flags (walk.rs:165-171, lib.rs:121-127): the first byte
      at or after from that is not an ASCII letter. */
  function RegexFlagsEnd(b: seq<Byte>, from: nat): (r: Option<nat>)
    ensures r.Some? ==> && from <= r.value < |b|
                        && !IsAsciiAlphabetic(b[r.value])
                        && forall k :: from <= k < r.value ==> IsAsciiAlphabetic(b[k])
    ensures r.None? ==> forall k :: from <= k < |b| ==> IsAsciiAlphabetic(b[k])
  {
    var p := (k: nat) => k < |b| && !IsAsciiAlphabetic(b[k]);
    assert forall k: nat :: k < |b| ==> (p(k) <==> !IsAsciiAlphabetic(b[k]));
    FirstIndex(|b|, from, p)
  }

  /** The scan after an `import` keyword (walk.rs:192-200, lib.rs:145-153): it is a static import
      when one of the trigger bytes comes before any '(' (a '(' first means a dynamic import()). */
  function ImportLooksStatic(b: seq<Byte>, from: nat, triggers: set<Byte>): (r: bool)
    requires '(' !in triggers
    ensures r <==> exists k: nat :: && from <= k < |b|
                               && b[k] in triggers
                               && forall j :: from <= j < k ==> b[j] !in triggers && b[j] != '('
  {
    var p := (k: nat) => k < |b| && (b[k] in triggers || b[k] == '(');
    assert forall k: nat :: k < |b| ==> (p(k) <==> b[k] in triggers || b[k] == '(');
    match FirstIndex(|b|, from, p)
    case None => false
    case Some(k) => b[k] in triggers
  }
}
