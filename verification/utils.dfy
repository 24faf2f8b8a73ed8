/** The stateless helpers of src/utils.rs: clamped and saturating reads, backslash-escape parity,
    word boundaries, nearest non-whitespace searches, the keyword matchers, and the declaration,
    parameter and regex-keyword tests the walker consults. */
module Utils {
  import opened Ascii
  import opened Steps

  /** si (utils.rs:2-4): the index actually read for a requested index i. It is i itself while i is
      in bounds and the last index of the buffer beyond that. */
  function Si(i: nat, b: seq<Byte>): (r: nat)
    requires |b| > 0
    ensures r < |b|
    ensures i < |b| ==> r == i
    ensures i >= |b| ==> r == |b| - 1
  {
    if i < |b| - 1 then i else |b| - 1
  }

  /** usize::saturating_sub */
  function SatSub(a: nat, k: nat): nat {
    if a >= k then a - k else 0
  }

  // ---------------------------------------------------------------------------------------------
  // Backslash escapes

  /** Where the backward walk of is_backslash_escaped stops when it starts at p: the first index at
      or below p that is not a backslash, or 0 when the run of backslashes reaches the start. */
  function BackslashRunStart(b: seq<Byte>, p: nat): (r: nat)
    requires p < |b|
    ensures r <= p
    ensures r == 0 || b[r] != '\\'
    ensures forall j :: r < j <= p ==> b[j] == '\\'
    decreases p
  {
    if b[p] == '\\' && p > 0 then BackslashRunStart(b, p - 1) else p
  }

  /** n is the length of the run of backslashes that ends just before index k. */
  ghost predicate BackslashRunBefore(b: seq<Byte>, k: nat, n: nat)
    requires k <= |b|
  {
    && n <= k
    && (forall j :: k - n <= j < k ==> b[j] == '\\')
    && (n < k ==> b[k - n - 1] != '\\')
  }

  /** is_backslash_escaped (utils.rs:8-19; lib.rs:246-257 is a byte-for-byte copy): whether the
      byte at k is escaped. With a non-backslash byte before the run of backslashes this is the
      run's odd length; when the run reaches the buffer start the count the source computes is
      one too large, so the parity is flipped. */
  function IsBackslashEscaped(b: seq<Byte>, k: nat): (r: bool)
    requires 0 < k <= |b|
    ensures exists n: nat :: BackslashRunBefore(b, k, n)
    ensures forall n: nat :: BackslashRunBefore(b, k, n) ==>
              (r <==> if n < k then n % 2 == 1 else n % 2 == 0)
  {
    var start := BackslashRunStart(b, k - 1);
    var n: nat := if start == 0 && b[0] == '\\' then k else k - 1 - start;
    assert BackslashRunBefore(b, k, n);
    RunStartBoundsEveryRun(b, k);
    (k - start + 1) % 2 == 1
  }

  /** The backward walk stops exactly at the byte before the run, or at 0 when the run reaches
      the buffer start. */
  lemma RunStartBoundsEveryRun(b: seq<Byte>, k: nat)
    requires 0 < k <= |b|
    ensures forall n: nat :: BackslashRunBefore(b, k, n) ==>
              if n < k then BackslashRunStart(b, k - 1) == k - 1 - n
              else BackslashRunStart(b, k - 1) == 0
  {
    var start := BackslashRunStart(b, k - 1);
    forall n: nat | BackslashRunBefore(b, k, n)
      ensures if n < k then start == k - 1 - n else start == 0
    {
      if n < k {
        assert b[k - 1 - n] != '\\';
      }
    }
  }

  // ---------------------------------------------------------------------------------------------
  // Word boundaries and whitespace

  /** is_word_bounded (utils.rs:23-33): the span [s, e) is not glued to an ASCII letter or digit on
      either side; the buffer edges count as boundaries. */
  predicate IsWordBounded(b: seq<Byte>, s: nat, e: nat)
    requires s <= |b|
  {
    && (s == 0 || !IsAsciiAlphanumeric(b[s - 1]))
    && (e >= |b| || !IsAsciiAlphanumeric(b[e]))
  }

  /** Every byte of [s, e) is an ASCII letter or digit. */
  predicate AllAlphanumeric(b: seq<Byte>, s: nat, e: nat)
    requires e <= |b|
  {
    forall k :: s <= k < e ==> IsAsciiAlphanumeric(b[k])
  }

  /** For a span of letters and digits, is_word_bounded holds exactly when no longer run of
      letters and digits contains it: the span is a whole word, as with \b in a regex. */
  lemma WordBoundedIsWholeWord(b: seq<Byte>, s: nat, e: nat)
    requires s < e <= |b| && AllAlphanumeric(b, s, e)
    ensures IsWordBounded(b, s, e) <==>
              forall s': nat, e': nat :: s' <= s && e <= e' <= |b| && AllAlphanumeric(b, s', e') ==>
                s' == s && e' == e
  {
    if !IsWordBounded(b, s, e) {
      if s > 0 && IsAsciiAlphanumeric(b[s - 1]) {
        assert AllAlphanumeric(b, s - 1, e);
      } else {
        assert AllAlphanumeric(b, s, e + 1);
      }
    }
  }

  /** The loop of get_nearest_non_whitespace_index_left, from index j downwards. */
  function WalkLeft(b: seq<Byte>, j: nat): (r: nat)
    requires j < |b|
    ensures r <= j
    ensures r == 0 || !IsAsciiWhitespace(b[r])
    ensures forall k :: r < k <= j ==> IsAsciiWhitespace(b[k])
    decreases j
  {
    if !IsAsciiWhitespace(b[j]) || j == 0 then j else WalkLeft(b, j - 1)
  }

  /** get_nearest_non_whitespace_index_left (utils.rs:37-49): the nearest index left of c whose byte
      is not whitespace, or 0 when there is none. */
  function NearestNonWhitespaceLeft(b: seq<Byte>, c: nat): (r: nat)
    requires c <= |b|
    ensures c == 0 ==> r == 0
    ensures c > 0 ==> r < c
    ensures c > 0 ==> r == 0 || !IsAsciiWhitespace(b[r])
    ensures forall k :: r < k < c ==> IsAsciiWhitespace(b[k])
  {
    if c == 0 then 0 else WalkLeft(b, c - 1)
  }

  /** The loop of get_nearest_non_whitespace_index_right, from index j upwards. */
  function WalkRight(b: seq<Byte>, j: nat): (r: nat)
    requires j < |b|
    ensures j <= r < |b|
    ensures r == |b| - 1 || !IsAsciiWhitespace(b[r])
    ensures forall k :: j <= k < r ==> IsAsciiWhitespace(b[k])
    decreases |b| - j
  {
    if !IsAsciiWhitespace(b[j]) then j
    else if j < |b| - 1 then WalkRight(b, j + 1)
    else j
  }

  /** get_nearest_non_whitespace_index_right (utils.rs:53-69): the nearest index at or right of c
      whose byte is not whitespace, or the last index when there is none or c is past it. */
  function NearestNonWhitespaceRight(b: seq<Byte>, c: nat): (r: nat)
    requires 0 < |b|
    ensures r < |b|
    ensures c >= |b| - 1 ==> r == |b| - 1
    ensures c < |b| - 1 ==> c <= r
    ensures r == |b| - 1 || !IsAsciiWhitespace(b[r])
    ensures forall k :: c <= k < r ==> IsAsciiWhitespace(b[k])
  {
    if c >= |b| - 1 then |b| - 1 else WalkRight(b, c)
  }

  // ---------------------------------------------------------------------------------------------
  // Keyword matchers

  /** The reads of an is_*_identifier matcher: byte k of kw against the byte at Si(i + k). */
  predicate ClampedMatch(b: seq<Byte>, i: nat, kw: seq<Byte>)
    requires |b| > 0
  {
    forall k :: 0 <= k < |kw| ==> b[Si(i + k, b)] == kw[k]
  }

  /** Clamping cannot fake a match of a keyword without two equal adjacent bytes: past the end,
      two consecutive reads land on the same last byte and would have to equal two different
      keyword bytes. */
  lemma {:induction false} ClampedMatchIsExact(b: seq<Byte>, i: nat, kw: seq<Byte>)
    requires i < |b|
    requires NoAdjacentRepeat(kw)
    ensures ClampedMatch(b, i, kw) <==> MatchesAt(b, i, kw)
  {
    if i + |kw| > |b| {
      ClampedReadsCollide(b, i, kw);
    } else {
      forall k | 0 <= k < |kw|
        ensures b[Si(i + k, b)] == kw[k] <==> b[i + k] == kw[k]
      {
      }
    }
  }

  /** Past the end of the buffer the reads for bytes m and m + 1 of kw both land on the last byte,
      so a keyword without equal adjacent bytes is not matched there. */
  lemma ClampedReadsCollide(b: seq<Byte>, i: nat, kw: seq<Byte>)
    requires i < |b| < i + |kw|
    requires NoAdjacentRepeat(kw)
    ensures !ClampedMatch(b, i, kw)
  {
    var m := |b| - 1 - i;
    assert Si(i + m, b) == Si(i + m + 1, b);
    assert kw[m] != kw[m + 1];
  }

  /** is_import_identifier (utils.rs:71-79) */
  function IsImportIdentifier(b: seq<Byte>, i: nat): (r: bool)
    requires i < |b|
    ensures r <==> MatchesAt(b, i, "import") && IsWordBounded(b, i, i + 6)
    ensures r ==> b[i] == 'i'
  {
    ClampedMatchIsExact(b, i, "import");
    assert MatchesAt(b, i, "import") ==> b[i + 0] == "import"[0];
    ClampedMatch(b, i, "import") && IsWordBounded(b, i, i + 6)
  }

  /** is_meta_identifier (utils.rs:81-87) */
  function IsMetaIdentifier(b: seq<Byte>, i: nat): (r: bool)
    requires i < |b|
    ensures r <==> MatchesAt(b, i, "meta") && IsWordBounded(b, i, i + 4)
    ensures r ==> b[i] == 'm'
  {
    ClampedMatchIsExact(b, i, "meta");
    assert MatchesAt(b, i, "meta") ==> b[i + 0] == "meta"[0];
    ClampedMatch(b, i, "meta") && IsWordBounded(b, i, i + 4)
  }

  /** is_export_identifier (utils.rs:89-97) */
  function IsExportIdentifier(b: seq<Byte>, i: nat): (r: bool)
    requires i < |b|
    ensures r <==> MatchesAt(b, i, "export") && IsWordBounded(b, i, i + 6)
    ensures r ==> b[i] == 'e'
  {
    ClampedMatchIsExact(b, i, "export");
    assert MatchesAt(b, i, "export") ==> b[i + 0] == "export"[0];
    ClampedMatch(b, i, "export") && IsWordBounded(b, i, i + 6)
  }

  /** is_require_identifier (utils.rs:99-108) */
  function IsRequireIdentifier(b: seq<Byte>, i: nat): (r: bool)
    requires i < |b|
    ensures r <==> MatchesAt(b, i, "require") && IsWordBounded(b, i, i + 7)
    ensures r ==> b[i] == 'r'
  {
    ClampedMatchIsExact(b, i, "require");
    assert MatchesAt(b, i, "require") ==> b[i + 0] == "require"[0];
    ClampedMatch(b, i, "require") && IsWordBounded(b, i, i + 7)
  }

  /** is_module_identifier (utils.rs:110-118) */
  function IsModuleIdentifier(b: seq<Byte>, i: nat): (r: bool)
    requires i < |b|
    ensures r <==> MatchesAt(b, i, "module") && IsWordBounded(b, i, i + 6)
    ensures r ==> b[i] == 'm'
  {
    ClampedMatchIsExact(b, i, "module");
    assert MatchesAt(b, i, "module") ==> b[i + 0] == "module"[0];
    ClampedMatch(b, i, "module") && IsWordBounded(b, i, i + 6)
  }

  /** is_exports_identifier (utils.rs:120-129) */
  function IsExportsIdentifier(b: seq<Byte>, i: nat): (r: bool)
    requires i < |b|
    ensures r <==> MatchesAt(b, i, "exports") && IsWordBounded(b, i, i + 7)
    ensures r ==> b[i] == 'e'
  {
    ClampedMatchIsExact(b, i, "exports");
    assert MatchesAt(b, i, "exports") ==> b[i + 0] == "exports"[0];
    ClampedMatch(b, i, "exports") && IsWordBounded(b, i, i + 7)
  }

  /** A word-bounded `export` and a word-bounded `exports` never start at the same index: the byte
      after `export` would have to be both a boundary and the letter s. */
  lemma ExportExcludesExports(b: seq<Byte>, i: nat)
    requires i < |b|
    ensures !(IsExportIdentifier(b, i) && IsExportsIdentifier(b, i))
  {
    if IsExportsIdentifier(b, i) {
      assert b[i + 6] == "exports"[6];
    }
  }

  /** The import.meta branch of walk.rs:187 tests b[i + 1] == '.', but wherever
      is_import_identifier holds that byte is the 'm' of `import`. */
  lemma ImportMetaBranchUnreachable(b: seq<Byte>, i: nat)
    requires i < |b|
    requires IsImportIdentifier(b, i)
    ensures i + 1 < |b| && b[i + 1] != '.'
  {
    assert b[i + 1] == "import"[1];
  }

  // ---------------------------------------------------------------------------------------------
  // Declarations, parameters and regex-preceding keywords

  /** The backward reads of is_var_declaration and is_slash_preceded_by_regex_possible_keyword:
      the last byte of kw against the byte at p, the one before it against p saturating-minus 1,
      and so on. */
  predicate ClampedMatchBack(b: seq<Byte>, p: nat, kw: seq<Byte>)
    requires p < |b|
  {
    forall k :: 0 <= k < |kw| ==> b[SatSub(p, k)] == kw[|kw| - 1 - k]
  }

  /** Saturating backward reads cannot fake a keyword without two equal adjacent bytes either. */
  lemma {:induction false} ClampedMatchBackIsExact(b: seq<Byte>, p: nat, kw: seq<Byte>)
    requires p < |b|
    requires NoAdjacentRepeat(kw)
    ensures ClampedMatchBack(b, p, kw) <==> EndsAt(b, p, kw)
  {
    if p + 1 < |kw| {
      SaturatedReadsCollide(b, p, kw);
    } else if ClampedMatchBack(b, p, kw) {
      forall j | 0 <= j < |kw|
        ensures b[p + 1 - |kw| + j] == kw[j]
      {
        var k := |kw| - 1 - j;
        assert SatSub(p, k) == p + 1 - |kw| + j;
        assert b[SatSub(p, k)] == kw[|kw| - 1 - k];
      }
    }
    if EndsAt(b, p, kw) {
      forall k | 0 <= k < |kw|
        ensures b[SatSub(p, k)] == kw[|kw| - 1 - k]
      {
        var j := |kw| - 1 - k;
        assert SatSub(p, k) == p + 1 - |kw| + j;
        assert b[p + 1 - |kw| + j] == kw[j];
      }
    }
  }

  /** Below the buffer start the reads for the first two bytes of kw both land on index 0. */
  lemma SaturatedReadsCollide(b: seq<Byte>, p: nat, kw: seq<Byte>)
    requires p < |b| && p + 1 < |kw|
    requires NoAdjacentRepeat(kw)
    ensures !ClampedMatchBack(b, p, kw)
  {
    assert SatSub(p, p) == SatSub(p, p + 1) == 0;
    assert kw[|kw| - 1 - (p + 1)] != kw[|kw| - 1 - p];
  }

  /** The nearest significant byte before a declared name ends a word-bounded var, let or const. */
  predicate DeclarationKeywordEndsAt(b: seq<Byte>, p: nat)
    requires p < |b|
  {
    || (EndsAt(b, p, "var") && IsWordBounded(b, p - 2, p + 1))
    || (EndsAt(b, p, "let") && IsWordBounded(b, p - 2, p + 1))
    || (EndsAt(b, p, "const") && IsWordBounded(b, p - 4, p + 1))
  }

  /** is_var_declaration (utils.rs:132-178): whether the identifier starting at s is declared by
      var, let or const. The source's unchecked p - 2 and p - 4 are natural-number subtractions
      here, so the verifier has checked they never underflow. */
  function IsVarDeclaration(b: seq<Byte>, s: nat): (r: bool)
    requires 0 < |b| && s <= |b|
    ensures r <==> DeclarationKeywordEndsAt(b, NearestNonWhitespaceLeft(b, s))
  {
    var p := NearestNonWhitespaceLeft(b, s);
    ClampedMatchBackIsExact(b, p, "var");
    ClampedMatchBackIsExact(b, p, "let");
    ClampedMatchBackIsExact(b, p, "const");
    || (ClampedMatchBack(b, p, "var") && IsWordBounded(b, p - 2, p + 1))
    || (ClampedMatchBack(b, p, "let") && IsWordBounded(b, p - 2, p + 1))
    || (ClampedMatchBack(b, p, "const") && IsWordBounded(b, p - 4, p + 1))
  }

  /** is_function_param_declaration (utils.rs:181-213): whether the identifier spanning [s, e) looks
      like a parameter name. The reads of the byte after a trailing '=' is not guarded in the
      source and panics when '=' is the last byte of the buffer. */
  function IsFunctionParamDeclaration(b: seq<Byte>, s: nat, e: nat): (r: Checked<bool>)
    requires 0 < |b| && s <= |b|
    ensures var prev := b[NearestNonWhitespaceLeft(b, s)];
            var next := NearestNonWhitespaceRight(b, e);
            && (r == Value(true) <==>
                  prev != '=' &&
                  (|| prev == '(' || prev == ','
                   || b[next] == ')' || b[next] == ','
                   || (b[next] == '=' && next + 1 < |b| && b[next + 1] == '>')))
            && (r == OutOfRange <==>
                  prev != '=' && prev != '(' && prev != ',' &&
                  b[next] == '=' && next == |b| - 1)
  {
    var prev := NearestNonWhitespaceLeft(b, s);
    var next := NearestNonWhitespaceRight(b, e);
    if b[prev] == '=' then Value(false)
    else if b[prev] == '(' || b[prev] == ',' then Value(true)
    else if b[next] == ')' || b[next] == ',' then Value(true)
    else if b[next] == '=' then
      if next + 1 < |b| then Value(b[next + 1] == '>') else OutOfRange
    else Value(false)
  }

  /** The last clause of is_slash_preceded_by_regex_possible_keyword (utils.rs:245-252), meant for
      `yield`: it compares the byte at c - 3 with both 'i' and 'y'. */
  predicate YieldClause(b: seq<Byte>, c: nat)
    requires c < |b|
  {
    && b[c] == 'd'
    && b[SatSub(c, 1)] == 'l'
    && b[SatSub(c, 2)] == 'e'
    && b[SatSub(c, 3)] == 'i'
    && b[SatSub(c, 3)] == 'y'
  }

  /** is_slash_preceded_by_regex_possible_keyword (utils.rs:217-254): whether the bytes ending at c
      spell if, else, return or while. The reads saturate at the buffer start and no word
      boundary is tested; the yield clause contributes nothing. */
  function IsSlashPrecededByRegexPossibleKeyword(b: seq<Byte>, c: nat): (r: bool)
    requires c < |b|
    ensures r <==> EndsAt(b, c, "if") || EndsAt(b, c, "else") || EndsAt(b, c, "return")
                   || EndsAt(b, c, "while")
  {
    ClampedMatchBackIsExact(b, c, "if");
    ClampedMatchBackIsExact(b, c, "else");
    ClampedMatchBackIsExact(b, c, "return");
    ClampedMatchBackIsExact(b, c, "while");
    || ClampedMatchBack(b, c, "if")
    || ClampedMatchBack(b, c, "else")
    || ClampedMatchBack(b, c, "return")
    || ClampedMatchBack(b, c, "while")
    || YieldClause(b, c)
  }

  /** A slash after `yield` is not taken as a regex start on the strength of the keyword. */
  lemma YieldIsNotRecognised(b: seq<Byte>, c: nat)
    requires c < |b|
    requires EndsAt(b, c, "yield")
    ensures !IsSlashPrecededByRegexPossibleKeyword(b, c)
  {
    assert b[c] == "yield"[4];
    EndsAtLastByte(b, c, "if");
    EndsAtLastByte(b, c, "else");
    EndsAtLastByte(b, c, "return");
    EndsAtLastByte(b, c, "while");
  }

  /** A keyword ending at p has its last byte at p. */
  lemma EndsAtLastByte(b: seq<Byte>, p: nat, kw: seq<Byte>)
    requires 0 < |kw|
    ensures EndsAt(b, p, kw) ==> b[p] == kw[|kw| - 1]
  {
    if EndsAt(b, p, kw) {
      assert b[p + 1 - |kw| + (|kw| - 1)] == kw[|kw| - 1];
    }
  }
}
