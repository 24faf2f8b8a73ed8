/** The shapes of results shared by the scanners: optional values, one pass of a scan loop,
    position searches that can index out of bounds, and the four-valued verdict. */
module Steps {

  datatype Option<T> = None | Some(value: T)

  /** What one pass of a scan loop's body does: go round again with a new state (`continue`),
      leave the loop keeping the state it had (`break` on an unterminated construct),
      or index out of bounds (a Rust panic). */
  datatype Step<S> = Continue(next: S) | Break | Panic

  /** What a forward position search over the buffer found. IndexOutOfBounds is a search whose
      predicate read past the end of the buffer before finding anything. */
  datatype Search = Found(at: nat) | NotFound | IndexOutOfBounds

  /** A boolean test whose reads may run past the end of the buffer. */
  datatype Checked<T> = Value(value: T) | OutOfRange

  /** How a whole scan ended: its loop exited with a final state, or it panicked. */
  datatype Ending<S> = Stopped(final: S) | Aborted

  /** The module convention of a JavaScript source text. */
  datatype JsSyntax = ESM | CJS | Mixed | Unknown

  /** The result of classifying a source text: a verdict, or a Rust panic. */
  datatype Outcome = Classified(syntax: JsSyntax) | Panicked

  /** The verdict both scanners compute from their two flags once their loop exits
      (walk.rs:278-286, lib.rs:233-241). */
  function Verdict(esm: bool, cjs: bool): (r: JsSyntax)
    ensures r == Mixed <==> esm && cjs
    ensures r == ESM <==> esm && !cjs
    ensures r == CJS <==> !esm && cjs
    ensures r == Unknown <==> !esm && !cjs
  {
    if esm && cjs then Mixed
    else if esm then ESM
    else if cjs then CJS
    else Unknown
  }
}
