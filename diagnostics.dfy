/**
 * The compiler's failures and the value-or-failure type every stage returns.
 * A run stops at the first failure (fail-fast); nothing is aggregated.
 */
module Diagnostics {
  import opened Strings

  datatype Option<+T> = None | Some(value: T)

  datatype Error =
    // syntax errors of the validator
    | UnexpectedBrace(line: int)
    | MissingOpeningBrace(line: int)
    | InvalidOpeningBrace(line: int)
    | MissingBracesAtEnd
    // reference errors of the two resolvers
    | MixinNotFound(line: int, name: string)
    | InvalidParentMixin(line: int, name: string)
    | VariableNotFound(line: int, name: string)
    // where the Go program has no error value: it crashes (a method called
    // on a nil node, a slice out of range), or keeps substituting forever
    | Panic
    | EndlessSubstitution(line: int)

  datatype Result<+T> = Success(value: T) | Failure(error: Error) {
    predicate IsFailure() { Failure? }

    function PropagateFailure<U>(): Result<U>
      requires Failure?
    {
      Failure(error)
    }

    function Extract(): T
      requires Success?
    {
      value
    }
  }

  /** The errors the Go program returns as `error` values (the other two
      stand for a crash and for a loop that does not end). */
  predicate Reported(e: Error) {
    !e.Panic? && !e.EndlessSubstitution?
  }

  /** The text the Go program formats for an error. */
  function Message(e: Error): (m: string)
    requires Reported(e)
    ensures e.MissingBracesAtEnd? <==> !HasPrefix(m, "Line ")
  {
    match e
    case UnexpectedBrace(n) => "Line " + IntToString(n) + ": Unexpected brace"
    case MissingOpeningBrace(n) => "Line " + IntToString(n) + ": Missing opening brace"
    case InvalidOpeningBrace(n) => "Line " + IntToString(n) + ": Invalid opening brace"
    case MissingBracesAtEnd =>
      var m := "Missing braces at end of file";
      assert m[0] == 'M';
      m
    case MixinNotFound(n, x) => "Line " + IntToString(n) + ": Mixin '" + x + "' not found"
    case InvalidParentMixin(n, x) => "Line " + IntToString(n) + ": Invalid parent mixin '" + x + "'"
    case VariableNotFound(n, x) => "Line " + IntToString(n) + ": Variable '" + x + "' not found"
  }
}
