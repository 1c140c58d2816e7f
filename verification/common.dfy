/** Failure-carrying results shared by every part of the network extension model.
    The Java code signals errors by throwing; the model returns them as values. */
module Common {

  datatype Option<+T> = None | Some(value: T)

  /** The causes the Java code throws for, grouped by what goes wrong. */
  datatype Error =
    | InvalidArgument      // IllegalArgumentException for an empty or malformed argument
    | InvalidName          // the table name fails the container's naming rules
    | TableExists          // a table with the requested name is already present
    | SchemaMismatch       // descriptions span several networks or both attributed types
    | ArityMismatch        // a value list is not as long as the description list
    | TypeMismatch         // a value disagrees with its description's data type
    | NotFound             // the looked-up edge or node row is absent
    | ConstraintViolation  // SQLException from a UNIQUE or PRIMARY KEY constraint
    | StoreError           // any other SQLException (missing table or column, collaborator failure)
    | PathNotFound         // a search exhausted its frontier without reaching the target

  datatype Result<+T> = Success(value: T) | Failure(error: Error) {

    predicate IsFailure() {
      Failure?
    }

    function PropagateFailure<U>(): Result<U>
      requires Failure?
    {
      Failure(error)
    }

    function Extract(): T
      requires Success?
    {
      value
    }
  }

  /** ASCII lower-casing: SQLite compares column identifiers ignoring ASCII case. */
  function LowerChar(c: char): char {
    if 'A' <= c <= 'Z' then (c as int + 32) as char else c
  }

  function Lower(s: string): (r: string)
    ensures |r| == |s|
    ensures forall i :: 0 <= i < |s| ==> r[i] == LowerChar(s[i])
  {
    seq(|s|, i requires 0 <= i < |s| => LowerChar(s[i]))
  }

  predicate IsLetter(c: char) {
    'a' <= c <= 'z' || 'A' <= c <= 'Z'
  }

  predicate IsDigit(c: char) {
    '0' <= c <= '9'
  }
}
