/** The run-terminating errors of one instantiation. The Go program reports
    each of them through `fatalf`, which ends the run; here they are values. */
module Fatal {

  datatype Error =
    | MultipleDefinitions             // a second `template type` directive
    | NoDefinition                    // no `template type` directive at all
    | BadDirective                    // the directive text is not `Name(args...)`
    | NotIdentifier                   // a formal parameter that is not a bare name
    | WrongArity(expecting: nat, supplied: nat)
    | UnknownDecl                     // a declaration that is neither GenDecl nor FuncDecl
    | NoTemplateDeclaration(name: string)
    | SetFailure                      // reflect's Set panicked: the slot cannot hold the value
    | SliceBoundsPanic                // a slice expression out of range (a Go runtime panic)

  datatype Result<T> = Ok(value: T) | Err(error: Error) {
    predicate IsFailure() { Err? }

    function PropagateFailure<U>(): Result<U>
      requires Err?
    {
      Err(error)
    }

    function Extract(): T
      requires Ok?
    {
      value
    }
  }

  datatype Outcome = Pass | Fail(error: Error) {
    predicate IsFailure() { Fail? }

    function PropagateFailure(): Outcome
      requires Fail?
    {
      this
    }
  }
}
