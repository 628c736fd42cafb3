/** Shared result types and the error kinds that the system raises.

    The variants of `Error` are the exceptions declared by the package
    (input parser, query parser and network errors) together with the four
    built-in Python exceptions that the modelled code can raise. */
module Common {

  datatype Option<T> = None | Some(value: T)

  /** One error per exception class; the payload is the name or key the
      source puts into the exception message. */
  datatype Error =
    // input parser
    | IncompleteNodeData(node: string, field: string)
    | HaveAtLeastOneRandomVariable(node: string)
    | PredecessorNotExistInNetwork(predecessor: string)
    | NotAllExpectedProbabilityExist(node: string, key: string)
    // query parser
    | NonUniqueRandomVariablesInQuery
    | RandomVariableNotInContext(variable: string)
    // network
    | InvalidQuery
    | InvalidProbabilityFactor(factor: string)
    // built-in exceptions: a missing dictionary key, a division by zero,
    // a method call on an object that lacks it, and a dictionary that
    // changed size while it was being iterated
    | KeyError(key: string)
    | ZeroDivisionError
    | AttributeError
    | RuntimeError

  datatype Result<T> = Ok(value: T) | Err(error: Error)
}
