/** The error conditions the container and the audits raise. Each variant
    carries the token, index or list that locates the defect; the wording
    of the messages is not modelled. */
module Errors {
  import opened Types

  datatype Error =
    // registration (src/Dic/Dic.ts:40-43)
    | AbstractionHasNoName(abstraction: Token)
    | BadFactoryName(factory: Factory)
    | AbstractionAlreadyRegistered(abstraction: Token)
    | InconsistentNumberOfDependencies(factory: Factory)
    // resolution and every traversal
    | AbstractionNotRegistered(abstraction: Token)
    // validation
    | EntryPointsHaveDuplicate(duplicateValueIndex: nat, entryPoints: seq<Token>)
    | IgnoredHaveDuplicate(duplicateValueIndex: nat, ignored: seq<Token>)
    | EntryPointAndIgnoredOverlap(overlappingElement: Token)
    | IgnoredNotRegistered(abstraction: Token)
    /** `cycle` is the active path from the first occurrence of `root` on. */
    | GraphHasCycle(root: Token, cycle: seq<Token>)
    | AbstractionsAreNotUsed(dead: seq<Token>, entryPoints: seq<Token>)
    | TypesIsMissingAbstractions(missing: seq<Token>, entryPoints: seq<Token>)
    | TypesHasExtraAbstractions(extra: seq<Token>, entryPoints: seq<Token>)
    // printing
    | SymbolNotInTypes(symbol: Token)
    | TwigShorterThanStem

  /** A computation that either yields a value or raises an error. */
  datatype Result<T> = Ok(value: T) | Err(error: Error) {
    predicate IsFailure() {
      Err?
    }

    function PropagateFailure<U>(): Result<U>
      requires Err?
    {
      Err(error)
    }

    function Extract(): T
      requires Ok?
    {
      value
    }
  }

  /** A check that either passes or raises an error. */
  datatype Outcome = Pass | Fail(error: Error)
}
