/** Result shapes of the Java code: a reference that may be null, and a call that
    either returns a value or throws one of the exceptions the modelled code raises. */
module Outcomes {

  /** A Java reference that may be `null`. */
  datatype Option<T> = None | Some(value: T)

  /** The exceptions the modelled Java code can throw. */
  datatype JavaException =
    | IllegalArgument        // SymbolTable.addLocal on an invalid type token
    | IndexOutOfBounds       // List.remove(int) past the end of the list
    | ConcurrentModification // an ArrayList iterator after its list was changed

  /** A Java call: it returns normally with a value, or it throws. */
  datatype Outcome<T> = Returned(value: T) | Threw(exception: JavaException)
}
