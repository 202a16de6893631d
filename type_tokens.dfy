/** The type-token constants of ISymbolTable and the closed set of tokens a local
    variable may be bound to. */
module TypeTokens {

  const SHORT: string := "short"
  const SHORT_OBJECT: string := "Short"
  const INT: string := "int"
  const INT_OBJECT: string := "Integer"
  const BOOL: string := "boolean"
  const BOOL_OBJECT: string := "Boolean"
  const STRING_OBJECT: string := "String"
  const OBJECT: string := "Object"
  /** The "no type" sentinel. */
  const NO_TYPE: string := ""

  /** The eight tokens a local variable may be declared with, in declaration order. */
  const VALID_TYPES: seq<string> :=
    [SHORT, SHORT_OBJECT, INT, INT_OBJECT, BOOL, BOOL_OBJECT, STRING_OBJECT, OBJECT]

  /** SymbolTable.isValidType: the sentinel is refused first, then the token must be
      one of the eight constants (compared by value, not by reference). */
  predicate IsValidType(t: string)
    ensures IsValidType(t) <==> t in VALID_TYPES
  {
    if t == NO_TYPE then false
    else
      (|| t == SHORT || t == SHORT_OBJECT
       || t == INT || t == INT_OBJECT
       || t == BOOL || t == BOOL_OBJECT
       || t == STRING_OBJECT || t == OBJECT)
  }

  /** The valid tokens are exactly eight pairwise-distinct strings, the sentinel is
      not among them, and a token is valid exactly when it is one of them. */
  lemma ValidTypeTokens()
    ensures |VALID_TYPES| == 8
    ensures forall i, j :: 0 <= i < j < |VALID_TYPES| ==> VALID_TYPES[i] != VALID_TYPES[j]
    ensures NO_TYPE !in VALID_TYPES && !IsValidType(NO_TYPE)
    ensures forall t :: IsValidType(t) <==> t in VALID_TYPES
  {
  }
}
