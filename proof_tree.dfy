/** The obligation tree the visitor builds (JUnit's DynamicContainer / DynamicTest in
    the source) and the two list operations that shape it. */
module ProofTrees {

  /** A `Leaf` is one check, with the outcome it asserts; a `Container` groups the
      obligations of one construct. */
  datatype ProofNode =
    | Leaf(displayName: string, holds: bool)
    | Container(displayName: string, children: seq<ProofNode>)

  /** generateNoObligation: the trivially passing leaf. */
  const NO_OBLIGATION: ProofNode := Leaf("E |- true", true)

  /** The display name of a construct's judgment. */
  function Judgment(text: string): string {
    "E |- " + text
  }

  /** Every container, at every depth, has at least one child. */
  predicate WellFormed(n: ProofNode) {
    match n
    case Leaf(_, _) => true
    case Container(_, cs) => |cs| > 0 && forall i :: 0 <= i < |cs| ==> WellFormed(cs[i])
  }

  predicate AllWellFormed(ns: seq<ProofNode>) {
    forall i :: 0 <= i < |ns| ==> WellFormed(ns[i])
  }

  /** Every list on a proof stack holds only well-formed nodes. */
  predicate StackWellFormed(stack: seq<seq<ProofNode>>) {
    forall i :: 0 <= i < |stack| ==> AllWellFormed(stack[i])
  }

  /** addNoObligationIfEmpty: a non-empty list is left alone, an empty one receives
      exactly the trivially passing leaf. */
  function PadIfEmpty(proofs: seq<ProofNode>): (r: seq<ProofNode>)
    ensures |r| >= 1
    ensures |proofs| > 0 ==> r == proofs
    ensures |proofs| == 0 ==> r == [NO_OBLIGATION]
    ensures AllWellFormed(proofs) ==> AllWellFormed(r)
  {
    if |proofs| > 0 then proofs else [NO_OBLIGATION]
  }

  function Top<T>(stack: seq<T>): T
    requires |stack| >= 1
  {
    stack[|stack| - 1]
  }

  /** createProofAndAddToObligations on a stack whose top is its last element: the top
      list is popped, padded, wrapped in a container with the given name, and that
      container is appended to the new top list. */
  function CloseObligation(stack: seq<seq<ProofNode>>, displayName: string): (r: seq<seq<ProofNode>>)
    requires |stack| >= 2
    ensures |r| == |stack| - 1
    ensures r[..|r| - 1] == stack[..|stack| - 2]
    ensures |Top(r)| == |stack[|stack| - 2]| + 1 && Top(r)[..|Top(r)| - 1] == stack[|stack| - 2]
    ensures Top(r)[|Top(r)| - 1] == Container(displayName, PadIfEmpty(Top(stack)))
    ensures |Top(r)[|Top(r)| - 1].children| >= 1
    ensures StackWellFormed(stack) ==> StackWellFormed(r)
  {
    var proofs := PadIfEmpty(Top(stack));
    stack[..|stack| - 2] + [stack[|stack| - 2] + [Container(displayName, proofs)]]
  }

  /** Closing on a stack written out as the lists below, the list under the top, and the
      top: the top is gone and the list under it gains the container. */
  lemma CloseOnto(below: seq<seq<ProofNode>>, under: seq<ProofNode>, top: seq<ProofNode>,
                  displayName: string)
    ensures CloseObligation(below + [under, top], displayName)
              == below + [under + [Container(displayName, PadIfEmpty(top))]]
  {
    var stack := below + [under, top];
    assert stack[..|stack| - 2] == below;
  }

  /** A construct that produced no obligation closes to a container holding exactly one
      leaf, the trivially passing one. */
  lemma EmptyConstructClosesToTrivialLeaf(stack: seq<seq<ProofNode>>, displayName: string)
    requires |stack| >= 1
    ensures Top(CloseObligation(stack + [[]], displayName)) ==
              Top(stack) + [Container(displayName, [NO_OBLIGATION])]
  {
  }
}
