/** TypeCheckerVisitor.java: the proof-obligation builder. It keeps a stack of
    obligation lists, a stack of block name frames, a stack of enclosing class names
    and the current method name, and binds declared locals in the symbol table. The
    stacks hold their top as their last element. */
module TypeChecking {
  import opened Outcomes
  import opened Environments
  import opened ProofTrees
  import SymbolTables
  import TypeTokens

  // ----- The part of the syntax tree the visitor reacts to -----

  /** A class declaration: its identifier, its source text and its members. */
  datatype TypeDecl = TypeDecl(name: string, text: string, members: seq<Member>)

  datatype Member =
    | FieldDeclaration(typeText: string, fragments: seq<string>)
    | MethodDeclaration(name: string, text: string, body: Option<seq<Statement>>)
    | MemberType(decl: TypeDecl)

  datatype Statement =
    | EmptyStatement(text: string)
    | Block(statements: seq<Statement>)
    | VariableDeclarationStatement(typeText: string, fragments: seq<string>)

  /** What encloses a variable-declaration fragment: a declaration statement, with the
      text of its declared type, or anything else (a field declaration, say). */
  datatype FragmentParent = DeclarationStatement(typeText: string) | OtherParent

  // ----- The visitor's state and one step per handler -----

  datatype VisitorState = VisitorState(
    proofStack: seq<seq<ProofNode>>,
    frames: seq<seq<string>>,
    classNames: seq<string>,
    methodName: string,
    locals: seq<Binding>)

  /** The state before any node is visited: the root obligation list alone on the
      proof stack, and an empty local environment. */
  const INITIAL: VisitorState := VisitorState([[]], [], [], "", [])

  /** pushProof(new ArrayList<>()). */
  function OpenObligation(st: VisitorState): (r: VisitorState)
    ensures r.proofStack == st.proofStack + [[]]
    ensures r.(proofStack := st.proofStack) == st
  {
    st.(proofStack := st.proofStack + [[]])
  }

  /** createProofAndAddToObligations("E |- " + node). */
  function CloseConstruct(st: VisitorState, text: string): (r: VisitorState)
    requires |st.proofStack| >= 2
    ensures r.proofStack == CloseObligation(st.proofStack, Judgment(text))
    ensures r.(proofStack := st.proofStack) == st
  {
    st.(proofStack := CloseObligation(st.proofStack, Judgment(text)))
  }

  /** visit(TypeDeclaration). */
  function EnterTypeDeclaration(st: VisitorState, name: string): (r: VisitorState)
    ensures r.proofStack == st.proofStack + [[]] && r.classNames == st.classNames + [name]
    ensures r.(proofStack := st.proofStack, classNames := st.classNames) == st
  {
    OpenObligation(st).(classNames := st.classNames + [name])
  }

  /** endVisit(TypeDeclaration): the class name is popped, then the construct closes. */
  function ExitTypeDeclaration(st: VisitorState, text: string): (r: VisitorState)
    requires |st.proofStack| >= 2 && |st.classNames| >= 1
    ensures r.proofStack == CloseObligation(st.proofStack, Judgment(text))
    ensures r.classNames == st.classNames[..|st.classNames| - 1]
    ensures r.(proofStack := st.proofStack, classNames := st.classNames) == st
  {
    CloseConstruct(st.(classNames := st.classNames[..|st.classNames| - 1]), text)
  }

  /** visit(MethodDeclaration). */
  function EnterMethodDeclaration(st: VisitorState, name: string): (r: VisitorState)
    ensures r.proofStack == st.proofStack + [[]] && r.methodName == name
    ensures r.(proofStack := st.proofStack, methodName := st.methodName) == st
  {
    OpenObligation(st).(methodName := name)
  }

  /** visit(Block): a new empty name frame; the proof stack is not touched. */
  function EnterBlock(st: VisitorState): (r: VisitorState)
    ensures r.frames == st.frames + [[]]
    ensures r.(frames := st.frames) == st
  {
    st.(frames := st.frames + [[]])
  }

  /** endVisit(Block): the frame is popped and exactly its names are released. */
  function ExitBlock(st: VisitorState): (r: VisitorState)
    requires |st.frames| >= 1
    ensures r.proofStack == st.proofStack && r.frames == st.frames[..|st.frames| - 1]
    ensures r.locals == RemoveNames(st.locals, Top(st.frames))
    ensures r.(frames := st.frames, locals := st.locals) == st
  {
    st.(frames := st.frames[..|st.frames| - 1], locals := RemoveNames(st.locals, Top(st.frames)))
  }

  /** visit(VariableDeclarationFragment) without the unbalanced proof push: under a
      declaration statement the name is bound to the declared type (an invalid type
      throws) and recorded in the current frame; the proof stack is not touched. */
  function EnterFragment(st: VisitorState, name: string, parent: FragmentParent): (r: Outcome<VisitorState>)
    requires parent.DeclarationStatement? ==> |st.frames| >= 1
    ensures r.Threw? ==> parent.DeclarationStatement? && !TypeTokens.IsValidType(parent.typeText)
    ensures parent.DeclarationStatement? ==> (r.Threw? <==> !TypeTokens.IsValidType(parent.typeText))
    ensures r.Threw? ==> r.exception == IllegalArgument
    ensures r.Returned? ==> r.value.proofStack == st.proofStack && r.value.classNames == st.classNames
    ensures r.Returned? && parent.DeclarationStatement? ==>
              |r.value.frames| == |st.frames|
              && r.value.frames[..|st.frames| - 1] == st.frames[..|st.frames| - 1]
              && Top(r.value.frames) == Top(st.frames) + [name]
              && r.value.locals == st.locals + [Binding(name, parent.typeText)]
    ensures r.Returned? ==> r.value.(frames := st.frames, locals := st.locals) == st
    ensures r.Returned? && parent.OtherParent? ==> r.value == st
  {
    match parent
    case OtherParent => Returned(st)
    case DeclarationStatement(typeText) =>
      match Bind(st.locals, name, typeText)
      case Threw(e) => Threw(e)
      case Returned(env) =>
        Returned(st.(locals := env,
                     frames := st.frames[..|st.frames| - 1] + [Top(st.frames) + [name]]))
  }

  /** visit(VariableDeclarationFragment) as written: a proof list is pushed first, and
      no handler ever pops it. */
  function EnterFragmentAsWritten(st: VisitorState, name: string, parent: FragmentParent)
    : (r: Outcome<VisitorState>)
    requires parent.DeclarationStatement? ==> |st.frames| >= 1
    ensures r.Returned? ==> r.value.proofStack == st.proofStack + [[]]
    ensures r == match EnterFragment(st, name, parent)
                 case Returned(s) => Returned(s.(proofStack := st.proofStack + [[]]))
                 case Threw(e) => Threw(e)
  {
    EnterFragment(OpenObligation(st), name, parent)
  }

  // ----- The visitor object -----

  class TypeCheckerVisitor {
    var proofStack: seq<seq<ProofNode>>
    var frames: seq<seq<string>>
    var classNames: seq<string>
    var methodName: string
    const symbolTable: SymbolTables.SymbolTable

    /** The abstract state the handlers are specified against. */
    ghost function State(): VisitorState
      reads this, symbolTable
    {
      VisitorState(proofStack, frames, classNames, methodName, symbolTable.locals)
    }

    /** A fresh visitor over a given symbol table, with the root obligation list alone
        on the proof stack. */
    constructor (symbolTable: SymbolTables.SymbolTable)
      ensures this.symbolTable == symbolTable
      ensures proofStack == [[]] && frames == [] && classNames == [] && methodName == ""
    {
      this.symbolTable := symbolTable;
      proofStack, frames, classNames, methodName := [[]], [], [], "";
    }

    method PushProof(proof: seq<ProofNode>)
      modifies this
      ensures proofStack == old(proofStack) + [proof]
      ensures frames == old(frames) && classNames == old(classNames) && methodName == old(methodName)
    {
      proofStack := proofStack + [proof];
    }

    method PopProof() returns (proof: seq<ProofNode>)
      requires |proofStack| >= 1
      modifies this
      ensures proof == Top(old(proofStack)) && proofStack == old(proofStack)[..|old(proofStack)| - 1]
      ensures frames == old(frames) && classNames == old(classNames) && methodName == old(methodName)
    {
      proof := proofStack[|proofStack| - 1];
      proofStack := proofStack[..|proofStack| - 1];
    }

    method PeekProof() returns (proof: seq<ProofNode>)
      requires |proofStack| >= 1
      ensures proof == Top(proofStack)
    {
      proof := proofStack[|proofStack| - 1];
    }

    /** Pops the top list, pads it when empty, wraps it in a container named
        `displayName` and appends that container to the list now on top (the in-place
        `add` on the peeked list is written back to the stack). */
    method CreateProofAndAddToObligations(displayName: string)
      requires |proofStack| >= 2
      modifies this
      ensures proofStack == CloseObligation(old(proofStack), displayName)
      ensures frames == old(frames) && classNames == old(classNames) && methodName == old(methodName)
    {
      var proofs := PopProof();
      proofs := PadIfEmpty(proofs);
      var proof := Container(displayName, proofs);
      var obligations := PeekProof();
      proofStack := proofStack[|proofStack| - 1 := obligations + [proof]];
    }

    method VisitTypeDeclaration(node: TypeDecl) returns (visitChildren: bool)
      modifies this
      ensures visitChildren
      ensures State() == EnterTypeDeclaration(old(State()), node.name)
    {
      classNames := classNames + [node.name];
      PushProof([]);
      visitChildren := true;
    }

    method EndVisitTypeDeclaration(node: TypeDecl)
      requires |proofStack| >= 2 && |classNames| >= 1
      modifies this
      ensures State() == ExitTypeDeclaration(old(State()), node.text)
    {
      classNames := classNames[..|classNames| - 1];
      CreateProofAndAddToObligations(Judgment(node.text));
    }

    method VisitMethodDeclaration(name: string) returns (visitChildren: bool)
      modifies this
      ensures visitChildren
      ensures State() == EnterMethodDeclaration(old(State()), name)
    {
      PushProof([]);
      methodName := name;
      visitChildren := true;
    }

    method EndVisitMethodDeclaration(text: string)
      requires |proofStack| >= 2
      modifies this
      ensures State() == CloseConstruct(old(State()), text)
    {
      CreateProofAndAddToObligations(Judgment(text));
    }

    method VisitEmptyStatement() returns (visitChildren: bool)
      modifies this
      ensures visitChildren
      ensures State() == OpenObligation(old(State()))
    {
      PushProof([]);
      visitChildren := true;
    }

    method EndVisitEmptyStatement(text: string)
      requires |proofStack| >= 2
      modifies this
      ensures State() == CloseConstruct(old(State()), text)
    {
      CreateProofAndAddToObligations(Judgment(text));
    }

    method VisitBlock() returns (visitChildren: bool)
      modifies this
      ensures visitChildren
      ensures State() == EnterBlock(old(State()))
    {
      frames := frames + [[]];
      visitChildren := true;
    }

    method EndVisitBlock()
      requires |frames| >= 1
      modifies this, symbolTable
      ensures State() == ExitBlock(old(State()))
      ensures symbolTable.classes == old(symbolTable.classes)
    {
      var frame := frames[|frames| - 1];
      frames := frames[..|frames| - 1];
      symbolTable.RemoveLocals(frame);
    }

    /** visit(VariableDeclarationFragment) without the unbalanced proof push. It
        returns false (the children are not visited) or throws what addLocal throws. */
    method VisitVariableDeclarationFragment(name: string, parent: FragmentParent)
      returns (r: Outcome<bool>)
      requires parent.DeclarationStatement? ==> |frames| >= 1
      modifies this, symbolTable
      ensures match EnterFragment(old(State()), name, parent)
              case Returned(st) => r == Returned(false) && State() == st
              case Threw(e) => r == Threw(e) && State() == old(State())
      ensures symbolTable.classes == old(symbolTable.classes)
    {
      if parent.DeclarationStatement? {
        var added := symbolTable.AddLocal(name, parent.typeText);
        if added.Threw? {
          return Threw(added.exception);
        }
        frames := frames[|frames| - 1 := frames[|frames| - 1] + [name]];
      }
      return Returned(false);
    }

    /** visit(VariableDeclarationFragment) as written: the proof push happens first and
        stays even when addLocal throws. */
    method VisitVariableDeclarationFragmentAsWritten(name: string, parent: FragmentParent)
      returns (r: Outcome<bool>)
      requires parent.DeclarationStatement? ==> |frames| >= 1
      modifies this, symbolTable
      ensures match EnterFragmentAsWritten(old(State()), name, parent)
              case Returned(st) => r == Returned(false) && State() == st
              case Threw(e) => r == Threw(e) && State() == OpenObligation(old(State()))
      ensures symbolTable.classes == old(symbolTable.classes)
    {
      PushProof([]);
      r := VisitVariableDeclarationFragment(name, parent);
    }

    /** The root obligation list, the bottom of the proof stack. */
    method GetProofs() returns (proofs: seq<ProofNode>)
      requires |proofStack| >= 1
      ensures proofs == proofStack[0]
    {
      proofs := proofStack[0];
    }
  }
}
