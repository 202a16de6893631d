/** The order in which the syntax-tree walk drives TypeCheckerVisitor's handlers:
    `visit` on the way down, the children in source order, `endVisit` on the way up;
    children are skipped when `visit` returns false. A thrown exception ends the walk.
    The walk drives the corrected handlers: the fragment handler without its unpopped
    proof push (EnterFragment) and the intended block exit (ExitBlock, which removes the
    block's names from the environment). The balance, container and failure results
    below hold for those handlers, not for the handlers as written. */
module Traversal {
  import opened Outcomes
  import opened Environments
  import opened ProofTrees
  import opened TypeChecking
  import TypeTokens

  /** What the walk over a subtree preserves: the depth of every stack, every proof
      list and frame below the top, and the class-name stack; the top proof list can
      only grow at its end. */
  predicate Balanced(before: VisitorState, after: VisitorState) {
    && |before.proofStack| >= 1
    && |after.proofStack| == |before.proofStack|
    && after.proofStack[..|before.proofStack| - 1] == before.proofStack[..|before.proofStack| - 1]
    && Top(before.proofStack) <= Top(after.proofStack)
    && after.classNames == before.classNames
    && |after.frames| == |before.frames|
    && (|before.frames| >= 1 ==>
          after.frames[..|before.frames| - 1] == before.frames[..|before.frames| - 1])
  }

  /** The bindings a declaration statement of type `t` introduces. */
  function Declared(names: seq<string>, t: string): (r: seq<Binding>)
    ensures |r| == |names|
    ensures forall k :: 0 <= k < |names| ==> r[k] == Binding(names[k], t)
  {
    seq(|names|, k requires 0 <= k < |names| => Binding(names[k], t))
  }

  lemma DeclaredCons(names: seq<string>, t: string)
    requires names != []
    ensures Declared(names, t) == [Binding(names[0], t)] + Declared(names[1..], t)
  {
  }

  /** Visiting the fragments of one declaration, in order. */
  function WalkFragments(st: VisitorState, parent: FragmentParent, names: seq<string>)
    : (r: Outcome<VisitorState>)
    requires parent.DeclarationStatement? ==> |st.frames| >= 1
    ensures parent.OtherParent? ==> r == Returned(st)
    ensures r.Threw? ==> r.exception == IllegalArgument
                         && parent.DeclarationStatement? && !TypeTokens.IsValidType(parent.typeText)
    ensures r.Returned? ==>
              && r.value.proofStack == st.proofStack
              && r.value.classNames == st.classNames
              && r.value.methodName == st.methodName
              && |r.value.frames| == |st.frames|
              && (|st.frames| >= 1 ==> r.value.frames[..|st.frames| - 1] == st.frames[..|st.frames| - 1])
    decreases names
  {
    if names == [] then Returned(st)
    else
      match EnterFragment(st, names[0], parent)
      case Threw(e) => Threw(e)
      case Returned(s1) => WalkFragments(s1, parent, names[1..])
  }

  function WalkTypes(st: VisitorState, tds: seq<TypeDecl>): (r: Outcome<VisitorState>)
    requires |st.proofStack| >= 1
    ensures r.Threw? ==> r.exception == IllegalArgument
    ensures r.Returned? ==> Balanced(st, r.value) && r.value.frames == st.frames
    ensures r.Returned? ==> |Top(r.value.proofStack)| == |Top(st.proofStack)| + |tds|
    ensures r.Returned? && StackWellFormed(st.proofStack) ==> StackWellFormed(r.value.proofStack)
    decreases tds
  {
    if tds == [] then Returned(st)
    else
      match WalkType(st, tds[0])
      case Threw(e) => Threw(e)
      case Returned(s1) => WalkTypes(s1, tds[1..])
  }

  /** A class declaration adds exactly one container, named after it, to the list on
      top of the proof stack, and leaves every stack as deep as it found it. */
  function WalkType(st: VisitorState, td: TypeDecl): (r: Outcome<VisitorState>)
    requires |st.proofStack| >= 1
    ensures r.Threw? ==> r.exception == IllegalArgument
    ensures r.Returned? ==> Balanced(st, r.value) && r.value.frames == st.frames
    ensures r.Returned? ==>
              |Top(r.value.proofStack)| == |Top(st.proofStack)| + 1
              && Top(r.value.proofStack)[|Top(st.proofStack)|].Container?
              && Top(r.value.proofStack)[|Top(st.proofStack)|].displayName == Judgment(td.text)
    ensures r.Returned? && StackWellFormed(st.proofStack) ==> StackWellFormed(r.value.proofStack)
    decreases td
  {
    match WalkMembers(EnterTypeDeclaration(st, td.name), td.members)
    case Threw(e) => Threw(e)
    case Returned(s1) => Returned(ExitTypeDeclaration(s1, td.text))
  }

  function WalkMembers(st: VisitorState, ms: seq<Member>): (r: Outcome<VisitorState>)
    requires |st.proofStack| >= 1
    ensures r.Threw? ==> r.exception == IllegalArgument
    ensures r.Returned? ==> Balanced(st, r.value) && r.value.frames == st.frames
    ensures r.Returned? && StackWellFormed(st.proofStack) ==> StackWellFormed(r.value.proofStack)
    decreases ms
  {
    if ms == [] then Returned(st)
    else
      match WalkMember(st, ms[0])
      case Threw(e) => Threw(e)
      case Returned(s1) => WalkMembers(s1, ms[1..])
  }

  /** A method declaration adds exactly one container named after it and leaves its
      name as the current method name; a field declaration adds nothing. */
  function WalkMember(st: VisitorState, m: Member): (r: Outcome<VisitorState>)
    requires |st.proofStack| >= 1
    ensures r.Threw? ==> r.exception == IllegalArgument
    ensures r.Returned? ==> Balanced(st, r.value) && r.value.frames == st.frames
    ensures r.Returned? && m.MethodDeclaration? ==>
              |Top(r.value.proofStack)| == |Top(st.proofStack)| + 1
              && Top(r.value.proofStack)[|Top(st.proofStack)|].Container?
              && Top(r.value.proofStack)[|Top(st.proofStack)|].displayName == Judgment(m.text)
              && r.value.methodName == m.name
    ensures m.FieldDeclaration? ==> r == Returned(st)
    ensures r.Returned? && StackWellFormed(st.proofStack) ==> StackWellFormed(r.value.proofStack)
    decreases m
  {
    match m
    case FieldDeclaration(_, fragments) => WalkFragments(st, OtherParent, fragments)
    case MethodDeclaration(name, text, body) => WalkMethod(st, name, text, body)
    case MemberType(td) => WalkType(st, td)
  }

  function WalkMethod(st: VisitorState, name: string, text: string, body: Option<seq<Statement>>)
    : (r: Outcome<VisitorState>)
    requires |st.proofStack| >= 1
    ensures r.Threw? ==> r.exception == IllegalArgument
    ensures r.Returned? ==> Balanced(st, r.value) && r.value.frames == st.frames
    ensures r.Returned? ==>
              |Top(r.value.proofStack)| == |Top(st.proofStack)| + 1
              && Top(r.value.proofStack)[|Top(st.proofStack)|].Container?
              && Top(r.value.proofStack)[|Top(st.proofStack)|].displayName == Judgment(text)
              && r.value.methodName == name
    ensures r.Returned? && StackWellFormed(st.proofStack) ==> StackWellFormed(r.value.proofStack)
    decreases body
  {
    var s1 := EnterMethodDeclaration(st, name);
    var walked := match body
                  case None => Returned(s1)
                  case Some(statements) => WalkBlock(s1, statements);
    match walked
    case Threw(e) => Threw(e)
    case Returned(s2) =>
      assert s2.proofStack[|s2.proofStack| - 2] == Top(st.proofStack);
      Returned(CloseConstruct(s2, text))
  }

  /** A block restores the frame stack and adds nothing to the proof stack but what its
      statements add; it never opens an obligation of its own. */
  function WalkBlock(st: VisitorState, ss: seq<Statement>): (r: Outcome<VisitorState>)
    requires |st.proofStack| >= 1
    ensures r.Threw? ==> r.exception == IllegalArgument
    ensures r.Returned? ==> Balanced(st, r.value) && r.value.frames == st.frames
    ensures r.Returned? ==> r.value.methodName == st.methodName
    ensures r.Returned? && StackWellFormed(st.proofStack) ==> StackWellFormed(r.value.proofStack)
    decreases ss, 1
  {
    match WalkStatements(EnterBlock(st), ss)
    case Threw(e) => Threw(e)
    case Returned(s1) => Returned(ExitBlock(s1))
  }

  function WalkStatements(st: VisitorState, ss: seq<Statement>): (r: Outcome<VisitorState>)
    requires |st.proofStack| >= 1 && |st.frames| >= 1
    ensures r.Threw? ==> r.exception == IllegalArgument
    ensures r.Returned? ==> Balanced(st, r.value) && r.value.methodName == st.methodName
    ensures r.Returned? && StackWellFormed(st.proofStack) ==> StackWellFormed(r.value.proofStack)
    decreases ss, 0
  {
    if ss == [] then Returned(st)
    else
      match WalkStatement(st, ss[0])
      case Threw(e) => Threw(e)
      case Returned(s1) => WalkStatements(s1, ss[1..])
  }

  /** An empty statement adds exactly one container holding the trivially passing leaf. */
  function WalkStatement(st: VisitorState, s: Statement): (r: Outcome<VisitorState>)
    requires |st.proofStack| >= 1 && |st.frames| >= 1
    ensures r.Threw? ==> r.exception == IllegalArgument
    ensures r.Returned? ==> Balanced(st, r.value) && r.value.methodName == st.methodName
    ensures s.EmptyStatement? ==>
              r.Returned? && Top(r.value.proofStack) ==
                Top(st.proofStack) + [Container(Judgment(s.text), [NO_OBLIGATION])]
    ensures r.Returned? && StackWellFormed(st.proofStack) ==> StackWellFormed(r.value.proofStack)
    decreases s
  {
    match s
    case EmptyStatement(text) =>
      Returned(CloseConstruct(OpenObligation(st), text))
    case Block(statements) => WalkBlock(st, statements)
    case VariableDeclarationStatement(typeText, fragments) =>
      WalkFragments(st, DeclarationStatement(typeText), fragments)
  }

  /** The root obligation list for a compilation unit's class declarations: one
      well-formed container per declaration, named after it. The only way the walk can
      fail is addLocal's exception for an invalid declared type. */
  function BuildProofs(tds: seq<TypeDecl>): (r: Outcome<seq<ProofNode>>)
    ensures r.Threw? ==> r.exception == IllegalArgument
    ensures r.Returned? ==> |r.value| == |tds| && AllWellFormed(r.value)
  {
    assert StackWellFormed(INITIAL.proofStack) && |Top(INITIAL.proofStack)| == 0;
    match WalkTypes(INITIAL, tds)
    case Threw(e) => Threw(e)
    case Returned(st) =>
      assert |st.proofStack| == 1 && Top(st.proofStack) == st.proofStack[0];
      Returned(st.proofStack[0])
  }

  // ----- Properties of the walk -----

  /** Under a declaration statement the walk over the fragments fails exactly when
      there is a fragment and the declared type is not one of the accepted tokens. */
  lemma {:induction false} FragmentsFailOnInvalidType(st: VisitorState, t: string, names: seq<string>)
    requires |st.frames| >= 1
    ensures WalkFragments(st, DeclarationStatement(t), names).Returned?
              == (names == [] || TypeTokens.IsValidType(t))
    decreases names
  {
    if names != [] {
      var r1 := EnterFragment(st, names[0], DeclarationStatement(t));
      if r1.Returned? {
        FragmentsFailOnInvalidType(r1.value, t, names[1..]);
      }
    }
  }

  /** Under a declaration statement the fragments are recorded, in source order, in the
      innermost frame. */
  lemma {:induction false} FragmentsRecordInFrame(st: VisitorState, t: string, names: seq<string>)
    requires |st.frames| >= 1
    ensures WalkFragments(st, DeclarationStatement(t), names).Returned? ==>
              Top(WalkFragments(st, DeclarationStatement(t), names).value.frames)
                == Top(st.frames) + names
    decreases names
  {
    var w := WalkFragments(st, DeclarationStatement(t), names);
    if names != [] && w.Returned? {
      var s1 := EnterFragment(st, names[0], DeclarationStatement(t)).value;
      FragmentsRecordInFrame(s1, t, names[1..]);
      assert names == [names[0]] + names[1..];
    }
  }

  /** Under a declaration statement the fragments are bound, in source order, to the
      declared type. */
  lemma {:induction false} FragmentsBindInOrder(st: VisitorState, t: string, names: seq<string>)
    requires |st.frames| >= 1
    ensures WalkFragments(st, DeclarationStatement(t), names).Returned? ==>
              WalkFragments(st, DeclarationStatement(t), names).value.locals
                == st.locals + Declared(names, t)
    decreases names
  {
    var w := WalkFragments(st, DeclarationStatement(t), names);
    if names != [] && w.Returned? {
      var s1 := EnterFragment(st, names[0], DeclarationStatement(t)).value;
      var w1 := WalkFragments(s1, DeclarationStatement(t), names[1..]);
      assert w == w1;
      FragmentsBindInOrder(s1, t, names[1..]);
      DeclaredAfter(st.locals, names, t);
    }
  }

  /** Binding the first name and then the rest is binding them all. */
  lemma DeclaredAfter(env: seq<Binding>, names: seq<string>, t: string)
    requires names != []
    ensures (env + [Binding(names[0], t)]) + Declared(names[1..], t) == env + Declared(names, t)
  {
    DeclaredCons(names, t);
  }

  /** The names declared anywhere in a statement list, nested blocks included. */
  function DeclaredIn(ss: seq<Statement>): seq<string>
    decreases ss, 0
  {
    if ss == [] then [] else DeclaredBy(ss[0]) + DeclaredIn(ss[1..])
  }

  function DeclaredBy(s: Statement): seq<string>
    decreases s
  {
    match s
    case EmptyStatement(_) => []
    case Block(statements) => DeclaredIn(statements)
    case VariableDeclarationStatement(_, fragments) => fragments
  }

  /** Leaving a block unbinds every name declared inside it, and touches no other
      binding: the environment after the block is the one before it with those names
      removed. */
  lemma {:induction false} BlockReleasesItsNames(st: VisitorState, ss: seq<Statement>)
    requires |st.proofStack| >= 1
    ensures WalkBlock(st, ss).Returned? ==>
              WalkBlock(st, ss).value.locals == RemoveNames(st.locals, DeclaredIn(ss))
    decreases ss, 1
  {
    var s0 := EnterBlock(st);
    var w := WalkStatements(s0, ss);
    if w.Returned? {
      StatementsScope(s0, ss);
      RemoveNamesNone(st.locals, Top(s0.frames));
    }
  }

  /** Inside a block, the bindings that survive removing the innermost frame's names are
      those that survived before, minus every name the statements declare. */
  lemma {:induction false} StatementsScope(st: VisitorState, ss: seq<Statement>)
    requires |st.proofStack| >= 1 && |st.frames| >= 1
    ensures WalkStatements(st, ss).Returned? ==>
              var r := WalkStatements(st, ss).value;
              |r.frames| >= 1 &&
              RemoveNames(r.locals, Top(r.frames))
                == RemoveNames(RemoveNames(st.locals, Top(st.frames)), DeclaredIn(ss))
    decreases ss, 0
  {
    if ss == [] {
      RemoveNamesNone(RemoveNames(st.locals, Top(st.frames)), []);
    } else {
      var w := WalkStatement(st, ss[0]);
      if w.Returned? {
        StatementScope(st, ss[0]);
        var s1 := w.value;
        if WalkStatements(s1, ss[1..]).Returned? {
          StatementsScope(s1, ss[1..]);
          RemoveNamesTwice(st.locals, Top(st.frames), DeclaredBy(ss[0]));
          RemoveNamesTwice(RemoveNames(st.locals, Top(st.frames)), DeclaredBy(ss[0]), DeclaredIn(ss[1..]));
          RemoveNamesTwice(st.locals, Top(st.frames) + DeclaredBy(ss[0]), DeclaredIn(ss[1..]));
          RemoveNamesTwice(st.locals, Top(st.frames), DeclaredIn(ss));
          assert Top(st.frames) + DeclaredBy(ss[0]) + DeclaredIn(ss[1..])
              == Top(st.frames) + DeclaredIn(ss);
        }
      }
    }
  }

  lemma {:induction false} StatementScope(st: VisitorState, s: Statement)
    requires |st.proofStack| >= 1 && |st.frames| >= 1
    ensures WalkStatement(st, s).Returned? ==>
              var r := WalkStatement(st, s).value;
              |r.frames| >= 1 &&
              RemoveNames(r.locals, Top(r.frames))
                == RemoveNames(RemoveNames(st.locals, Top(st.frames)), DeclaredBy(s))
    decreases s
  {
    var f := Top(st.frames);
    match s
    case EmptyStatement(_) =>
      RemoveNamesNone(RemoveNames(st.locals, f), []);
    case Block(statements) =>
      BlockReleasesItsNames(st, statements);
      RemoveNamesCommute(st.locals, DeclaredIn(statements), f);
    case VariableDeclarationStatement(t, names) =>
      if WalkFragments(st, DeclarationStatement(t), names).Returned? {
        FragmentsRecordInFrame(st, t, names);
        FragmentsBindInOrder(st, t, names);
        RemoveNamesAppend(st.locals, Declared(names, t), f + names);
        RemoveNamesAll(Declared(names, t), f + names);
        RemoveNamesTwice(st.locals, f, names);
      }
  }

  /** Block scoping as a lookup: after a block, a name it declared is unbound and every
      other name resolves as it did before the block. */
  lemma BlockRestoresLookups(st: VisitorState, ss: seq<Statement>, n: string)
    requires |st.proofStack| >= 1
    ensures WalkBlock(st, ss).Returned? ==>
              LocalType(WalkBlock(st, ss).value.locals, n)
                == if n in DeclaredIn(ss) then None else LocalType(st.locals, n)
  {
    if WalkBlock(st, ss).Returned? {
      BlockReleasesItsNames(st, ss);
      LocalTypeAfterRemove(st.locals, DeclaredIn(ss), n);
    }
  }

  /** A block that declares only names unbound on entry leaves the environment exactly
      as it found it. */
  lemma BlockRestoresEnvironment(st: VisitorState, ss: seq<Statement>)
    requires |st.proofStack| >= 1
    requires forall k :: 0 <= k < |st.locals| ==> st.locals[k].name !in DeclaredIn(ss)
    ensures WalkBlock(st, ss).Returned? ==> WalkBlock(st, ss).value.locals == st.locals
  {
    if WalkBlock(st, ss).Returned? {
      BlockReleasesItsNames(st, ss);
      RemoveNamesNone(st.locals, DeclaredIn(ss));
    }
  }

  /** Each class declaration of a list contributes, in order, one container named after
      it to the list on top of the proof stack. */
  lemma {:induction false} WalkTypesNamesContainers(st: VisitorState, tds: seq<TypeDecl>)
    requires |st.proofStack| >= 1
    ensures WalkTypes(st, tds).Returned? ==>
              ContainersFrom(Top(WalkTypes(st, tds).value.proofStack), |Top(st.proofStack)|, tds)
    decreases tds
  {
    var w := WalkTypes(st, tds);
    if tds != [] && w.Returned? {
      var s1 := WalkType(st, tds[0]).value;
      var w1 := WalkTypes(s1, tds[1..]);
      assert w == w1;
      WalkTypesNamesContainers(s1, tds[1..]);
      ContainersExtend(Top(st.proofStack), Top(s1.proofStack), Top(w1.value.proofStack), tds);
    }
  }

  /** From position `start` on, a proof list holds one container per declaration of
      `tds`, in order, each named after its declaration. */
  predicate ContainersFrom(nodes: seq<ProofNode>, start: nat, tds: seq<TypeDecl>) {
    forall i :: 0 <= i < |tds| ==> NamedContainerAt(nodes, start + i, tds[i].text)
  }

  /** One named container followed by one per remaining declaration is one per declaration. */
  lemma ContainersExtend(top0: seq<ProofNode>, top1: seq<ProofNode>, top: seq<ProofNode>,
                         tds: seq<TypeDecl>)
    requires tds != [] && |top1| == |top0| + 1 && top1 <= top
    requires NamedContainerAt(top1, |top0|, tds[0].text)
    requires ContainersFrom(top, |top1|, tds[1..])
    ensures ContainersFrom(top, |top0|, tds)
  {
    forall i | 0 <= i < |tds|
      ensures NamedContainerAt(top, |top0| + i, tds[i].text)
    {
      if i > 0 {
        assert tds[1..][i - 1] == tds[i];
        assert NamedContainerAt(top, |top1| + (i - 1), tds[1..][i - 1].text);
      }
    }
  }

  /** Position `k` of a proof list holds a container for the construct printed as `text`. */
  predicate NamedContainerAt(nodes: seq<ProofNode>, k: int, text: string) {
    0 <= k < |nodes| && nodes[k].Container? && nodes[k].displayName == Judgment(text)
  }

  /** The root obligation list has one container per class declaration, named after it,
      in source order. */
  lemma BuildProofsNamesContainers(tds: seq<TypeDecl>)
    ensures BuildProofs(tds).Returned? ==> ContainersFrom(BuildProofs(tds).value, 0, tds)
  {
    var w := WalkTypes(INITIAL, tds);
    if w.Returned? {
      WalkTypesNamesContainers(INITIAL, tds);
      var stack := w.value.proofStack;
      assert |stack| == 1 && |Top(INITIAL.proofStack)| == 0;
      assert Top(stack) == stack[0];
      assert BuildProofs(tds) == Returned(stack[0]);
    }
  }

  // ----- What each container holds -----

  /** A class's container holds exactly the obligations its members produced, or the
      trivially passing leaf when they produced none. */
  lemma TypeContainerHoldsMembers(st: VisitorState, td: TypeDecl)
    requires |st.proofStack| >= 1
    ensures var inner := WalkMembers(EnterTypeDeclaration(st, td.name), td.members);
            inner.Returned? ==>
              WalkType(st, td).Returned?
              && Top(WalkType(st, td).value.proofStack)
                   == Top(st.proofStack) + [Container(Judgment(td.text), PadIfEmpty(Top(inner.value.proofStack)))]
  {
    var e := EnterTypeDeclaration(st, td.name);
    var inner := WalkMembers(e, td.members);
    if inner.Returned? {
      var stack := inner.value.proofStack;
      assert stack[|stack| - 2] == e.proofStack[|stack| - 2] == Top(st.proofStack);
      var r := CloseObligation(stack, Judgment(td.text));
      assert Top(r) == Top(r)[..|Top(r)| - 1] + [Top(r)[|Top(r)| - 1]];
    }
  }

  /** A method's container holds exactly the obligations its body produced, or the
      trivially passing leaf when it produced none (or has no body). */
  lemma MethodContainerHoldsBody(st: VisitorState, name: string, text: string, body: Option<seq<Statement>>)
    requires |st.proofStack| >= 1
    ensures var s1 := EnterMethodDeclaration(st, name);
            var walked := if body.None? then Returned(s1) else WalkBlock(s1, body.value);
            walked.Returned? ==>
              WalkMethod(st, name, text, body).Returned?
              && Top(WalkMethod(st, name, text, body).value.proofStack)
                   == Top(st.proofStack) + [Container(Judgment(text), PadIfEmpty(Top(walked.value.proofStack)))]
  {
    var s1 := EnterMethodDeclaration(st, name);
    var walked := if body.None? then Returned(s1) else WalkBlock(s1, body.value);
    if walked.Returned? {
      var stack := walked.value.proofStack;
      assert stack[|stack| - 2] == s1.proofStack[|stack| - 2] == Top(st.proofStack);
      var r := CloseObligation(stack, Judgment(text));
      assert Top(r) == Top(r)[..|Top(r)| - 1] + [Top(r)[|Top(r)| - 1]];
    }
  }

  /** A block of empty statements adds one trivially closed container per statement. */
  lemma BlockOfEmptyStatements(st: VisitorState, texts: seq<string>)
    requires |st.proofStack| >= 1
    ensures WalkBlock(st, EmptyStatements(texts)).Returned?
    ensures Top(WalkBlock(st, EmptyStatements(texts)).value.proofStack)
              == Top(st.proofStack) + TrivialContainers(texts)
  {
    EmptyStatementsAppend(EnterBlock(st), texts);
  }

  /** One empty statement per text, in order. */
  function EmptyStatements(texts: seq<string>): (r: seq<Statement>)
    ensures |r| == |texts|
  {
    if texts == [] then [] else [EmptyStatement(texts[0])] + EmptyStatements(texts[1..])
  }

  /** One container holding only the trivially passing leaf per text, in order. */
  function TrivialContainers(texts: seq<string>): (r: seq<ProofNode>)
    ensures |r| == |texts|
  {
    if texts == [] then []
    else [Container(Judgment(texts[0]), [NO_OBLIGATION])] + TrivialContainers(texts[1..])
  }

  lemma {:induction false} EmptyStatementsAppend(st: VisitorState, texts: seq<string>)
    requires |st.proofStack| >= 1 && |st.frames| >= 1
    ensures WalkStatements(st, EmptyStatements(texts)).Returned?
    ensures Top(WalkStatements(st, EmptyStatements(texts)).value.proofStack)
              == Top(st.proofStack) + TrivialContainers(texts)
    decreases texts
  {
    if texts != [] {
      var ss := EmptyStatements(texts);
      var s1 := WalkStatement(st, ss[0]).value;
      assert ss[1..] == EmptyStatements(texts[1..]);
      EmptyStatementsAppend(s1, texts[1..]);
      assert WalkStatements(st, ss) == WalkStatements(s1, ss[1..]);
    }
  }

  /** One step of a statement list: the rest is walked from the state the first
      statement leaves. */
  lemma StatementsStep(st: VisitorState, ss: seq<Statement>)
    requires |st.proofStack| >= 1 && |st.frames| >= 1 && ss != []
    ensures WalkStatement(st, ss[0]).Returned? ==>
              WalkStatements(st, ss) == WalkStatements(WalkStatement(st, ss[0]).value, ss[1..])
  {
  }

  /** One step of a member list: the rest is walked from the state the first member
      leaves. */
  lemma MembersStep(st: VisitorState, ms: seq<Member>)
    requires |st.proofStack| >= 1 && ms != []
    ensures WalkMember(st, ms[0]).Returned? ==>
              WalkMembers(st, ms) == WalkMembers(WalkMember(st, ms[0]).value, ms[1..])
  {
  }

  /** A class declaring one method: the class's container holds just the method's, and
      the method's holds what its body produced, or the trivially passing leaf. */
  lemma OneMethodClass(st: VisitorState, className: string, classText: string,
                       methodName: string, methodText: string, body: Option<seq<Statement>>)
    requires |st.proofStack| >= 1
    ensures var s1 := EnterMethodDeclaration(EnterTypeDeclaration(st, className), methodName);
            var walked := if body.None? then Returned(s1) else WalkBlock(s1, body.value);
            var td := TypeDecl(className, classText, [MethodDeclaration(methodName, methodText, body)]);
            walked.Returned? ==>
              WalkType(st, td).Returned?
              && Top(WalkType(st, td).value.proofStack)
                   == Top(st.proofStack) + [Container(Judgment(classText),
                        [Container(Judgment(methodText), PadIfEmpty(Top(walked.value.proofStack)))])]
  {
    var e := EnterTypeDeclaration(st, className);
    var s1 := EnterMethodDeclaration(e, methodName);
    var walked := if body.None? then Returned(s1) else WalkBlock(s1, body.value);
    var td := TypeDecl(className, classText, [MethodDeclaration(methodName, methodText, body)]);
    if walked.Returned? {
      MethodContainerHoldsBody(e, methodName, methodText, body);
      MembersStep(e, td.members);
      assert td.members[1..] == [];
      TypeContainerHoldsMembers(st, td);
    }
  }

  /** A declaration statement of one valid-typed name binds it and records it in the
      innermost frame, and adds no obligation. */
  lemma SingleDeclaration(st: VisitorState, t: string, x: string)
    requires |st.proofStack| >= 1 && |st.frames| >= 1 && TypeTokens.IsValidType(t)
    ensures WalkStatement(st, VariableDeclarationStatement(t, [x])).Returned?
    ensures var d := WalkStatement(st, VariableDeclarationStatement(t, [x])).value;
            d.locals == st.locals + [Binding(x, t)] && d.proofStack == st.proofStack
  {
    var w := WalkFragments(st, DeclarationStatement(t), [x]);
    assert WalkStatement(st, VariableDeclarationStatement(t, [x])) == w;
    FragmentsFailOnInvalidType(st, t, [x]);
    FragmentsBindInOrder(st, t, [x]);
    assert Declared([x], t) == [Binding(x, t)];
  }

  /** The root list for a single class declaration is the list its walk leaves on top. */
  lemma BuildProofsOfOneType(td: TypeDecl)
    ensures WalkType(INITIAL, td).Returned? ==>
              BuildProofs([td]) == Returned(Top(WalkType(INITIAL, td).value.proofStack))
  {
    var w := WalkType(INITIAL, td);
    if w.Returned? {
      assert WalkTypes(INITIAL, [td]) == WalkTypes(w.value, []);
      assert |w.value.proofStack| == 1;
    }
  }
}
