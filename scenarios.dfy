/** Small compilation units and what the modelled walk gives for them: the proof trees
    the visitor builds for them, the failure for an unknown declared type, block scoping
    with a shadowed name, and the stray proof list the fragment handler as written leaves
    behind. */
module Scenarios {
  import opened Outcomes
  import opened Environments
  import opened ProofTrees
  import opened TypeChecking
  import opened Traversal
  import TypeTokens

  /** A class without members closes to one container holding the trivially passing
      leaf. */
  lemma EmptyClassProof(name: string, text: string)
    ensures BuildProofs([TypeDecl(name, text, [])])
              == Returned([Container(Judgment(text), [NO_OBLIGATION])])
  {
    var td := TypeDecl(name, text, []);
    TypeContainerHoldsMembers(INITIAL, td);
    BuildProofsOfOneType(td);
  }

  /** A method holding one empty statement: the class, the method and the statement each
      get a container, nested in that order, and only the statement's holds a leaf. */
  lemma MethodWithEmptyStatementProof(className: string, classText: string,
                                      methodName: string, methodText: string, stmtText: string)
    ensures BuildProofs([TypeDecl(className, classText,
              [MethodDeclaration(methodName, methodText, Some([EmptyStatement(stmtText)]))])])
              == Returned([Container(Judgment(classText),
                             [Container(Judgment(methodText),
                                [Container(Judgment(stmtText), [NO_OBLIGATION])])])])
  {
    var body := [EmptyStatement(stmtText)];
    var s1 := EnterMethodDeclaration(EnterTypeDeclaration(INITIAL, className), methodName);
    assert EmptyStatements([stmtText]) == body;
    var leaf := Container(Judgment(stmtText), [NO_OBLIGATION]);
    BlockOfEmptyStatements(s1, [stmtText]);
    assert TrivialContainers([stmtText]) == [leaf];
    assert Top(s1.proofStack) == [];
    var walked := WalkBlock(s1, body).value;
    assert Top(walked.proofStack) == [leaf];
    assert PadIfEmpty(Top(walked.proofStack)) == [leaf];
    OneMethodClass(INITIAL, className, classText, methodName, methodText, Some(body));
    var td := TypeDecl(className, classText, [MethodDeclaration(methodName, methodText, Some(body))]);
    BuildProofsOfOneType(td);
    assert Top(WalkType(INITIAL, td).value.proofStack)
        == [] + [Container(Judgment(classText), [Container(Judgment(methodText), [leaf])])];
  }

  /** Declaring a local of a type the symbol table does not accept ends the walk with
      addLocal's IllegalArgumentException. */
  lemma UnknownLocalTypeThrows(className: string, methodName: string, t: string, x: string)
    requires !TypeTokens.IsValidType(t)
    ensures BuildProofs([TypeDecl(className, "class", [MethodDeclaration(methodName, "method",
              Some([VariableDeclarationStatement(t, [x])]))])])
              == Threw(IllegalArgument)
  {
    var decl := VariableDeclarationStatement(t, [x]);
    var m := MethodDeclaration(methodName, "method", Some([decl]));
    var td := TypeDecl(className, "class", [m]);
    var e := EnterTypeDeclaration(INITIAL, className);
    var s1 := EnterMethodDeclaration(e, methodName);
    var b := EnterBlock(s1);
    FragmentsFailOnInvalidType(b, t, [x]);
    assert WalkStatement(b, decl).Threw?;
    assert WalkStatements(b, [decl]).Threw?;
    assert WalkBlock(s1, [decl]).Threw?;
    assert WalkMethod(e, methodName, "method", Some([decl])).Threw?;
    assert WalkMembers(e, [m]).Threw?;
    assert WalkType(INITIAL, td).Threw?;
    assert WalkTypes(INITIAL, [td]).Threw?;
  }

  /** A name declared again in an inner block is unbound once that block ends, although
      it resolved to the outer declaration's type before the block: removal is by name,
      so the outer declaration of the same name goes too. */
  lemma InnerBlockUnbindsShadowedName(st: VisitorState, outer: string, inner: string, x: string)
    requires |st.proofStack| >= 1 && |st.frames| >= 1
    requires TypeTokens.IsValidType(outer) && TypeTokens.IsValidType(inner)
    ensures var d := WalkStatement(st, VariableDeclarationStatement(outer, [x]));
            d.Returned? && LocalType(d.value.locals, x) == Some(outer)
    ensures var r := WalkStatements(st, [VariableDeclarationStatement(outer, [x]),
                                         Block([VariableDeclarationStatement(inner, [x])])]);
            r.Returned? && LocalType(r.value.locals, x) == None
  {
    var outerDecl := VariableDeclarationStatement(outer, [x]);
    var block := [VariableDeclarationStatement(inner, [x])];
    SingleDeclaration(st, outer, x);
    var d := WalkStatement(st, outerDecl).value;
    assert LocalType(d.locals, x) == Some(outer);
    RedeclaredInBlock(d, inner, x);
    var both := [outerDecl, Block(block)];
    StatementsStep(st, both);
    StatementsStep(d, both[1..]);
    assert both[1..][1..] == [];
  }

  /** A block redeclaring `x` leaves `x` unbound, whatever it was bound to before. */
  lemma RedeclaredInBlock(st: VisitorState, t: string, x: string)
    requires |st.proofStack| >= 1 && |st.frames| >= 1 && TypeTokens.IsValidType(t)
    ensures var r := WalkStatement(st, Block([VariableDeclarationStatement(t, [x])]));
            r.Returned? && LocalType(r.value.locals, x) == None
  {
    var block := [VariableDeclarationStatement(t, [x])];
    SingleDeclaration(EnterBlock(st), t, x);
    StatementsStep(EnterBlock(st), block);
    BlockRestoresLookups(st, block, x);
    assert x in DeclaredIn(block) by {
      assert DeclaredBy(block[0]) == [x];
    }
  }

  /** The fragment handler as written, on a class whose only member is a field
      declaration `t x;`: the fragment's parent is not a declaration statement, so no
      block and no local is involved, yet the list pushed for the fragment is never
      popped. The class then closes that stray list one level too deep, its own list
      stays on the stack, and the root list the visitor reports is empty. */
  lemma FragmentPushLeavesRootEmpty(className: string, classText: string, x: string)
    ensures var s := EnterTypeDeclaration(INITIAL, className);
            var f := EnterFragmentAsWritten(s, x, OtherParent);
            f.Returned? &&
            var done := ExitTypeDeclaration(f.value, classText);
            done.proofStack == [[], [Container(Judgment(classText), [NO_OBLIGATION])]]
            && done.classNames == []
  {
    var s := EnterTypeDeclaration(INITIAL, className);
    assert s.proofStack == [[], []];
    var f := EnterFragmentAsWritten(s, x, OtherParent).value;
    assert f.proofStack == [[]] + [[], []];
    CloseOnto([[]], [], [], Judgment(classText));
  }

  /** The same class walked with the corrected handler: the root list holds the class's
      container, and the field adds no obligation. */
  lemma FragmentWithoutPushReportsClass(className: string, classText: string, t: string, x: string)
    ensures BuildProofs([TypeDecl(className, classText, [FieldDeclaration(t, [x])])])
              == Returned([Container(Judgment(classText), [NO_OBLIGATION])])
  {
    var td := TypeDecl(className, classText, [FieldDeclaration(t, [x])]);
    var e := EnterTypeDeclaration(INITIAL, className);
    MembersStep(e, td.members);
    assert td.members[1..] == [];
    TypeContainerHoldsMembers(INITIAL, td);
    BuildProofsOfOneType(td);
  }

  /** A method whose body declares one local, walked with the corrected handlers: the
      root list holds the class, the class the method, and the declaration adds no
      obligation of its own. */
  lemma MethodWithLocalProof(className: string, classText: string,
                             methodName: string, methodText: string, t: string, x: string)
    requires TypeTokens.IsValidType(t)
    ensures BuildProofs([TypeDecl(className, classText, [MethodDeclaration(methodName, methodText,
              Some([VariableDeclarationStatement(t, [x])]))])])
              == Returned([Container(Judgment(classText),
                             [Container(Judgment(methodText), [NO_OBLIGATION])])])
  {
    var decl := VariableDeclarationStatement(t, [x]);
    var s1 := EnterMethodDeclaration(EnterTypeDeclaration(INITIAL, className), methodName);
    var b := EnterBlock(s1);
    SingleDeclaration(b, t, x);
    StatementsStep(b, [decl]);
    assert Top(WalkBlock(s1, [decl]).value.proofStack) == [];
    OneMethodClass(INITIAL, className, classText, methodName, methodText, Some([decl]));
    BuildProofsOfOneType(TypeDecl(className, classText, [MethodDeclaration(methodName, methodText, Some([decl]))]));
  }
}
