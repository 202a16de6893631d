/** SymbolTable.java: the local environment (one list of name/type bindings scanned
    newest-first) and the class registry (class name to a record of fields, methods
    with their parameter lists, and nested-class names). */
module SymbolTables {
  import opened Outcomes
  import opened Environments
  import TypeTokens

  /** One registered method: name, return type and ordered parameter list
      (the `Triplet<String, String, List<Pair<String, String>>>` of ClassObject). */
  datatype MethodEntry = MethodEntry(name: string, returnType: string, parameters: seq<Binding>)

  /** The methods as name/return-type pairs, in registration order. */
  function Signatures(methods: seq<MethodEntry>): (r: seq<Binding>)
    ensures |r| == |methods|
    ensures forall k :: 0 <= k < |methods| ==> r[k] == Binding(methods[k].name, methods[k].returnType)
  {
    seq(|methods|, k requires 0 <= k < |methods| => Binding(methods[k].name, methods[k].returnType))
  }

  /** The return type of the first method named `m`. */
  function ReturnTypeOf(methods: seq<MethodEntry>, m: string): (r: Option<string>)
    ensures r.None? <==> forall k :: 0 <= k < |methods| ==> methods[k].name != m
    ensures r.Some? ==>
              exists k :: 0 <= k < |methods| && methods[k].name == m
                          && methods[k].returnType == r.value
                          && forall j :: 0 <= j < k ==> methods[j].name != m
  {
    FirstType(Signatures(methods), m)
  }

  /** The parameter search of getParameterType: every method named `m` is searched in
      registration order, and the first one holding a parameter named `p` answers. */
  function ParameterTypeOf(methods: seq<MethodEntry>, m: string, p: string): (r: Option<string>)
    ensures r.None? <==>
              forall k :: 0 <= k < |methods| && methods[k].name == m ==>
                FirstType(methods[k].parameters, p).None?
  {
    if methods == [] then None
    else if methods[0].name == m && FirstType(methods[0].parameters, p).Some? then
      FirstType(methods[0].parameters, p)
    else ParameterTypeOf(methods[1..], m, p)
  }

  /** The answer comes from the first method named `m` that declares `p`. */
  lemma {:induction false} ParameterTypeOfAt(methods: seq<MethodEntry>, m: string, p: string, i: int)
    requires 0 <= i < |methods| && methods[i].name == m
    requires FirstType(methods[i].parameters, p).Some?
    requires forall j :: 0 <= j < i && methods[j].name == m ==> FirstType(methods[j].parameters, p).None?
    ensures ParameterTypeOf(methods, m, p) == FirstType(methods[i].parameters, p)
  {
    if i > 0 {
      ParameterTypeOfAt(methods[1..], m, p, i - 1);
    }
  }

  /** A method entry after ClassObject.addParameter(m, p): `p` is appended when the
      name matches. */
  function WithParameterAt(e: MethodEntry, m: string, p: Binding): MethodEntry
  {
    if e.name == m then e.(parameters := e.parameters + [p]) else e
  }

  /** The method list after ClassObject.addParameter(m, p). */
  function WithParameter(methods: seq<MethodEntry>, m: string, p: Binding): (r: seq<MethodEntry>)
    ensures |r| == |methods|
    ensures forall k :: 0 <= k < |methods| && methods[k].name != m ==> r[k] == methods[k]
    ensures forall k :: 0 <= k < |methods| && methods[k].name == m ==>
              r[k].name == m && r[k].returnType == methods[k].returnType
              && r[k].parameters == methods[k].parameters + [p]
  {
    seq(|methods|, k requires 0 <= k < |methods| => WithParameterAt(methods[k], m, p))
  }

  /** The first binding named `n` at index `i` answers the first-match scan. */
  lemma FirstTypeAt(bs: seq<Binding>, n: string, i: int)
    requires 0 <= i < |bs| && bs[i].name == n
    requires forall j :: 0 <= j < i ==> bs[j].name != n
    ensures FirstType(bs, n) == Some(bs[i].typ)
  {
  }

  /** The newest binding named `n` at index `i` answers the newest-first scan. */
  lemma LocalTypeAt(env: seq<Binding>, n: string, i: int)
    requires 0 <= i < |env| && env[i].name == n
    requires forall j :: i < j < |env| ==> env[j].name != n
    ensures LocalType(env, n) == Some(env[i].typ)
  {
  }

  /** Removal from a suffix: the element at `i` is kept or dropped, then the rest. */
  lemma RemoveNamesFrom(s: seq<Binding>, i: int, names: seq<string>)
    requires 0 <= i < |s|
    ensures RemoveNames(s[i..], names) ==
              (if s[i].name in names then [] else [s[i]]) + RemoveNames(s[i + 1..], names)
  {
    assert s[i..][1..] == s[i + 1..];
  }

  // ----- What addParameter does to the lookups -----

  /** First-match scan of a list with one more binding at its end. */
  lemma {:induction false} FirstTypeAppend(bs: seq<Binding>, p: Binding, q: string)
    ensures FirstType(bs + [p], q) ==
              if FirstType(bs, q).Some? then FirstType(bs, q)
              else if p.name == q then Some(p.typ) else None
  {
    if bs != [] {
      assert (bs + [p])[1..] == bs[1..] + [p];
      FirstTypeAppend(bs[1..], p, q);
    }
  }

  lemma WithParameterTail(ms: seq<MethodEntry>, m: string, p: Binding)
    requires ms != []
    ensures WithParameter(ms, m, p)[0] == WithParameterAt(ms[0], m, p)
    ensures WithParameter(ms, m, p)[1..] == WithParameter(ms[1..], m, p)
  {
  }

  /** addParameter changes no method name or return type, so getMethodReturnType and
      methodExists answer as before. */
  lemma AddParameterKeepsSignatures(ms: seq<MethodEntry>, m: string, p: Binding)
    ensures Signatures(WithParameter(ms, m, p)) == Signatures(ms)
    ensures forall x :: ReturnTypeOf(WithParameter(ms, m, p), x) == ReturnTypeOf(ms, x)
  {
  }

  /** addParameter leaves the parameter lookups of every other method name alone. */
  lemma {:induction false} AddParameterKeepsOtherMethods(
    ms: seq<MethodEntry>, m: string, p: Binding, other: string, q: string)
    requires other != m
    ensures ParameterTypeOf(WithParameter(ms, m, p), other, q) == ParameterTypeOf(ms, other, q)
  {
    if ms != [] {
      WithParameterTail(ms, m, p);
      AddParameterKeepsOtherMethods(ms[1..], m, p, other, q);
    }
  }

  /** Within the methods named `m`, lookups of any other parameter name are unchanged. */
  lemma {:induction false} AddParameterKeepsOtherParameters(
    ms: seq<MethodEntry>, m: string, p: Binding, q: string)
    requires q != p.name
    ensures ParameterTypeOf(WithParameter(ms, m, p), m, q) == ParameterTypeOf(ms, m, q)
  {
    if ms != [] {
      WithParameterTail(ms, m, p);
      FirstTypeAppend(ms[0].parameters, p, q);
      AddParameterKeepsOtherParameters(ms[1..], m, p, q);
    }
  }

  /** When some method is named `m` and none had a parameter named like `p`, the new
      parameter is found afterwards, with its own type. */
  lemma {:induction false} AddParameterIsFound(ms: seq<MethodEntry>, m: string, p: Binding)
    requires ReturnTypeOf(ms, m).Some?
    requires ParameterTypeOf(ms, m, p.name).None?
    ensures ParameterTypeOf(WithParameter(ms, m, p), m, p.name) == Some(p.typ)
  {
    if ms[0].name == m {
      FoundInFirst(ms, m, p);
    } else {
      WithParameterTail(ms, m, p);
      assert Signatures(ms)[1..] == Signatures(ms[1..]);
      AddParameterIsFound(ms[1..], m, p);
    }
  }

  lemma FoundInFirst(ms: seq<MethodEntry>, m: string, p: Binding)
    requires ms != [] && ms[0].name == m
    requires FirstType(ms[0].parameters, p.name).None?
    ensures ParameterTypeOf(WithParameter(ms, m, p), m, p.name) == Some(p.typ)
  {
    WithParameterTail(ms, m, p);
    FirstTypeAppend(ms[0].parameters, p, p.name);
  }

  /** The inner class ClassObject: a class's fields, methods and nested classes,
      each an ordered list that grows in place. */
  class ClassObject {
    const name: string
    var fields: seq<Binding>
    var methods: seq<MethodEntry>
    var nestedClasses: seq<string>

    constructor (name: string)
      ensures this.name == name
      ensures fields == [] && methods == [] && nestedClasses == []
    {
      this.name := name;
      fields, methods, nestedClasses := [], [], [];
    }

    method AddField(fieldName: string, fieldType: string)
      modifies this
      ensures fields == old(fields) + [Binding(fieldName, fieldType)]
      ensures methods == old(methods) && nestedClasses == old(nestedClasses)
    {
      fields := fields + [Binding(fieldName, fieldType)];
    }

    method AddMethod(methodName: string, returnType: string, parameters: seq<Binding>)
      modifies this
      ensures methods == old(methods) + [MethodEntry(methodName, returnType, parameters)]
      ensures fields == old(fields) && nestedClasses == old(nestedClasses)
    {
      methods := methods + [MethodEntry(methodName, returnType, parameters)];
    }

    /** Appends the parameter to every method named `methodName`, changing no other. */
    method AddParameter(methodName: string, parameterName: string, parameterType: string)
      modifies this
      ensures methods == WithParameter(old(methods), methodName, Binding(parameterName, parameterType))
      ensures fields == old(fields) && nestedClasses == old(nestedClasses)
    {
      var p := Binding(parameterName, parameterType);
      var i := 0;
      while i < |methods|
        invariant 0 <= i <= |methods| == |old(methods)|
        invariant forall k :: 0 <= k < i ==> methods[k] == WithParameterAt(old(methods)[k], methodName, p)
        invariant forall k :: i <= k < |methods| ==> methods[k] == old(methods)[k]
        invariant fields == old(fields) && nestedClasses == old(nestedClasses)
      {
        if methods[i].name == methodName {
          methods := methods[i := methods[i].(parameters := methods[i].parameters + [p])];
        }
        i := i + 1;
      }
    }

    method AddNestedClass(nestedClassName: string)
      modifies this
      ensures nestedClasses == old(nestedClasses) + [nestedClassName]
      ensures fields == old(fields) && methods == old(methods)
    {
      nestedClasses := nestedClasses + [nestedClassName];
    }
  }

  // ----- removeLocals exactly as written -----

  /** The inner backward loop of removeLocals for one name `l`, from index `i` down:
      `env` (this.locals) is only read; the removals hit `frame`, the argument list,
      through `locals.remove(i)`. `modified` records any removal. */
  function AsWrittenInner(env: seq<Binding>, l: string, frame: seq<string>, i: int, modified: bool)
    : (r: Outcome<(seq<string>, bool)>)
    requires -1 <= i < |env|
    ensures r.Returned? && !r.value.1 ==> !modified && r.value.0 == frame
    ensures r.Returned? && modified ==> r.value.1
    ensures r.Threw? ==> r.exception == IndexOutOfBounds
    ensures (forall k :: 0 <= k <= i ==> env[k].name != l) ==> r == Returned((frame, modified))
    decreases i + 1
  {
    if i < 0 then Returned((frame, modified))
    else if env[i].name == l then
      if i < |frame| then AsWrittenInner(env, l, frame[..i] + frame[i + 1..], i - 1, true)
      else Threw(IndexOutOfBounds)
    else AsWrittenInner(env, l, frame, i - 1, modified)
  }

  /** The outer for-each of removeLocals over the argument list, with the ArrayList
      iterator's rules: it continues while its cursor differs from the list's size, and
      fetching the next element throws once the list has been structurally changed. */
  function AsWrittenOuter(env: seq<Binding>, frame: seq<string>, cursor: nat, modified: bool)
    : (r: Outcome<()>)
    requires !modified ==> cursor <= |frame|
    ensures r.Threw? ==> r.exception == IndexOutOfBounds || r.exception == ConcurrentModification
    ensures !modified && (forall k :: 0 <= k < |env| ==> env[k].name !in frame[cursor..]) ==>
              r == Returned(())
    decreases if modified then 0 else |frame| - cursor + 1
  {
    if cursor == |frame| then Returned(())
    else if modified then Threw(ConcurrentModification)
    else
      match AsWrittenInner(env, frame[cursor], frame, |env| - 1, false)
      case Threw(e) => Threw(e)
      case Returned((frame', modified')) => AsWrittenOuter(env, frame', cursor + 1, modified')
  }

  /** The whole class: SymbolTable with its two pieces of state. */
  class SymbolTable {
    var locals: seq<Binding>
    var classes: map<string, ClassObject>

    constructor ()
      ensures locals == [] && classes == map[]
    {
      locals, classes := [], map[];
    }

    predicate ClassExists(className: string)
      reads this
    {
      className in classes
    }

    method GetFieldType(className: string, fieldName: string) returns (t: Option<string>)
      requires className in classes
      ensures t == FirstType(classes[className].fields, fieldName)
    {
      var fields := classes[className].fields;
      var i := 0;
      while i < |fields|
        invariant 0 <= i <= |fields|
        invariant forall j :: 0 <= j < i ==> fields[j].name != fieldName
      {
        if fields[i].name == fieldName {
          FirstTypeAt(fields, fieldName, i);
          return Some(fields[i].typ);
        }
        i := i + 1;
      }
      return None;
    }

    method FieldExists(className: string, fieldName: string) returns (b: bool)
      requires className in classes
      ensures b <==> FirstType(classes[className].fields, fieldName).Some?
    {
      var fields := classes[className].fields;
      var i := 0;
      while i < |fields|
        invariant 0 <= i <= |fields|
        invariant forall j :: 0 <= j < i ==> fields[j].name != fieldName
      {
        if fields[i].name == fieldName {
          return true;
        }
        i := i + 1;
      }
      return false;
    }

    method GetMethodReturnType(className: string, methodName: string) returns (t: Option<string>)
      requires className in classes
      ensures t == ReturnTypeOf(classes[className].methods, methodName)
    {
      var methods := classes[className].methods;
      var i := 0;
      while i < |methods|
        invariant 0 <= i <= |methods|
        invariant forall j :: 0 <= j < i ==> methods[j].name != methodName
      {
        if methods[i].name == methodName {
          FirstTypeAt(Signatures(methods), methodName, i);
          return Some(methods[i].returnType);
        }
        i := i + 1;
      }
      return None;
    }

    method MethodExists(className: string, methodName: string) returns (b: bool)
      requires className in classes
      ensures b <==> ReturnTypeOf(classes[className].methods, methodName).Some?
    {
      var methods := classes[className].methods;
      var i := 0;
      while i < |methods|
        invariant 0 <= i <= |methods|
        invariant forall j :: 0 <= j < i ==> methods[j].name != methodName
      {
        if methods[i].name == methodName {
          return true;
        }
        i := i + 1;
      }
      return false;
    }

    method GetParameterType(className: string, methodName: string, paramName: string)
      returns (t: Option<string>)
      requires className in classes
      ensures t == ParameterTypeOf(classes[className].methods, methodName, paramName)
    {
      var methods := classes[className].methods;
      var i := 0;
      while i < |methods|
        invariant 0 <= i <= |methods|
        invariant forall j :: 0 <= j < i && methods[j].name == methodName ==>
                    FirstType(methods[j].parameters, paramName).None?
      {
        if methods[i].name == methodName {
          var params := methods[i].parameters;
          var k := 0;
          while k < |params|
            invariant 0 <= k <= |params|
            invariant forall j :: 0 <= j < k ==> params[j].name != paramName
          {
            if params[k].name == paramName {
              FirstTypeAt(params, paramName, k);
              ParameterTypeOfAt(methods, methodName, paramName, i);
              return Some(params[k].typ);
            }
            k := k + 1;
          }
        }
        i := i + 1;
      }
      return None;
    }

    method ParameterExists(className: string, methodName: string, paramName: string)
      returns (b: bool)
      requires className in classes
      ensures b <==> ParameterTypeOf(classes[className].methods, methodName, paramName).Some?
    {
      var methods := classes[className].methods;
      var i := 0;
      while i < |methods|
        invariant 0 <= i <= |methods|
        invariant forall j :: 0 <= j < i && methods[j].name == methodName ==>
                    FirstType(methods[j].parameters, paramName).None?
      {
        if methods[i].name == methodName {
          var params := methods[i].parameters;
          var k := 0;
          while k < |params|
            invariant 0 <= k <= |params|
            invariant forall j :: 0 <= j < k ==> params[j].name != paramName
          {
            if params[k].name == paramName {
              return true;
            }
            k := k + 1;
          }
        }
        i := i + 1;
      }
      return false;
    }

    method GetLocalType(name: string) returns (t: Option<string>)
      ensures t == LocalType(locals, name)
    {
      var i := |locals| - 1;
      while i >= 0
        invariant -1 <= i < |locals|
        invariant forall j :: i < j < |locals| ==> locals[j].name != name
      {
        if locals[i].name == name {
          LocalTypeAt(locals, name, i);
          return Some(locals[i].typ);
        }
        i := i - 1;
      }
      return None;
    }

    method LocalExists(name: string) returns (b: bool)
      ensures b <==> LocalType(locals, name).Some?
    {
      var i := |locals| - 1;
      while i >= 0
        invariant -1 <= i < |locals|
        invariant forall j :: i < j < |locals| ==> locals[j].name != name
      {
        if locals[i].name == name {
          return true;
        }
        i := i - 1;
      }
      return false;
    }

    /** addLocal: an invalid token throws and leaves the environment alone; a valid one
        becomes the newest binding and the call returns true. */
    method AddLocal(name: string, typ: string) returns (r: Outcome<bool>)
      modifies this
      ensures r == if TypeTokens.IsValidType(typ) then Returned(true) else Threw(IllegalArgument)
      ensures locals == match Bind(old(locals), name, typ)
                        case Returned(env) => env
                        case Threw(_) => old(locals)
      ensures classes == old(classes)
    {
      if !TypeTokens.IsValidType(typ) {
        return Threw(IllegalArgument);
      }
      locals := locals + [Binding(name, typ)];
      return Returned(true);
    }

    /** removeLocals as intended: every binding carrying one of `names` is removed.
        The outer loop walks `names`; the inner loop of each step is RemoveLocal. */
    method RemoveLocals(names: seq<string>)
      modifies this
      ensures locals == RemoveNames(old(locals), names)
      ensures classes == old(classes)
    {
      ghost var env := locals;
      var n := 0;
      RemoveNamesNone(env, names[..0]);
      while n < |names|
        invariant 0 <= n <= |names|
        invariant locals == RemoveNames(env, names[..n])
        invariant classes == old(classes)
      {
        ghost var done := names[..n];
        RemoveLocal(names[n]);
        RemoveNamesTwice(env, done, [names[n]]);
        assert done + [names[n]] == names[..n + 1];
        n := n + 1;
      }
      assert names[..n] == names;
    }

    /** One step of removeLocals: every binding named `l` is removed, scanning
        backward so that a removal never makes the scan skip an entry. */
    method RemoveLocal(l: string)
      modifies this
      ensures locals == RemoveNames(old(locals), [l])
      ensures classes == old(classes)
    {
      var i := |locals| - 1;
      while i >= 0
        invariant -1 <= i < |old(locals)|
        invariant locals == old(locals)[..i + 1] + RemoveNames(old(locals)[i + 1..], [l])
        invariant classes == old(classes)
      {
        ghost var before := old(locals);
        RemoveNamesFrom(before, i, [l]);
        assert locals[..i] == before[..i] && locals[i] == before[i];
        assert locals[i + 1..] == RemoveNames(before[i + 1..], [l]);
        if locals[i].name == l {
          locals := locals[..i] + locals[i + 1..];
        } else {
          assert before[..i + 1] == before[..i] + [before[i]];
        }
        i := i - 1;
      }
      assert old(locals)[0..] == old(locals);
    }

    /** removeLocals exactly as written: `locals.remove(i)` names the parameter, which
        shadows the field, so this.locals is never changed (this method modifies
        nothing); the call may throw from the argument list's own bookkeeping. */
    method RemoveLocalsAsWritten(names: seq<string>) returns (r: Outcome<()>)
      ensures r == AsWrittenOuter(locals, names, 0, false)
    {
      var frame := names;
      var cursor := 0;
      var modified := false;
      while cursor != |frame|
        invariant !modified ==> cursor <= |frame|
        invariant AsWrittenOuter(locals, frame, cursor, modified) == AsWrittenOuter(locals, names, 0, false)
        decreases if modified then 0 else |frame| - cursor + 1
      {
        if modified {
          return Threw(ConcurrentModification);
        }
        var l := frame[cursor];
        ghost var frame0 := frame;
        ghost var cursor0 := cursor;
        cursor := cursor + 1;
        var i := |locals| - 1;
        while i >= 0
          invariant -1 <= i < |locals|
          invariant !modified ==> frame == frame0
          invariant AsWrittenInner(locals, l, frame, i, modified) == AsWrittenInner(locals, l, frame0, |locals| - 1, false)
          decreases i + 1
        {
          if locals[i].name == l {
            if i >= |frame| {
              return Threw(IndexOutOfBounds);
            }
            frame := frame[..i] + frame[i + 1..];
            modified := true;
          }
          i := i - 1;
        }
      }
      return Returned(());
    }

    /** addClass: (re)registers `className` with an empty record; other classes and
        the local environment are untouched. */
    method AddClass(className: string)
      modifies this
      ensures ClassExists(className) && fresh(classes[className])
      ensures classes[className].name == className
      ensures classes[className].fields == [] && classes[className].methods == []
      ensures classes[className].nestedClasses == []
      ensures classes.Keys == old(classes.Keys) + {className}
      ensures forall c :: c in old(classes) && c != className ==> classes[c] == old(classes[c])
      ensures locals == old(locals)
    {
      var record := new ClassObject(className);
      classes := classes[className := record];
    }
  }

  // ----- removeLocals: intended against as written -----

  /** The intended removal drops at least one binding whenever a listed name is bound,
      while the as-written method changes nothing. */
  lemma IntendedRemovalShrinks(env: seq<Binding>, names: seq<string>, k: int)
    requires 0 <= k < |env| && env[k].name in names
    ensures |RemoveNames(env, names)| < |env|
    ensures LocalType(RemoveNames(env, names), env[k].name).None?
  {
    LocalTypeAfterRemove(env, names, env[k].name);
    if |RemoveNames(env, names)| == |env| {
      RemoveNamesMembers(env, names, env[k]);
      RemoveNamesFullLength(env, names);
    }
  }

  lemma {:induction false} RemoveNamesFullLength(env: seq<Binding>, names: seq<string>)
    requires |RemoveNames(env, names)| == |env|
    ensures RemoveNames(env, names) == env
  {
    if env != [] {
      assert |RemoveNames(env[1..], names)| <= |env| - 1;
      RemoveNamesFullLength(env[1..], names);
    }
  }

  /** On concrete inputs, removeLocals as written: with the single binding x:int and the
      block frame ["x", "b"], the call returns normally (the argument list shrinks to
      the iterator's cursor, so no exception is raised), yet x stays bound; the intended
      removal leaves no binding. */
  lemma RemoveLocalsAsWrittenKeepsBinding()
    ensures AsWrittenOuter([Binding("x", "int")], ["x", "b"], 0, false) == Returned(())
    ensures LocalType([Binding("x", "int")], "x") == Some("int")
    ensures RemoveNames([Binding("x", "int")], ["x", "b"]) == []
  {
    var env := [Binding("x", "int")];
    assert AsWrittenInner(env, "x", ["x", "b"], 0, false) == Returned((["b"], true)) by {
      assert ["x", "b"][..0] + ["x", "b"][1..] == ["b"];
    }
  }

  /** With a single-name frame the as-written call throws instead: after the removal
      the iterator's cursor passes the shrunken list and the next fetch fails. */
  lemma RemoveLocalsAsWrittenThrows()
    ensures AsWrittenOuter([Binding("x", "int")], ["x"], 0, false) == Threw(ConcurrentModification)
  {
    var env := [Binding("x", "int")];
    assert AsWrittenInner(env, "x", ["x"], 0, false) == Returned(([], true)) by {
      assert ["x"][..0] + ["x"][1..] == [];
    }
  }
  /** The ordinary case of a nested block: an outer local `a` and the block's own `x`.
      The inner loop finds `x` at index 1 of this.locals and removes index 1 from the
      one-element argument list, which throws IndexOutOfBoundsException; the intended
      removal leaves just `a`. */
  lemma RemoveLocalsAsWrittenOutOfBounds()
    ensures AsWrittenOuter([Binding("a", "int"), Binding("x", "int")], ["x"], 0, false)
              == Threw(IndexOutOfBounds)
    ensures RemoveNames([Binding("a", "int"), Binding("x", "int")], ["x"]) == [Binding("a", "int")]
  {
    var env := [Binding("a", "int"), Binding("x", "int")];
    assert AsWrittenInner(env, "x", ["x"], 1, false) == Threw(IndexOutOfBounds);
  }

}
