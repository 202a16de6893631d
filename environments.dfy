/** Name/type pairs (the `Pair<String, String>` of SymbolTable) and the two scans the
    symbol table runs over lists of them: newest-first for locals, oldest-first for
    fields and parameters. Names and types are compared by value. */
module Environments {
  import opened Outcomes
  import TypeTokens

  datatype Binding = Binding(name: string, typ: string)

  /** The type of the most recently added binding named `n` (nearest-scope shadowing). */
  function LocalType(env: seq<Binding>, n: string): (r: Option<string>)
    ensures r.None? <==> forall k :: 0 <= k < |env| ==> env[k].name != n
    ensures r.Some? ==>
              exists k :: 0 <= k < |env| && env[k] == Binding(n, r.value)
                          && forall j :: k < j < |env| ==> env[j].name != n
  {
    if env == [] then None
    else if env[|env| - 1].name == n then Some(env[|env| - 1].typ)
    else LocalType(env[..|env| - 1], n)
  }

  /** The type of the first binding named `n` (first registered entry wins). */
  function FirstType(bs: seq<Binding>, n: string): (r: Option<string>)
    ensures r.None? <==> forall k :: 0 <= k < |bs| ==> bs[k].name != n
    ensures r.Some? ==>
              exists k :: 0 <= k < |bs| && bs[k] == Binding(n, r.value)
                          && forall j :: 0 <= j < k ==> bs[j].name != n
  {
    if bs == [] then None
    else if bs[0].name == n then Some(bs[0].typ)
    else FirstType(bs[1..], n)
  }

  /** Binding `n` to `t` (SymbolTable.addLocal on a list): an invalid token throws
      IllegalArgumentException; otherwise the pair is appended as the newest binding. */
  function Bind(env: seq<Binding>, n: string, t: string): (r: Outcome<seq<Binding>>)
    ensures r.Returned? <==> TypeTokens.IsValidType(t)
    ensures r.Threw? ==> r.exception == IllegalArgument
    ensures r.Returned? ==> |r.value| == |env| + 1 && r.value[..|env|] == env
    ensures r.Returned? ==> r.value[|env|] == Binding(n, t)
    ensures r.Returned? ==> LocalType(r.value, n) == Some(t)
  {
    if TypeTokens.IsValidType(t) then Returned(env + [Binding(n, t)]) else Threw(IllegalArgument)
  }

  /** The bindings whose name is not listed in `names`, in their original order. */
  function RemoveNames(env: seq<Binding>, names: seq<string>): (r: seq<Binding>)
    ensures |r| <= |env|
  {
    if env == [] then []
    else (if env[0].name in names then [] else [env[0]]) + RemoveNames(env[1..], names)
  }

  /** Exactly the bindings with an unlisted name survive removal. */
  lemma {:induction false} RemoveNamesMembers(env: seq<Binding>, names: seq<string>, b: Binding)
    ensures b in RemoveNames(env, names) <==> b in env && b.name !in names
  {
    if env != [] {
      RemoveNamesMembers(env[1..], names, b);
      assert env == [env[0]] + env[1..];
    }
  }

  /** Removal distributes over concatenation, so the kept bindings keep their order. */
  lemma {:induction false} RemoveNamesAppend(a: seq<Binding>, b: seq<Binding>, names: seq<string>)
    ensures RemoveNames(a + b, names) == RemoveNames(a, names) + RemoveNames(b, names)
  {
    if a != [] {
      assert (a + b)[1..] == a[1..] + b;
      RemoveNamesAppend(a[1..], b, names);
    } else {
      assert a + b == b;
    }
  }

  /** Removing one list of names and then another removes their concatenation. */
  lemma {:induction false} RemoveNamesTwice(env: seq<Binding>, xs: seq<string>, ys: seq<string>)
    ensures RemoveNames(RemoveNames(env, xs), ys) == RemoveNames(env, xs + ys)
  {
    if env != [] {
      RemoveNamesTwice(env[1..], xs, ys);
      var head := if env[0].name in xs then [] else [env[0]];
      RemoveNamesAppend(head, RemoveNames(env[1..], xs), ys);
      if env[0].name !in xs {
        assert RemoveNames(head, ys) == (if env[0].name in ys then [] else [env[0]]) by {
          assert head[1..] == [];
        }
      }
    }
  }

  /** Only which names are listed matters, not their order or repetition. */
  lemma {:induction false} RemoveNamesSameNames(env: seq<Binding>, xs: seq<string>, ys: seq<string>)
    requires forall n :: n in xs <==> n in ys
    ensures RemoveNames(env, xs) == RemoveNames(env, ys)
  {
    if env != [] {
      RemoveNamesSameNames(env[1..], xs, ys);
    }
  }

  /** Two removals can be done in either order. */
  lemma RemoveNamesCommute(env: seq<Binding>, xs: seq<string>, ys: seq<string>)
    ensures RemoveNames(RemoveNames(env, xs), ys) == RemoveNames(RemoveNames(env, ys), xs)
  {
    RemoveNamesTwice(env, xs, ys);
    RemoveNamesTwice(env, ys, xs);
    RemoveNamesSameNames(env, xs + ys, ys + xs);
  }

  /** Nothing is removed when no binding carries a listed name. */
  lemma {:induction false} RemoveNamesNone(env: seq<Binding>, names: seq<string>)
    requires forall k :: 0 <= k < |env| ==> env[k].name !in names
    ensures RemoveNames(env, names) == env
  {
    if env != [] {
      RemoveNamesNone(env[1..], names);
    }
  }

  /** Everything is removed when every binding carries a listed name. */
  lemma {:induction false} RemoveNamesAll(env: seq<Binding>, names: seq<string>)
    requires forall k :: 0 <= k < |env| ==> env[k].name in names
    ensures RemoveNames(env, names) == []
  {
    if env != [] {
      RemoveNamesAll(env[1..], names);
    }
  }

  /** After removal a listed name is unbound, and every other name still resolves
      to the type it resolved to before. */
  lemma {:induction false} LocalTypeAfterRemove(env: seq<Binding>, names: seq<string>, n: string)
    ensures LocalType(RemoveNames(env, names), n) == if n in names then None else LocalType(env, n)
  {
    if env != [] {
      var init, last := env[..|env| - 1], env[|env| - 1];
      assert env == init + [last];
      RemoveNamesAppend(init, [last], names);
      LocalTypeAfterRemove(init, names, n);
      var kept := if last.name in names then [] else [last];
      assert RemoveNames([last], names) == kept by {
        assert [last][1..] == [];
      }
      var r := RemoveNames(init, names) + kept;
      if kept != [] {
        assert r[..|r| - 1] == RemoveNames(init, names);
      } else {
        assert r == RemoveNames(init, names);
      }
    }
  }
}
