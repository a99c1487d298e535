/** When expanding a type fails: exactly when a struct contains itself, and the failure names the chain. */
module AbiCycles {
  import opened AbiTypes
  import opened ArraySuffix
  import opened Results

  /** The name left once all aliases are followed and array suffixes dropped. */
  ghost function Resolve(defs: Table, rank: string -> nat, t: string): string
    requires Acyclic(defs, rank)
    decreases rank(Base(t))
  {
    var base := Base(t);
    if base in defs && defs[base].Alias? then Resolve(defs, rank, defs[base].target) else base
  }

  /** A chain of structs from a type on, each naming the next as the type of one of its fields. */
  ghost predicate Chain(defs: Table, rank: string -> nat, t: string, p: seq<string>)
    requires Acyclic(defs, rank)
    decreases |p|
  {
    p == [] ||
    (&& p[0] == Resolve(defs, rank, t) && p[0] in defs && defs[p[0]].Struct?
     && (|p| == 1 || exists i :: 0 <= i < |defs[p[0]].fields| && Chain(defs, rank, TypeOfField(defs[p[0]].fields[i]), p[1..])))
  }

  predicate Repeats(p: seq<string>) {
    exists i, j :: 0 <= i < j < |p| && p[i] == p[j]
  }

  /** No name of `p` is on the stack when it is reached. */
  predicate AllNew(stack: seq<string>, p: seq<string>)
    decreases |p|
  {
    p == [] || (p[0] !in stack && AllNew(stack + [p[0]], p[1..]))
  }

  lemma {:induction false} AllNewElements(stack: seq<string>, p: seq<string>)
    requires AllNew(stack, p)
    ensures forall i :: 0 <= i < |p| ==> p[i] !in stack
    ensures !Repeats(p)
    decreases |p|
  {
    if p != [] {
      AllNewElements(stack + [p[0]], p[1..]);
      assert p[0] in stack + [p[0]];
      assert forall i :: 0 < i < |p| ==> p[i] == p[1..][i - 1];
    }
  }

  /** A member that fails to expand. */
  lemma {:induction false} FailingMember(defs: Table, rank: string -> nat, fields: seq<string>, stack: seq<string>) returns (k: nat)
    requires Acyclic(defs, rank) && ExpandAll(defs, rank, fields, stack).Err?
    ensures k < |fields|
    ensures ExpandType(defs, rank, TypeOfField(fields[k]), stack) == Err(ExpandAll(defs, rank, fields, stack).error)
    decreases |fields|
  {
    hide ExpandType;
    if ExpandType(defs, rank, TypeOfField(fields[0]), stack).Err? {
      k := 0;
    } else {
      var j := FailingMember(defs, rank, fields[1..], stack);
      k := j + 1;
    }
  }

  lemma {:induction false} EveryMemberExpands(defs: Table, rank: string -> nat, fields: seq<string>, stack: seq<string>, k: nat)
    requires Acyclic(defs, rank) && ExpandAll(defs, rank, fields, stack).Ok? && k < |fields|
    ensures ExpandType(defs, rank, TypeOfField(fields[k]), stack) == Ok(ExpandAll(defs, rank, fields, stack).value[k])
    decreases |fields|
  {
    hide ExpandType;
    if k > 0 {
      EveryMemberExpands(defs, rank, fields[1..], stack, k - 1);
    }
  }

  /** A failure reports a genuine chain: the stack, then structs reached from the type one inside the other,
      the last of which has been met before. */
  lemma {:induction false} FailureNamesChain(defs: Table, rank: string -> nat, t: string, stack: seq<string>, path: seq<string>)
    requires Acyclic(defs, rank) && ExpandType(defs, rank, t, stack) == Err(path)
    ensures |stack| < |path| && path[..|stack|] == stack
    ensures Chain(defs, rank, t, path[|stack|..])
    ensures path[|path| - 1] in path[..|path| - 1]
    decreases |Unopened(defs, stack)|, rank(Base(t))
  {
    var name := Base(t);
    assert ExpandName(defs, rank, name, stack) == Err(path);
    hide Base, Suffix, ExpandType, ExpandAll;
    match defs[name]
    case Alias(target) =>
      FailureNamesChain(defs, rank, target, stack, path);
    case Struct(fields) =>
      if name in stack {
        assert path[|stack|..] == [name];
      } else {
        OpeningShrinks(defs, stack, name);
        var k := FailingMember(defs, rank, fields, stack + [name]);
        FailureNamesChain(defs, rank, TypeOfField(fields[k]), stack + [name], path);
        var p := path[|stack|..];
        assert p[0] == path[..|stack| + 1][|stack|] == name;
        assert p[1..] == path[|stack + [name]|..];
        assert path[..|stack|] == path[..|stack| + 1][..|stack|] == stack;
      }
  }

  /** A type that expands has only chains that never meet a struct twice, nor one on the stack. */
  lemma {:induction false} ExpandedHasNoRepeats(defs: Table, rank: string -> nat, t: string, stack: seq<string>, p: seq<string>)
    requires Acyclic(defs, rank) && ExpandType(defs, rank, t, stack).Ok? && Chain(defs, rank, t, p)
    ensures AllNew(stack, p)
    decreases |p|, rank(Base(t))
  {
    if p != [] {
      var name := Base(t);
      assert ExpandName(defs, rank, name, stack).Ok?;
      hide Base, Suffix, ExpandType, ExpandAll;
      match defs[name]
      case Alias(target) =>
        ExpandedHasNoRepeats(defs, rank, target, stack, p);
      case Struct(fields) =>
        assert p[0] == name;
        if 1 < |p| {
          var i :| 0 <= i < |fields| && Chain(defs, rank, TypeOfField(fields[i]), p[1..]);
          EveryMemberExpands(defs, rank, fields, stack + [name], i);
          ExpandedHasNoRepeats(defs, rank, TypeOfField(fields[i]), stack + [name], p[1..]);
        }
    }
  }

  /** Expanding a type fails exactly when some struct in it contains itself. */
  lemma FailsExactlyOnRecursion(defs: Table, rank: string -> nat, t: string)
    requires Acyclic(defs, rank)
    ensures ExpandType(defs, rank, t, []).Err? <==> exists p :: Chain(defs, rank, t, p) && Repeats(p)
  {
    var r := ExpandType(defs, rank, t, []);
    hide ExpandType, Chain;
    if r.Err? {
      FailureNamesChain(defs, rank, t, [], r.error);
      var p := r.error;
      assert p[0..] == p;
      var i :| 0 <= i < |p| - 1 && p[i] == p[|p| - 1];
      assert Repeats(p);
    } else {
      forall p | Chain(defs, rank, t, p)
        ensures !Repeats(p)
      {
        ExpandedHasNoRepeats(defs, rank, t, [], p);
        AllNewElements([], p);
      }
    }
  }
}
