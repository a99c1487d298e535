/** Canonical signatures: printing the expanded argument types and reading them back. */
module CanonicalSignature {
  import opened AbiTypes
  import AbiCycles
  import opened ArraySuffix
  import opened Results
  import opened Signatures

  function ExpandItems(defs: Table, ghost rank: string -> nat, items: seq<string>): (r: Result<seq<string>, seq<string>>)
    requires Acyclic(defs, rank)
    ensures r.Ok? ==> |r.value| == |items|
  {
    if items == [] then Ok([])
    else
      var first := ExpandType(defs, rank, items[0], []);
      if first.Err? then Err(first.error)
      else
        var rest := ExpandItems(defs, rank, items[1..]);
        if rest.Err? then rest else Ok([first.value] + rest.value)
  }

  function Print(name: string, types: seq<string>): string {
    name + "(" + Join(types) + ")"
  }

  /** None when the signature has no parenthesis. */
  function Canonical(defs: Table, ghost rank: string -> nat, signature: string): Option<Expansion>
    requires Acyclic(defs, rank)
  {
    var parsed := ParseSignature(signature);
    if parsed.None? then None
    else
      var expanded := ExpandItems(defs, rank, Split(parsed.value.1));
      Some(if expanded.Err? then Err(expanded.error) else Ok(Print(parsed.value.0, expanded.value)))
  }

  // ---------------------------------------------------------------- nesting

  /** Reading from the given depth: never below zero, no comma at zero, back to zero at the end. */
  predicate Nested(s: string, depth: nat) {
    if s == "" then depth == 0
    else !(s[0] == ',' && depth == 0) && Shift(depth, s[0]) >= 0 && Nested(s[1..], Shift(depth, s[0]))
  }

  lemma {:induction false} NestedIsSeparable(s: string, depth: nat)
    requires Nested(s, depth)
    ensures NoTopComma(s, depth) && Depth(s, depth) == 0
  {
    if s != "" {
      NestedIsSeparable(s[1..], Shift(depth, s[0]));
    }
  }

  /** A nested text may stand in front of another at any depth. */
  lemma {:induction false} NestedInFront(s: string, depth: nat, rest: string, outer: nat)
    requires Nested(s, depth) && Nested(rest, outer)
    ensures Nested(s + rest, depth + outer)
  {
    if s == "" {
      assert s + rest == rest;
    } else {
      assert (s + rest)[1..] == s[1..] + rest;
      NestedInFront(s[1..], Shift(depth, s[0]), rest, outer);
    }
  }

  lemma {:induction false} JoinNestsInside(parts: seq<string>, rest: string)
    requires forall i :: 0 <= i < |parts| ==> Nested(parts[i], 0)
    requires Nested(rest, 1)
    ensures Nested(Join(parts) + rest, 1)
  {
    if parts == [] {
      assert Join(parts) + rest == rest;
    } else if |parts| == 1 {
      NestedInFront(parts[0], 0, rest, 1);
    } else {
      var tail := Join(parts[1..]) + rest;
      JoinNestsInside(parts[1..], rest);
      assert ("," + tail)[1..] == tail;
      NestedInFront(parts[0], 0, "," + tail, 1);
      assert Join(parts) + rest == parts[0] + ("," + tail);
    }
  }

  /** A tuple of nested texts is nested. */
  lemma TupleNests(parts: seq<string>)
    requires forall i :: 0 <= i < |parts| ==> Nested(parts[i], 0)
    ensures Nested("(" + Join(parts) + ")", 0)
  {
    assert ")"[1..] == "";
    assert Nested(")", 1);
    JoinNestsInside(parts, ")");
    assert ("(" + Join(parts) + ")")[1..] == Join(parts) + ")";
  }

  /** A name free of brackets and commas. */
  predicate Plain(s: string) {
    forall c :: c in s ==> c != '(' && c != '[' && c != ')' && c != ']' && c != ','
  }

  lemma {:induction false} PlainInFront(name: string, rest: string)
    requires Plain(name)
    ensures Nested(name + rest, 0) <==> Nested(rest, 0)
  {
    if name == "" {
      assert name + rest == rest;
    } else {
      assert (name + rest)[1..] == name[1..] + rest;
      assert name[0] in name;
      assert forall d :: d in name[1..] ==> d in name;
      PlainInFront(name[1..], rest);
    }
  }

  /** A type text that nests properly and opens every bracket its suffix closes. */
  predicate Proper(t: string) {
    Nested(t, 0) && WellBracketed(t)
  }

  /** Names are plain, and every type text in the table is proper. */
  ghost predicate ProperTable(defs: Table) {
    forall name :: name in defs ==>
      && Plain(name)
      && match defs[name]
         case Alias(target) => Proper(target)
         case Struct(fields) => forall i :: 0 <= i < |fields| ==> Proper(TypeOfField(fields[i]))
  }

  // ---------------------------------------------------------------- expansions are canonical and nested

  /** A text that no table entry and no suffix touches. */
  lemma TupleStays(defs: Table, rank: string -> nat, inside: string, stack: seq<string>)
    requires Acyclic(defs, rank) && ProperTable(defs)
    ensures ExpandType(defs, rank, "(" + inside + ")", stack) == Ok("(" + inside + ")")
  {
    var tuple := "(" + inside + ")";
    StripOnce(tuple);
    hide Base, Suffix, ExpandAll;
    assert tuple[0] == '(' && '(' in tuple;
    assert tuple + "" == tuple;
  }

  /** What a type expands to expands to itself, whatever is on the stack. */
  lemma {:induction false} ExpansionIsFinal(defs: Table, rank: string -> nat, t: string, stack: seq<string>, later: seq<string>)
    requires Acyclic(defs, rank) && ProperTable(defs) && WellBracketed(t)
    requires ExpandType(defs, rank, t, stack).Ok?
    ensures ExpandType(defs, rank, ExpandType(defs, rank, t, stack).value, later) == ExpandType(defs, rank, t, stack)
    decreases rank(Base(t))
  {
    var name := Base(t);
    StripParts(t);
    var named := ExpandName(defs, rank, name, stack);
    hide Base, Suffix, ExpandAll, Proper;
    if name in defs {
      match defs[name] {
        case Alias(target) =>
          ProperTarget(defs, name);
          ExpansionIsFinal(defs, rank, target, stack, later);
        case Struct(fields) =>
          TupleStays(defs, rank, Join(ExpandAll(defs, rank, fields, stack + [name]).value), later);
      }
      ExpandStacks(defs, rank, named.value, t, later);
    }
  }

  lemma ProperTarget(defs: Table, name: string)
    requires ProperTable(defs) && name in defs && defs[name].Alias?
    ensures Proper(defs[name].target) && WellBracketed(defs[name].target)
  {
  }

  /** Expansion keeps types nested. */
  lemma {:induction false} ExpansionNests(defs: Table, rank: string -> nat, t: string, stack: seq<string>)
    requires Acyclic(defs, rank) && ProperTable(defs) && Nested(t, 0)
    requires ExpandType(defs, rank, t, stack).Ok?
    ensures Nested(ExpandType(defs, rank, t, stack).value, 0)
    decreases |Unopened(defs, stack)|, 0, rank(Base(t))
  {
    var name, suffix := Base(t), Suffix(t);
    StripParts(t);
    hide Base, Suffix, Nested, ExpandAll;
    if name in defs {
      PlainInFront(name, suffix);
      var named := ExpandName(defs, rank, name, stack);
      match defs[name]
      case Alias(target) =>
        ExpansionNests(defs, rank, target, stack);
        NestedInFront(named.value, 0, suffix, 0);
      case Struct(fields) =>
        OpeningShrinks(defs, stack, name);
        MembersNest(defs, rank, fields, stack + [name]);
        TupleNests(ExpandAll(defs, rank, fields, stack + [name]).value);
        NestedInFront(named.value, 0, suffix, 0);
    }
  }

  lemma {:induction false} MembersNest(defs: Table, rank: string -> nat, fields: seq<string>, stack: seq<string>)
    requires Acyclic(defs, rank) && ProperTable(defs)
    requires forall i :: 0 <= i < |fields| ==> Proper(TypeOfField(fields[i]))
    requires ExpandAll(defs, rank, fields, stack).Ok?
    ensures forall i :: 0 <= i < |fields| ==> Nested(ExpandAll(defs, rank, fields, stack).value[i], 0)
    decreases |Unopened(defs, stack)|, 1
  {
    hide ExpandAll, ExpandType, Nested;
    forall i | 0 <= i < |fields|
      ensures Nested(ExpandAll(defs, rank, fields, stack).value[i], 0)
    {
      AbiCycles.EveryMemberExpands(defs, rank, fields, stack, i);
      ExpansionNests(defs, rank, TypeOfField(fields[i]), stack);
    }
  }

  // ---------------------------------------------------------------- reading back

  /** A join of nested texts is split where it was joined; only the list of one empty text is lost. */
  lemma NestedSplits(parts: seq<string>)
    requires forall i :: 0 <= i < |parts| ==> Nested(parts[i], 0)
    ensures Split(Join(parts)) == parts <==> parts != [""]
  {
    forall i | 0 <= i < |parts|
      ensures NoTopComma(parts[i], 0) && Depth(parts[i], 0) == 0
    {
      NestedIsSeparable(parts[i], 0);
    }
    SplitOfJoin(parts);
  }

  /** The inside of an expanded struct splits into the expansions of its fields. */
  lemma TupleReadsBack(defs: Table, rank: string -> nat, name: string, stack: seq<string>)
    requires Acyclic(defs, rank) && ProperTable(defs) && name in defs && defs[name].Struct?
    requires ExpandName(defs, rank, name, stack).Ok?
    ensures
      var members := ExpandAll(defs, rank, defs[name].fields, stack + [name]);
      && members.Ok?
      && (forall i :: 0 <= i < |members.value| ==>
            ExpandType(defs, rank, TypeOfField(defs[name].fields[i]), stack + [name]) == Ok(members.value[i]))
      && ExpandName(defs, rank, name, stack) == Ok("(" + Join(members.value) + ")")
      && (Split(Join(members.value)) == members.value <==> members.value != [""])
  {
    var fields := defs[name].fields;
    MembersNest(defs, rank, fields, stack + [name]);
    var members := ExpandAll(defs, rank, fields, stack + [name]);
    hide ExpandAll, ExpandType, Nested, Split, Join, Proper;
    NestedSplits(members.value);
    forall i | 0 <= i < |fields|
      ensures ExpandType(defs, rank, TypeOfField(fields[i]), stack + [name]) == Ok(members.value[i])
    {
      AbiCycles.EveryMemberExpands(defs, rank, fields, stack + [name], i);
    }
  }

  lemma {:induction false} ItemExpands(defs: Table, rank: string -> nat, items: seq<string>, k: nat)
    requires Acyclic(defs, rank) && ExpandItems(defs, rank, items).Ok? && k < |items|
    ensures ExpandType(defs, rank, items[k], []) == Ok(ExpandItems(defs, rank, items).value[k])
  {
    hide ExpandType;
    if k > 0 {
      ItemExpands(defs, rank, items[1..], k - 1);
    }
  }

  lemma {:induction false} FixedItems(defs: Table, rank: string -> nat, items: seq<string>)
    requires Acyclic(defs, rank)
    requires forall i :: 0 <= i < |items| ==> ExpandType(defs, rank, items[i], []) == Ok(items[i])
    ensures ExpandItems(defs, rank, items) == Ok(items)
  {
    hide ExpandType;
    if items != [] {
      FixedItems(defs, rank, items[1..]);
      assert [items[0]] + items[1..] == items;
    }
  }

  lemma {:induction false} FirstIndex(s: string, c: char, k: nat)
    requires k < |s| && s[k] == c && c !in s[..k]
    ensures c in s && IndexOf(s, c) == k
  {
    if k > 0 {
      assert s[0] == s[..k][0];
      assert s[1..][..k - 1] == s[..k][1..];
      FirstIndex(s[1..], c, k - 1);
    }
  }

  lemma PrintParses(name: string, types: seq<string>)
    requires '(' !in name
    ensures ParseSignature(Print(name, types)) == Some((name, Join(types)))
  {
    var text := Print(name, types);
    assert text[|name|] == '(' && text[..|name|] == name;
    FirstIndex(text, '(', |name|);
    assert text[|name| + 1..|text| - 1] == Join(types);
  }

  /** Reading a canonical signature back: the same name, and arguments that split into exactly the
      expansions of the display signature's arguments, which expansion no longer changes. */
  lemma CanonicalReadsBack(defs: Table, rank: string -> nat, signature: string)
    requires Acyclic(defs, rank) && ProperTable(defs)
    requires Canonical(defs, rank, signature).Some? && Canonical(defs, rank, signature).value.Ok?
    requires forall item :: item in Split(ParseSignature(signature).value.1) ==> Proper(item)
    ensures
      var name, items := ParseSignature(signature).value.0, Split(ParseSignature(signature).value.1);
      var types := ExpandItems(defs, rank, items).value;
      var text := Canonical(defs, rank, signature).value.value;
      && (forall i :: 0 <= i < |items| ==> ExpandType(defs, rank, items[i], []) == Ok(types[i]))
      && text == name + "(" + Join(types) + ")" && ParseSignature(text) == Some((name, Join(types)))
      && (Split(Join(types)) == types <==> types != [""])
      && Canonical(defs, rank, text) == Canonical(defs, rank, signature)
  {
    var name, items := ParseSignature(signature).value.0, Split(ParseSignature(signature).value.1);
    var types := ExpandItems(defs, rank, items).value;
    hide ExpandType, ExpandItems, Split, Join, Nested, IndexOf, Acyclic, ProperTable;
    forall i | 0 <= i < |items|
      ensures ExpandType(defs, rank, items[i], []) == Ok(types[i])
      ensures Nested(types[i], 0) && ExpandType(defs, rank, types[i], []) == Ok(types[i])
    {
      assert items[i] in items;
      ItemExpands(defs, rank, items, i);
      ExpansionNests(defs, rank, items[i], []);
      ExpansionIsFinal(defs, rank, items[i], [], []);
    }
    NestedSplits(types);
    PrintParses(name, types);
    FixedItems(defs, rank, types);
    if types == [""] {
      NothingIsLeft(defs, rank);
    }
  }

  lemma NothingIsLeft(defs: Table, rank: string -> nat)
    requires Acyclic(defs, rank)
    ensures ExpandItems(defs, rank, Split(Join([""]))) == Ok([]) && Join([""]) == Join([])
  {
  }
}
