/** The declarations the renderer writes out: its structs and enums alone, the aliases gone. Read back as a
    table of their own, they give every rendered type the meaning the original table gave. */
module AbiDeclarations {
  import opened AbiTypes
  import opened ArraySuffix
  import opened Results

  /** A struct field with its type made readable. */
  function RenderField(shown: Table, ghost rank: string -> nat, field: string): string
    requires Acyclic(shown, rank)
  {
    ReplaceAlias(shown, rank, TypeOfField(field)) + " " + NameOfField(field)
  }

  function RenderFields(shown: Table, ghost rank: string -> nat, fields: seq<string>): (r: seq<string>)
    requires Acyclic(shown, rank)
    ensures |r| == |fields|
  {
    if fields == [] then [] else [RenderField(shown, rank, fields[0])] + RenderFields(shown, rank, fields[1..])
  }

  /** What the generated file declares: the enums as they are, the structs with readable fields. */
  function Declarations(defs: Table, enums: set<string>, ghost rank: string -> nat): Table
    requires Acyclic(Without(defs, enums), rank)
  {
    map name | name in defs && (name in enums || defs[name].Struct?) ::
      if name in enums then defs[name] else Struct(RenderFields(Without(defs, enums), rank, defs[name].fields))
  }

  predicate NoSpace(s: string) {
    ' ' !in s
  }

  /** Every type text in the table opens the brackets its suffix closes and has no space; enums are uint8. */
  ghost predicate WellFormed(defs: Table, enums: set<string>) {
    && (forall name :: name in defs && defs[name].Alias? ==> WellBracketed(defs[name].target) && NoSpace(defs[name].target))
    && (forall name :: name in defs && defs[name].Struct? ==>
          forall i :: 0 <= i < |defs[name].fields| ==> WellBracketed(TypeOfField(defs[name].fields[i])))
    && (forall name :: name in enums ==> name in defs && defs[name] == Alias("uint8"))
    && "uint8" !in defs
  }

  lemma {:induction false} TypeHasNoSpace(field: string)
    ensures NoSpace(TypeOfField(field))
  {
    if field != "" && field[0] != ' ' {
      TypeHasNoSpace(field[1..]);
    }
  }

  lemma {:induction false} TypeOfRendered(t: string, name: string)
    requires NoSpace(t)
    ensures TypeOfField(t + " " + name) == t
  {
    if t == "" {
      assert t + " " + name == " " + name;
    } else {
      assert (t + " " + name)[1..] == t[1..] + " " + name;
      TypeOfRendered(t[1..], name);
    }
  }

  lemma {:induction false} RenderedHasNoSpace(defs: Table, enums: set<string>, rank: string -> nat, t: string)
    requires Acyclic(Without(defs, enums), rank) && WellFormed(defs, enums) && NoSpace(t)
    ensures NoSpace(ReplaceAlias(Without(defs, enums), rank, t))
    decreases rank(Base(t))
  {
    StripParts(t);
    hide Base, Suffix;
    assert forall c :: c in Suffix(t) ==> c in Base(t) + Suffix(t);
    var shown := Without(defs, enums);
    if Base(t) in shown && shown[Base(t)].Alias? {
      RenderedHasNoSpace(defs, enums, rank, shown[Base(t)].target);
    }
  }

  lemma DeclarationsAcyclic(defs: Table, enums: set<string>, rank: string -> nat)
    requires Acyclic(defs, rank) && WellFormed(defs, enums)
    ensures Acyclic(Without(defs, enums), rank)
    ensures Acyclic(Declarations(defs, enums, rank), rank)
  {
  }

  lemma UnknownNameStays(defs: Table, rank: string -> nat, t: string, stack: seq<string>)
    requires Acyclic(defs, rank) && t !in defs && !EndsBracket(t)
    ensures ExpandType(defs, rank, t, stack) == Ok(t)
  {
    StripOnce(t);
    hide Base, Suffix;
    assert t + "" == t;
  }

  /** The generated declarations alone give every rendered type its original expansion, error or not. */
  lemma {:induction false} DeclarationsPreserveExpansion(defs: Table, enums: set<string>, rank: string -> nat, t: string, stack: seq<string>)
    requires Acyclic(defs, rank) && WellFormed(defs, enums) && WellBracketed(t)
    ensures Acyclic(Without(defs, enums), rank) && Acyclic(Declarations(defs, enums, rank), rank)
    ensures ExpandType(Declarations(defs, enums, rank), rank, ReplaceAlias(Without(defs, enums), rank, t), stack)
         == ExpandType(defs, rank, t, stack)
    decreases |Unopened(defs, stack)|, 0, rank(Base(t)), 1
  {
    DeclarationsAcyclic(defs, enums, rank);
    var shown, decls, base := Without(defs, enums), Declarations(defs, enums, rank), Base(t);
    hide Base, Suffix, Acyclic;
    StripParts(t);
    if base in shown && shown[base].Alias? {
      var target := defs[base].target;
      assert rank(Base(target)) < rank(base) by {
        assert base in defs && defs[base].Alias?;
        AliasGoesDown(defs, rank, base);
      }
      DeclarationsPreserveExpansion(defs, enums, rank, target, stack);
      hide ExpandAll, Declarations;
      ExpandStacks(decls, rank, ReplaceAlias(shown, rank, target), t, stack);
      AliasExpands(defs, rank, t, stack);
    } else {
      assert ReplaceAlias(shown, rank, t) == t;
      hide ReplaceAlias;
      DeclaredNameExpands(defs, enums, rank, base, stack);
    }
  }

  lemma AliasGoesDown(defs: Table, rank: string -> nat, name: string)
    requires Acyclic(defs, rank) && name in defs && defs[name].Alias?
    ensures rank(Base(defs[name].target)) < rank(name)
  {
  }

  lemma AliasExpands(defs: Table, rank: string -> nat, t: string, stack: seq<string>)
    requires Acyclic(defs, rank) && Base(t) in defs && defs[Base(t)].Alias?
    ensures ExpandType(defs, rank, t, stack) == AddSuffix(ExpandType(defs, rank, defs[Base(t)].target, stack), Suffix(t))
  {
    hide Base, Suffix, ExpandAll;
  }

  lemma {:induction false} DeclaredNameExpands(defs: Table, enums: set<string>, rank: string -> nat, name: string, stack: seq<string>)
    requires Acyclic(defs, rank) && WellFormed(defs, enums)
    requires name in enums || name !in defs || defs[name].Struct?
    ensures Acyclic(Without(defs, enums), rank) && Acyclic(Declarations(defs, enums, rank), rank)
    ensures ExpandName(Declarations(defs, enums, rank), rank, name, stack) == ExpandName(defs, rank, name, stack)
    decreases |Unopened(defs, stack)|, 0, 0, 0
  {
    DeclarationsAcyclic(defs, enums, rank);
    var decls := Declarations(defs, enums, rank);
    hide Base, Suffix, Acyclic, ExpandType, ExpandAll, RenderFields;
    if name in enums {
      UnknownNameStays(defs, rank, "uint8", stack);
      UnknownNameStays(decls, rank, "uint8", stack);
    } else if name in defs && name !in stack {
      OpeningShrinks(defs, stack, name);
      FieldsExpand(defs, enums, rank, defs[name].fields, stack + [name]);
    }
  }

  lemma {:induction false} FieldsExpand(defs: Table, enums: set<string>, rank: string -> nat, fields: seq<string>, stack: seq<string>)
    requires Acyclic(defs, rank) && WellFormed(defs, enums)
    requires forall i :: 0 <= i < |fields| ==> WellBracketed(TypeOfField(fields[i]))
    ensures Acyclic(Without(defs, enums), rank) && Acyclic(Declarations(defs, enums, rank), rank)
    ensures ExpandAll(Declarations(defs, enums, rank), rank, RenderFields(Without(defs, enums), rank, fields), stack)
         == ExpandAll(defs, rank, fields, stack)
    decreases |Unopened(defs, stack)|, 1, |fields|, 0
  {
    DeclarationsAcyclic(defs, enums, rank);
    if fields != [] {
      hide Acyclic, ExpandType, Declarations, Base, Suffix, WellBracketed;
      var t := TypeOfField(fields[0]);
      var shown := Without(defs, enums);
      TypeHasNoSpace(fields[0]);
      RenderedHasNoSpace(defs, enums, rank, t);
      hide ReplaceAlias, TypeOfField, NameOfField;
      TypeOfRendered(ReplaceAlias(shown, rank, t), NameOfField(fields[0]));
      DeclarationsPreserveExpansion(defs, enums, rank, t, stack);
      FieldsExpand(defs, enums, rank, fields[1..], stack);
      var rendered := RenderFields(shown, rank, fields);
      assert rendered[0] == RenderField(shown, rank, fields[0]) && rendered[1..] == RenderFields(shown, rank, fields[1..]);
    }
  }
}
