/** Expanding and rendering ABI types, as spec/generate_v1_canonical_abi.py and
    spec/generate_v1_interfaces.py do over one table of aliases, enums and structs. */
module AbiTypes {
  import opened ArraySuffix
  import opened Results
  import opened Signatures

  /** An alias of another type, or a struct listing its fields as `type name`. Enums are aliases of uint8. */
  datatype Definition = Alias(target: string) | Struct(fields: seq<string>)

  type Table = map<string, Definition>

  /** The text before the first space. */
  function TypeOfField(field: string): string {
    if field == "" || field[0] == ' ' then "" else [field[0]] + TypeOfField(field[1..])
  }

  /** The text after the first space. */
  function NameOfField(field: string): string {
    if field == "" then "" else if field[0] == ' ' then field[1..] else NameOfField(field[1..])
  }

  // ---------------------------------------------------------------- expansion

  /** A ranking under which every alias points strictly down: aliases never go round in a circle. */
  ghost predicate Acyclic(defs: Table, rank: string -> nat) {
    forall name :: name in defs && defs[name].Alias? ==> rank(Base(defs[name].target)) < rank(name)
  }

  /** The structs not yet on the stack. */
  ghost function Unopened(defs: Table, stack: seq<string>): set<string> {
    set name | name in defs && name !in stack
  }

  lemma OpeningShrinks(defs: Table, stack: seq<string>, name: string)
    requires name in defs && name !in stack
    ensures |Unopened(defs, stack + [name])| < |Unopened(defs, stack)|
  {
    assert Unopened(defs, stack) == Unopened(defs, stack + [name]) + {name};
  }

  /** A failure names the structs on the stack, ending with the one met again. */
  type Expansion = Result<string, seq<string>>

  function AddSuffix(r: Expansion, suffix: string): Expansion {
    match r
    case Ok(value) => Ok(value + suffix)
    case Err(path) => Err(path)
  }

  /** The canonical form of a type. Recursion opens one more struct, or follows an alias down its rank. */
  function ExpandType(defs: Table, ghost rank: string -> nat, t: string, stack: seq<string>): Expansion
    requires Acyclic(defs, rank)
    decreases |Unopened(defs, stack)|, 0, rank(Base(t)), 1
  {
    AddSuffix(ExpandName(defs, rank, Base(t), stack), Suffix(t))
  }

  /** What the table makes of a name: unknown names stay, aliases are followed, structs become tuples. */
  function ExpandName(defs: Table, ghost rank: string -> nat, name: string, stack: seq<string>): Expansion
    requires Acyclic(defs, rank)
    decreases |Unopened(defs, stack)|, 0, rank(name), 0
  {
    if name !in defs then Ok(name)
    else
      match defs[name]
      case Alias(target) => ExpandType(defs, rank, target, stack)
      case Struct(fields) =>
        if name in stack then Err(stack + [name])
        else
          OpeningShrinks(defs, stack, name);
          Tuple(ExpandAll(defs, rank, fields, stack + [name]))
  }

  function Tuple(members: Result<seq<string>, seq<string>>): Expansion {
    match members
    case Ok(types) => Ok("(" + Join(types) + ")")
    case Err(path) => Err(path)
  }

  function ExpandAll(defs: Table, ghost rank: string -> nat, fields: seq<string>, stack: seq<string>): (r: Result<seq<string>, seq<string>>)
    requires Acyclic(defs, rank)
    ensures r.Ok? ==> |r.value| == |fields|
    decreases |Unopened(defs, stack)|, 1, |fields|, 0
  {
    if fields == [] then Ok([])
    else
      var first := ExpandType(defs, rank, TypeOfField(fields[0]), stack);
      if first.Err? then Err(first.error)
      else
        var rest := ExpandAll(defs, rank, fields[1..], stack);
        if rest.Err? then rest else Ok([first.value] + rest.value)
  }

  /** Expansion commutes with array suffixes. */
  lemma ExpandStacks(defs: Table, rank: string -> nat, r: string, t: string, stack: seq<string>)
    requires Acyclic(defs, rank) && WellBracketed(t)
    ensures ExpandType(defs, rank, r + Suffix(t), stack) == AddSuffix(ExpandType(defs, rank, r, stack), Suffix(t))
  {
    SuffixStacks(r, t);
    hide Base, Suffix, ExpandName;
    var named := ExpandName(defs, rank, Base(r), stack);
    if named.Ok? {
      Regroup(named.value, Suffix(r), Suffix(t));
    }
  }

  // ---------------------------------------------------------------- rendering

  /** The readable form of a type: aliases are followed, structs and unknown names kept. */
  function ReplaceAlias(defs: Table, ghost rank: string -> nat, t: string): string
    requires Acyclic(defs, rank)
    decreases rank(Base(t))
  {
    var base, suffix := Base(t), Suffix(t);
    if base in defs && defs[base].Alias? then ReplaceAlias(defs, rank, defs[base].target) + suffix else base + suffix
  }

  ghost predicate TargetsWellBracketed(defs: Table) {
    forall name :: name in defs && defs[name].Alias? ==> WellBracketed(defs[name].target)
  }

  /** The table the renderer uses: some names, the enums, are left out. */
  function Without(defs: Table, names: set<string>): Table {
    defs - names
  }

  /** Rendering preserves meaning: whatever names the renderer keeps readable, its output expands to exactly
      what the original type expands to, error or not. */
  lemma {:induction false} RenderingPreservesExpansion(defs: Table, kept: set<string>, rank: string -> nat, t: string, stack: seq<string>)
    requires Acyclic(defs, rank) && TargetsWellBracketed(defs) && WellBracketed(t)
    ensures ExpandType(defs, rank, ReplaceAlias(Without(defs, kept), rank, t), stack) == ExpandType(defs, rank, t, stack)
    decreases rank(Base(t))
  {
    var base := Base(t);
    var shown := Without(defs, kept);
    hide Base, Suffix, ExpandAll;
    if base in shown && shown[base].Alias? {
      RenderingPreservesExpansion(defs, kept, rank, defs[base].target, stack);
      ExpandStacks(defs, rank, ReplaceAlias(shown, rank, defs[base].target), t, stack);
    } else {
      StripParts(t);
    }
  }

  /** What rendering promises for one type text, over every table whose alias targets are well-bracketed, every
      choice of kept names and every stack. */
  ghost predicate RendersFaithfully(t: string) {
    forall defs: Table, kept: set<string>, rank: string -> nat, stack: seq<string>
      | Acyclic(defs, rank) && TargetsWellBracketed(defs)
      :: ExpandType(defs, rank, ReplaceAlias(Without(defs, kept), rank, t), stack) == ExpandType(defs, rank, t, stack)
  }

  /** An alias of a name that the table does not know. */
  lemma AliasOfUnknown(defs: Table, rank: string -> nat, t: string, target: string, stack: seq<string>)
    requires Acyclic(defs, rank) && Base(t) in defs && defs[Base(t)] == Alias(target)
    requires target !in defs && !EndsBracket(target)
    ensures ReplaceAlias(defs, rank, t) == target + Suffix(t)
    ensures ExpandType(defs, rank, t, stack) == Ok(target + Suffix(t))
  {
    StripOnce(target);
    hide Base, Suffix, ExpandAll, EndsBracket;
    assert target + "" == target;
    assert ExpandName(defs, rank, target, stack) == Ok(target);
    assert ExpandType(defs, rank, target, stack) == Ok(target);
  }

  /** The base of `t` is an alias that opens a bracket, and the name before that bracket an alias too. */
  ghost predicate Baits(defs: Table, t: string) {
    var b := Base(t);
    && b in defs && defs[b] == Alias(b + "z[y") && b + "z" in defs && defs[b + "z"] == Alias(b + "zq")
    && b + "z[y" !in defs && b + "zq" !in defs
  }

  lemma BaitTexts(b: string, u: string)
    ensures b + "z[y" + u == b + "z" + "[y" + u
    ensures b + "zq" + ("[y" + u) != b + "z[y" + u
    ensures !EndsBracket(b + "z") && !EndsBracket(b + "z[y") && !EndsBracket(b + "zq")
  {
    assert |b + "zq" + ("[y" + u)| > |b + "z[y" + u|;
  }

  /** Over such a table a type text with a stray closing bracket is rendered into another type. */
  lemma BaitCatches(defs: Table, rank: string -> nat, t: string)
    requires Acyclic(defs, rank) && Baits(defs, t) && !WellBracketed(t)
    ensures ExpandType(defs, rank, ReplaceAlias(defs, rank, t), []) != ExpandType(defs, rank, t, [])
  {
    hide Base, Suffix, WellBracketed, ExpandType, ReplaceAlias, EndsBracket, Acyclic;
    var b, u := Base(t), Suffix(t);
    BaitTexts(b, u);
    StraySuffixSwallows(b + "z", t);
    AliasOfUnknown(defs, rank, t, b + "z[y", []);
    AliasOfUnknown(defs, rank, b + "z[y" + u, b + "zq", []);
  }

  function Trap(t: string): Table {
    map[Base(t) := Alias(Base(t) + "z[y"), Base(t) + "z" := Alias(Base(t) + "zq")]
  }

  function TrapRank(t: string): string -> nat {
    (name: string) => if name in Trap(t) then 1 else 0
  }

  lemma TrapBaits(t: string)
    ensures Baits(Trap(t), t)
    ensures forall name :: name in Trap(t) ==> name == Base(t) || name == Base(t) + "z"
  {
    hide Base;
    var b := Base(t);
    assert |b + "z[y"| > |b + "zq"| > |b + "z"| > |b|;
  }

  lemma TrapIsLegal(t: string)
    ensures Acyclic(Trap(t), TrapRank(t)) && TargetsWellBracketed(Trap(t))
  {
    TrapBaits(t);
    StripOnce(Base(t) + "z[y");
    StripOnce(Base(t) + "zq");
    hide Base, Suffix, Trap;
  }

  lemma TrapCatches(t: string)
    requires !WellBracketed(t)
    ensures Acyclic(Trap(t), TrapRank(t))
    ensures ExpandType(Trap(t), TrapRank(t), ReplaceAlias(Without(Trap(t), {}), TrapRank(t), t), [])
         != ExpandType(Trap(t), TrapRank(t), t, [])
  {
    TrapIsLegal(t);
    TrapBaits(t);
    hide Base, Suffix, Trap, TrapRank, WellBracketed, ExpandType, ReplaceAlias;
    assert Without(Trap(t), {}) == Trap(t);
    BaitCatches(Trap(t), TrapRank(t), t);
  }

  lemma NotFaithful(t: string, defs: Table, kept: set<string>, rank: string -> nat, stack: seq<string>)
    requires Acyclic(defs, rank) && TargetsWellBracketed(defs)
    requires ExpandType(defs, rank, ReplaceAlias(Without(defs, kept), rank, t), stack) != ExpandType(defs, rank, t, stack)
    ensures !RendersFaithfully(t)
  {
    hide ExpandType, ReplaceAlias, Without, Acyclic, TargetsWellBracketed;
  }

  /** Rendering is faithful to a type text exactly when the text opens every bracket its suffix closes. */
  lemma FaithfulExactlyWhenWellBracketed(t: string)
    ensures RendersFaithfully(t) <==> WellBracketed(t)
  {
    hide ExpandType, ReplaceAlias, WellBracketed;
    if WellBracketed(t) {
      forall defs: Table, kept: set<string>, rank: string -> nat, stack: seq<string>
        | Acyclic(defs, rank) && TargetsWellBracketed(defs)
        ensures ExpandType(defs, rank, ReplaceAlias(Without(defs, kept), rank, t), stack) == ExpandType(defs, rank, t, stack)
      {
        RenderingPreservesExpansion(defs, kept, rank, t, stack);
      }
    } else {
      TrapIsLegal(t);
      TrapCatches(t);
      NotFaithful(t, Trap(t), {}, TrapRank(t), []);
    }
  }

  // ---------------------------------------------------------------- targets of aliases

  /** All alias targets open the brackets their suffixes close, `u` perhaps excepted. */
  ghost predicate TargetsWellBracketedBut(defs: Table, u: string) {
    forall name :: name in defs && defs[name].Alias? ==> WellBracketed(defs[name].target) || defs[name].target == u
  }

  /** What rendering promises when a type text may be the target of aliases. */
  ghost predicate ServesAsTarget(u: string) {
    forall defs: Table, kept: set<string>, rank: string -> nat, t: string, stack: seq<string>
      | Acyclic(defs, rank) && TargetsWellBracketedBut(defs, u) && WellBracketed(t)
      :: ExpandType(defs, rank, ReplaceAlias(Without(defs, kept), rank, t), stack) == ExpandType(defs, rank, t, stack)
  }

  /** The trap for `u`, reached through a name of its own. */
  function TargetTrap(u: string): Table {
    Trap(u)[Base(u) + "n" := Alias(u)]
  }

  function TargetTrapRank(u: string): string -> nat {
    (name: string) => if name == Base(u) + "n" then 2 else if name in Trap(u) then 1 else 0
  }

  lemma TargetTrapBaits(u: string)
    ensures Baits(TargetTrap(u), u)
    ensures Base(u) + "n" !in Trap(u) && !EndsBracket(Base(u) + "n")
  {
    TrapBaits(u);
    hide Base, Trap;
    var b := Base(u);
    assert |b + "z[y"| > |b + "zq"| > |b + "n"| > |b|;
    assert (b + "n")[|b|] != (b + "z")[|b|];
  }

  lemma TargetTrapIsLegal(u: string)
    ensures Acyclic(TargetTrap(u), TargetTrapRank(u)) && TargetsWellBracketedBut(TargetTrap(u), u)
  {
    TrapIsLegal(u);
    TrapBaits(u);
    TargetTrapBaits(u);
    StripOnce(Base(u) + "z[y");
    StripOnce(Base(u) + "zq");
    hide Base, Suffix, Trap, WellBracketed;
  }

  /** An alias of its own adds nothing to what its target is rendered and expanded to. */
  lemma ThroughAlias(defs: Table, rank: string -> nat, name: string, u: string)
    requires Acyclic(defs, rank) && name in defs && defs[name] == Alias(u) && !EndsBracket(name)
    ensures ReplaceAlias(defs, rank, name) == ReplaceAlias(defs, rank, u)
    ensures ExpandType(defs, rank, name, []) == ExpandType(defs, rank, u, [])
    ensures WellBracketed(name)
  {
    StripOnce(name);
    hide Base, Suffix, EndsBracket, ExpandAll;
    var r := ReplaceAlias(defs, rank, u);
    assert r + "" == r;
    var e := ExpandType(defs, rank, u, []);
    assert e.Ok? ==> e.value + "" == e.value;
  }

  lemma TargetTrapCatches(u: string)
    requires !WellBracketed(u)
    ensures
      var defs, rank, name := TargetTrap(u), TargetTrapRank(u), Base(u) + "n";
      && Acyclic(defs, rank) && TargetsWellBracketedBut(defs, u) && WellBracketed(name)
      && ExpandType(defs, rank, ReplaceAlias(Without(defs, {}), rank, name), []) != ExpandType(defs, rank, name, [])
  {
    hide ExpandType, ReplaceAlias, Base, Trap, TargetTrapRank, Baits;
    TargetTrapIsLegal(u);
    TargetTrapBaits(u);
    BaitCatches(TargetTrap(u), TargetTrapRank(u), u);
    ThroughAlias(TargetTrap(u), TargetTrapRank(u), Base(u) + "n", u);
    hide WellBracketed, TargetTrap;
    assert Without(TargetTrap(u), {}) == TargetTrap(u);
  }

  lemma NoTarget(u: string, defs: Table, kept: set<string>, rank: string -> nat, t: string, stack: seq<string>)
    requires Acyclic(defs, rank) && TargetsWellBracketedBut(defs, u) && WellBracketed(t)
    requires ExpandType(defs, rank, ReplaceAlias(Without(defs, kept), rank, t), stack) != ExpandType(defs, rank, t, stack)
    ensures !ServesAsTarget(u)
  {
    hide ExpandType, ReplaceAlias, Without, Acyclic, TargetsWellBracketedBut, WellBracketed;
  }

  /** A type text may be the target of aliases exactly when it opens every bracket its suffix closes. */
  lemma TargetsExactlyWhenWellBracketed(u: string)
    ensures ServesAsTarget(u) <==> WellBracketed(u)
  {
    hide ExpandType, ReplaceAlias;
    if WellBracketed(u) {
      forall defs: Table, kept: set<string>, rank: string -> nat, t: string, stack: seq<string>
        | Acyclic(defs, rank) && TargetsWellBracketedBut(defs, u) && WellBracketed(t)
        ensures ExpandType(defs, rank, ReplaceAlias(Without(defs, kept), rank, t), stack) == ExpandType(defs, rank, t, stack)
      {
        RenderingPreservesExpansion(defs, kept, rank, t, stack);
      }
    } else {
      TargetTrapCatches(u);
      NoTarget(u, TargetTrap(u), {}, TargetTrapRank(u), Base(u) + "n", []);
    }
  }
}
