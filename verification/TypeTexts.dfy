/** The type tools character by character: where a list is cut, what a suffix is, what stands in a field, and what
    an expansion looks like, without the functions that find it out. */
module TypeTexts {
  import opened Results
  import opened Signatures
  import opened ArraySuffix
  import opened AbiTypes
  import opened AbiDeclarations
  import opened CanonicalSignature

  // ---------------------------------------------------------------- lists

  /** How many brackets and parentheses are opened, less those that are closed. */
  function Balance(s: string): int {
    if s == "" then 0
    else
      var last := s[|s| - 1];
      Balance(s[..|s| - 1]) + if last == '(' || last == '[' then 1 else if last == ')' || last == ']' then -1 else 0
  }

  /** A comma in front of which as much has been opened as closed. */
  predicate TopComma(s: string, i: int) {
    0 <= i < |s| && s[i] == ',' && Balance(s[..i]) == 0
  }

  lemma {:induction false} BalanceOfConcat(a: string, b: string)
    ensures Balance(a + b) == Balance(a) + Balance(b)
  {
    if b == "" {
      assert a + b == a;
    } else {
      assert (a + b)[..|a + b| - 1] == a + b[..|b| - 1];
      BalanceOfConcat(a, b[..|b| - 1]);
    }
  }

  lemma {:induction false} DepthIsBalance(s: string, depth: int)
    ensures Depth(s, depth) == depth + Balance(s)
  {
    if s != "" {
      DepthIsBalance(s[1..], Shift(depth, s[0]));
      BalanceOfConcat([s[0]], s[1..]);
      assert [s[0]] + s[1..] == s && [s[0]][..0] == "";
    }
  }

  lemma BalanceOfRest(s: string, i: nat)
    requires 0 < i <= |s|
    ensures Balance(s[..i]) == Shift(0, s[0]) + Balance(s[1..][..i - 1])
  {
    assert s[..i] == [s[0]] + s[1..][..i - 1];
    BalanceOfConcat([s[0]], s[1..][..i - 1]);
    assert [s[0]][..0] == "";
  }

  lemma {:induction false} NoTopCommaMeans(s: string, depth: int)
    ensures NoTopComma(s, depth) <==> forall i :: 0 <= i < |s| && s[i] == ',' ==> depth + Balance(s[..i]) != 0
  {
    if s != "" {
      var rest, next := s[1..], Shift(depth, s[0]);
      NoTopCommaMeans(rest, next);
      assert s[..0] == "";
      forall i | 0 < i < |s|
        ensures rest[i - 1] == s[i] && depth + Balance(s[..i]) == next + Balance(rest[..i - 1])
      {
        BalanceOfRest(s, i);
      }
      hide Balance;
      if forall i :: 0 <= i < |s| && s[i] == ',' ==> depth + Balance(s[..i]) != 0 {
        forall j | 0 <= j < |rest| && rest[j] == ','
          ensures next + Balance(rest[..j]) != 0
        {
          assert s[j + 1] == rest[j] && depth + Balance(s[..j + 1]) == next + Balance(rest[..j + 1 - 1]);
        }
      }
    }
  }

  /** No part has a comma outside its brackets, and every part but the last closes what it opens. */
  ghost predicate CutsCleanly(parts: seq<string>) {
    && (forall k, i :: 0 <= k < |parts| ==> !TopComma(parts[k], i))
    && (forall k :: 0 <= k < |parts| - 1 ==> Balance(parts[k]) == 0)
  }

  lemma SeparableMeans(parts: seq<string>)
    ensures Separable(parts) <==> CutsCleanly(parts)
  {
    forall k | 0 <= k < |parts|
      ensures NoTopComma(parts[k], 0) <==> forall i :: !TopComma(parts[k], i)
      ensures Depth(parts[k], 0) == Balance(parts[k])
    {
      DepthIsBalance(parts[k], 0);
      NoTopCommaMeans(parts[k], 0);
      OnlyInside(parts[k]);
    }
    hide NoTopComma, Depth, Balance, TopComma;
  }

  lemma OnlyInside(s: string)
    ensures (forall i :: 0 <= i < |s| && s[i] == ',' ==> 0 + Balance(s[..i]) != 0) <==> forall i :: !TopComma(s, i)
  {
    hide Balance;
    if forall i :: !TopComma(s, i) {
      forall i | 0 <= i < |s| && s[i] == ','
        ensures 0 + Balance(s[..i]) != 0
      {
        assert !TopComma(s, i);
      }
    }
  }

  /** Splitting a value gives the one list that joins back to it with commas and is cut cleanly. */
  lemma SplitExactly(value: string, parts: seq<string>)
    ensures Split(value) == parts <==> Join(parts) == value && CutsCleanly(parts) && parts != [""]
  {
    JoinOfSplit(value);
    SplitOfJoin(parts);
    SeparableMeans(parts);
    hide Split, Join, Separable, CutsCleanly;
  }

  /** Nested texts: nothing is closed before it is opened, all is closed at the end, and no comma is outside. */
  lemma NestedMeans(s: string)
    ensures Nested(s, 0) <==>
              && (forall i :: 0 <= i <= |s| ==> 0 <= Balance(s[..i])) && Balance(s) == 0
              && forall i :: !TopComma(s, i)
  {
    NestedFrom(s, 0);
    OnlyInside(s);
    hide Nested, Balance, TopComma;
    if forall i :: 0 <= i <= |s| ==> 0 <= Balance(s[..i]) {
      assert forall i :: 0 <= i <= |s| ==> 0 <= 0 + Balance(s[..i]);
    }
  }

  lemma {:induction false} NestedFrom(s: string, depth: nat)
    ensures Nested(s, depth) <==>
              && (forall i :: 0 <= i <= |s| ==> 0 <= depth + Balance(s[..i])) && depth + Balance(s) == 0
              && forall i :: 0 <= i < |s| && s[i] == ',' ==> depth + Balance(s[..i]) != 0
  {
    if s == "" {
      assert s[..0] == "";
    } else {
      var rest, next := s[1..], Shift(depth, s[0]);
      assert s[..0] == "" && s[..|s|] == s && rest[..|rest|] == rest && rest[..0] == "";
      forall i | 0 < i <= |s|
        ensures depth + Balance(s[..i]) == next + Balance(rest[..i - 1])
      {
        BalanceOfRest(s, i);
      }
      if next >= 0 {
        NestedFrom(rest, next);
      }
      hide Nested, Balance;
      if next >= 0 {
        PrefixesMove(s, depth, next);
      } else {
        assert depth + Balance(s[..1]) == next + Balance(rest[..1 - 1]);
      }
    }
  }

  lemma PrefixesMove(s: string, depth: int, next: int)
    requires s != "" && 0 <= depth && Balance(s[..0]) == 0
    requires forall i :: 0 < i <= |s| ==> depth + Balance(s[..i]) == next + Balance(s[1..][..i - 1])
    ensures (forall i :: 0 <= i <= |s| ==> 0 <= depth + Balance(s[..i])) <==>
            (forall j :: 0 <= j <= |s[1..]| ==> 0 <= next + Balance(s[1..][..j]))
    ensures (forall i :: 0 <= i < |s| && s[i] == ',' ==> depth + Balance(s[..i]) != 0) <==>
            !(s[0] == ',' && depth == 0) && forall j :: 0 <= j < |s[1..]| && s[1..][j] == ',' ==> next + Balance(s[1..][..j]) != 0
  {
    hide Balance;
    var rest := s[1..];
    if forall i :: 0 <= i <= |s| ==> 0 <= depth + Balance(s[..i]) {
      forall j | 0 <= j <= |rest|
        ensures 0 <= next + Balance(rest[..j])
      {
        assert depth + Balance(s[..j + 1]) == next + Balance(rest[..j + 1 - 1]);
      }
    }
    if forall i :: 0 <= i < |s| && s[i] == ',' ==> depth + Balance(s[..i]) != 0 {
      forall j | 0 <= j < |rest| && rest[j] == ','
        ensures next + Balance(rest[..j]) != 0
      {
        assert s[j + 1] == rest[j] && depth + Balance(s[..j + 1]) == next + Balance(rest[..j + 1 - 1]);
      }
    }
    assert forall i :: 0 < i < |s| ==> s[i] == rest[i - 1];
  }

  // ---------------------------------------------------------------- suffixes

  /** One pair of brackets, with no other opening bracket inside. */
  predicate Piece(p: string) {
    2 <= |p| && p[0] == '[' && p[|p| - 1] == ']' && forall i :: 0 < i < |p| ==> p[i] != '['
  }

  function Concat(pieces: seq<string>): string {
    if pieces == [] then "" else Concat(pieces[..|pieces| - 1]) + pieces[|pieces| - 1]
  }

  ghost predicate AllPieces(pieces: seq<string>) {
    forall k :: 0 <= k < |pieces| ==> Piece(pieces[k])
  }

  lemma {:induction false} LastOpenSpelled(t: string, k: int)
    requires -1 <= k < |t| && (0 <= k ==> t[k] == '[') && forall i :: k < i < |t| ==> t[i] != '['
    ensures LastOpen(t) == k
  {
    if t != "" && k != |t| - 1 {
      LastOpenSpelled(t[..|t| - 1], k);
    }
  }

  /** One round of stripping: a text that ends in a closing bracket loses all from its last opening bracket on, or
      only the closing bracket if there is none; any other text is all base. */
  lemma StripSpelled(t: string, k: int)
    requires -1 <= k < |t| && (0 <= k ==> t[k] == '[') && forall i :: k < i < |t| ==> t[i] != '['
    ensures
      if t != "" && t[|t| - 1] == ']' then
        var cut := if k == -1 then |t| - 1 else k;
        Base(t) == Base(t[..cut]) && Suffix(t) == Suffix(t[..cut]) + t[cut..]
      else Base(t) == t && Suffix(t) == ""
  {
    LastOpenSpelled(t, k);
    StripOnce(t);
    hide Base, Suffix, LastOpen;
  }

  /** Any pieces put behind a text come off it as its suffix. */
  lemma {:induction false} PiecesStripOff(base: string, pieces: seq<string>)
    requires AllPieces(pieces) && (base == "" || base[|base| - 1] != ']')
    ensures Base(base + Concat(pieces)) == base && Suffix(base + Concat(pieces)) == Concat(pieces)
  {
    if pieces == [] {
      assert base + "" == base;
      StripOnce(base);
    } else {
      var front, last := pieces[..|pieces| - 1], pieces[|pieces| - 1];
      PiecesStripOff(base, front);
      LastOpenSpelled(last, 0);
      PieceComesOff(base + Concat(front), last);
      Regroup(base, Concat(front), last);
    }
  }

  /** A text that no bracket closes, and pieces behind it. */
  ghost predicate Bracketed(t: string, base: string, pieces: seq<string>) {
    AllPieces(pieces) && (base == "" || base[|base| - 1] != ']') && t == base + Concat(pieces)
  }

  /** Those are the well-bracketed types. */
  lemma WellBracketedMeans(t: string)
    ensures WellBracketed(t) <==> exists base: string, pieces: seq<string> :: Bracketed(t, base, pieces)
  {
    if WellBracketed(t) {
      var pieces := PiecesOf(t);
      StripParts(t);
      hide AllPieces, Base, Suffix, Concat;
      assert Bracketed(t, Base(t), pieces);
    }
    if base: string, pieces: seq<string> :| Bracketed(t, base, pieces) {
      PiecesStripOff(base, pieces);
      PiecesOpen(pieces);
      hide Base, Suffix, AllPieces, Concat;
    }
  }

  lemma {:induction false} PiecesOpen(pieces: seq<string>)
    requires AllPieces(pieces)
    ensures Concat(pieces) == "" || Concat(pieces)[0] == '['
  {
    if pieces != [] {
      PiecesOpen(pieces[..|pieces| - 1]);
    }
  }

  lemma {:induction false} PiecesOf(t: string) returns (pieces: seq<string>)
    requires WellBracketed(t)
    ensures AllPieces(pieces) && Suffix(t) == Concat(pieces)
    decreases |t|
  {
    if !EndsBracket(t) {
      pieces := [];
    } else {
      var front, piece := LastPiece(t);
      var before := PiecesOf(front);
      pieces := before + [piece];
      assert pieces[..|pieces| - 1] == before;
      OneOpen(piece);
    }
  }

  lemma OneOpen(piece: string)
    requires EndsBracket(piece) && LastOpen(piece) == 0
    ensures Piece(piece)
  {
    forall i | 0 < i < |piece|
      ensures piece[i] != '['
    {
      LastOpenIsLast(piece, i);
    }
    assert |piece| != 1;
  }

  // ---------------------------------------------------------------- fields and signatures

  lemma {:induction false} NameAfterType(t: string, name: string)
    requires ' ' !in t
    ensures NameOfField(t + " " + name) == name
  {
    if t == "" {
      assert t + " " + name == " " + name;
      assert (" " + name)[1..] == name;
    } else {
      assert (t + " " + name)[1..] == t[1..] + " " + name;
      NameAfterType(t[1..], name);
    }
  }

  lemma {:induction false} FieldWithoutName(t: string)
    requires ' ' !in t
    ensures TypeOfField(t) == t && NameOfField(t) == ""
  {
    if t != "" {
      FieldWithoutName(t[1..]);
      assert t == [t[0]] + t[1..];
    }
  }

  /** A field is its type, a space and its name, and so is the field the renderer writes: the name as it was, the
      type rendered. */
  lemma RenderedFieldReads(defs: Table, enums: set<string>, rank: string -> nat, t: string, name: string)
    requires Acyclic(defs, rank) && Acyclic(Without(defs, enums), rank) && WellFormed(defs, enums) && ' ' !in t
    ensures
      var field := RenderField(Without(defs, enums), rank, t + " " + name);
      && TypeOfField(t + " " + name) == t && NameOfField(t + " " + name) == name
      && field == ReplaceAlias(Without(defs, enums), rank, t) + " " + name
      && TypeOfField(field) == ReplaceAlias(Without(defs, enums), rank, t) && NameOfField(field) == name
  {
    var shown := Without(defs, enums);
    TypeOfRendered(t, name);
    NameAfterType(t, name);
    RenderedHasNoSpace(defs, enums, rank, t);
    TypeOfRendered(ReplaceAlias(shown, rank, t), name);
    NameAfterType(ReplaceAlias(shown, rank, t), name);
    hide TypeOfField, NameOfField, ReplaceAlias, WellFormed;
  }

  /** A signature is parsed at its first parenthesis; whatever its last character is, it is dropped. */
  lemma ParseSpelled(name: string, arguments: string, last: char)
    requires '(' !in name
    ensures ParseSignature(name + "(" + arguments + [last]) == Some((name, arguments))
    ensures ParseSignature(name + "(") == Some((name, ""))
    ensures ParseSignature(name) == None
  {
    var whole, open := name + "(" + arguments + [last], name + "(";
    assert whole[|name|] == '(' && whole[..|name|] == name;
    FirstIndex(whole, '(', |name|);
    assert whole[|name| + 1..|whole| - 1] == arguments;
    assert open[|name|] == '(' && open[..|name|] == name;
    FirstIndex(open, '(', |name|);
  }

  // ---------------------------------------------------------------- expansions

  /** A name the table does not know stays, with its pieces. */
  lemma UnknownExpands(defs: Table, rank: string -> nat, name: string, pieces: seq<string>, stack: seq<string>)
    requires Acyclic(defs, rank) && name !in defs && AllPieces(pieces) && (name == "" || name[|name| - 1] != ']')
    ensures ExpandType(defs, rank, name + Concat(pieces), stack) == Ok(name + Concat(pieces))
  {
    PiecesStripOff(name, pieces);
    hide Base, Suffix, ExpandAll, Concat;
  }

  /** An alias expands to what its target expands to, with its pieces behind. */
  lemma AliasExpandsTo(defs: Table, rank: string -> nat, name: string, target: string, pieces: seq<string>, stack: seq<string>, value: string)
    requires Acyclic(defs, rank) && name in defs && defs[name] == Alias(target)
    requires AllPieces(pieces) && (name == "" || name[|name| - 1] != ']')
    ensures ExpandType(defs, rank, target, stack) == Ok(value) ==>
              ExpandType(defs, rank, name + Concat(pieces), stack) == Ok(value + Concat(pieces))
    ensures ExpandType(defs, rank, target, stack).Err? ==>
              ExpandType(defs, rank, name + Concat(pieces), stack) == ExpandType(defs, rank, target, stack)
  {
    PiecesStripOff(name, pieces);
    hide Base, Suffix, ExpandAll, Concat;
    var t := name + Concat(pieces);
    assert ExpandName(defs, rank, name, stack) == ExpandType(defs, rank, target, stack);
    assert ExpandType(defs, rank, t, stack) == AddSuffix(ExpandName(defs, rank, name, stack), Concat(pieces));
  }

  /** A struct expands to its members' expansions between parentheses, with commas, and its pieces behind. */
  lemma StructExpandsTo(defs: Table, rank: string -> nat, name: string, fields: seq<string>, pieces: seq<string>, stack: seq<string>,
                        members: seq<string>)
    requires Acyclic(defs, rank) && name in defs && defs[name] == Struct(fields) && name !in stack
    requires AllPieces(pieces) && (name == "" || name[|name| - 1] != ']')
    requires |members| == |fields|
    requires forall i :: 0 <= i < |fields| ==> ExpandType(defs, rank, TypeOfField(fields[i]), stack + [name]) == Ok(members[i])
    ensures ExpandType(defs, rank, name + Concat(pieces), stack) == Ok("(" + Join(members) + ")" + Concat(pieces))
  {
    PiecesStripOff(name, pieces);
    MembersExpand(defs, rank, fields, stack + [name], members);
    hide Base, Suffix, ExpandAll, Concat, Join;
    var t := name + Concat(pieces);
    assert ExpandName(defs, rank, name, stack) == Ok("(" + Join(members) + ")");
    assert ExpandType(defs, rank, t, stack) == AddSuffix(ExpandName(defs, rank, name, stack), Concat(pieces));
  }

  lemma {:induction false} MembersExpand(defs: Table, rank: string -> nat, fields: seq<string>, stack: seq<string>, members: seq<string>)
    requires Acyclic(defs, rank) && |members| == |fields|
    requires forall i :: 0 <= i < |fields| ==> ExpandType(defs, rank, TypeOfField(fields[i]), stack) == Ok(members[i])
    ensures ExpandAll(defs, rank, fields, stack) == Ok(members)
  {
    hide ExpandType;
    if fields != [] {
      MembersExpand(defs, rank, fields[1..], stack, members[1..]);
      assert [members[0]] + members[1..] == members;
    }
  }

  /** A rendered type names no alias that the renderer shows. */
  lemma {:induction false} RenderedNamesNoAlias(defs: Table, rank: string -> nat, t: string)
    requires Acyclic(defs, rank) && TargetsWellBracketed(defs) && WellBracketed(t)
    ensures
      var base := Base(ReplaceAlias(defs, rank, t));
      base in defs ==> defs[base].Struct?
    decreases rank(Base(t))
  {
    var base := Base(t);
    StripParts(t);
    hide Base, Suffix;
    if base in defs && defs[base].Alias? {
      RenderedNamesNoAlias(defs, rank, defs[base].target);
      SuffixStacks(ReplaceAlias(defs, rank, defs[base].target), t);
    } else {
      assert ReplaceAlias(defs, rank, t) == t;
    }
  }
}
