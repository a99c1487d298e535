/** Array suffixes of type names, as spec/generate_v1_canonical_abi.py and spec/generate_v1_interfaces.py
    strip them: from the last opening bracket on, as long as a closing bracket ends the name. */
module ArraySuffix {
  predicate EndsBracket(t: string) {
    t != "" && t[|t| - 1] == ']'
  }

  /** The last position of an opening bracket, or -1. */
  function LastOpen(t: string): (i: int)
    ensures -1 <= i < |t|
    ensures 0 <= i ==> t[i] == '['
  {
    if t == "" then -1 else if t[|t| - 1] == '[' then |t| - 1 else LastOpen(t[..|t| - 1])
  }

  /** Where the last bracketed piece starts; position -1 counts from the end. */
  function PieceStart(t: string): nat
    requires t != ""
  {
    if LastOpen(t) == -1 then |t| - 1 else LastOpen(t)
  }

  /** What is left after all trailing bracketed pieces. */
  function Base(t: string): string {
    if EndsBracket(t) then Base(t[..PieceStart(t)]) else t
  }

  function Suffix(t: string): string {
    if EndsBracket(t) then Suffix(t[..PieceStart(t)]) + t[PieceStart(t)..] else ""
  }

  method StripArraySuffix(typeName: string) returns (base: string, arraySuffix: string)
    ensures base == Base(typeName) && arraySuffix == Suffix(typeName)
  {
    base, arraySuffix := typeName, "";
    while EndsBracket(base)
      invariant Base(base) == Base(typeName)
      invariant Suffix(base) + arraySuffix == Suffix(typeName)
      decreases |base|
    {
      var bracket := PieceStart(base);
      Regroup(Suffix(base[..bracket]), base[bracket..], arraySuffix);
      arraySuffix := base[bracket..] + arraySuffix;
      base := base[..bracket];
    }
  }

  lemma Regroup(a: string, b: string, c: string)
    ensures a + (b + c) == a + b + c
  {
  }

  lemma StripOnce(t: string)
    ensures EndsBracket(t) ==> Base(t) == Base(t[..PieceStart(t)])
    ensures EndsBracket(t) ==> Suffix(t) == Suffix(t[..PieceStart(t)]) + t[PieceStart(t)..]
    ensures !EndsBracket(t) ==> Base(t) == t && Suffix(t) == ""
  {
  }

  /** Base and suffix together are the name, and nothing more can be stripped off the base. */
  lemma {:induction false} StripParts(t: string)
    ensures Base(t) + Suffix(t) == t && !EndsBracket(Base(t))
  {
    StripOnce(t);
    hide Base, Suffix, LastOpen;
    if EndsBracket(t) {
      var front, piece := t[..PieceStart(t)], t[PieceStart(t)..];
      assert front + piece == t;
      StripParts(front);
      Regroup(Base(front), Suffix(front), piece);
    } else {
      assert t + "" == t;
    }
  }

  /** The suffix opens every bracket it closes. */
  predicate WellBracketed(t: string) {
    Suffix(t) == "" || Suffix(t)[0] == '['
  }

  lemma {:induction false} LastOpenOfConcat(a: string, b: string)
    requires LastOpen(b) != -1
    ensures LastOpen(a + b) == |a| + LastOpen(b)
  {
    if b[|b| - 1] != '[' {
      assert (a + b)[..|a + b| - 1] == a + b[..|b| - 1];
      LastOpenOfConcat(a, b[..|b| - 1]);
    }
  }

  lemma {:induction false} LastOpenIsLast(t: string, k: nat)
    requires LastOpen(t) < k < |t|
    ensures t[k] != '['
  {
    if k < |t| - 1 {
      LastOpenIsLast(t[..|t| - 1], k);
    }
  }

  /** One bracketed piece behind any name is what is stripped first. */
  lemma PieceComesOff(front: string, piece: string)
    requires EndsBracket(piece) && LastOpen(piece) == 0
    ensures Base(front + piece) == Base(front)
    ensures Suffix(front + piece) == Suffix(front) + piece
  {
    var whole := front + piece;
    LastOpenOfConcat(front, piece);
    hide LastOpen;
    assert PieceStart(whole) == |front| && EndsBracket(whole);
    assert whole[..|front|] == front && whole[|front|..] == piece;
  }

  lemma LastPieceOpens(t: string)
    requires EndsBracket(t) && WellBracketed(t)
    ensures LastOpen(t) != -1
  {
    StripParts(t);
    if LastOpen(t) == -1 {
      var first := |Base(t)|;
      assert Suffix(t) != "";
      assert t[first] == Suffix(t)[0];
      LastOpenIsLast(t, first);
    }
  }

  lemma PieceOpensOnce(t: string)
    requires LastOpen(t) != -1
    ensures LastOpen(t[LastOpen(t)..]) == 0
  {
    var i := LastOpen(t);
    var piece := t[i..];
    if LastOpen(piece) == -1 {
      LastOpenIsLast(piece, 0);
    } else if LastOpen(piece) != 0 {
      LastOpenIsLast(t, i + LastOpen(piece));
    }
  }

  /** A well-bracketed suffix is a shorter one and one more piece. */
  lemma LastPiece(t: string) returns (front: string, piece: string)
    requires EndsBracket(t) && WellBracketed(t)
    ensures t == front + piece && |front| < |t| && EndsBracket(piece) && LastOpen(piece) == 0
    ensures WellBracketed(front) && Suffix(t) == Suffix(front) + piece
  {
    LastPieceOpens(t);
    PieceOpensOnce(t);
    StripOnce(t);
    hide Suffix, LastOpen;
    var i := PieceStart(t);
    front, piece := t[..i], t[i..];
    assert t == front + piece;
    assert piece[|piece| - 1] == t[|t| - 1];
    assert Suffix(front) != "" ==> Suffix(front)[0] == Suffix(t)[0];
  }

  /** A well-bracketed suffix put behind any name is stripped off again, whatever the name strips itself. */
  lemma {:induction false} SuffixStacks(r: string, t: string)
    requires WellBracketed(t)
    ensures Base(r + Suffix(t)) == Base(r) && Suffix(r + Suffix(t)) == Suffix(r) + Suffix(t)
    decreases |t|
  {
    if !EndsBracket(t) {
      assert r + "" == r && Suffix(r) + "" == Suffix(r);
    } else {
      hide Base, Suffix, LastOpen;
      var front, piece := LastPiece(t);
      SuffixStacks(r, front);
      PieceComesOff(r + Suffix(front), piece);
      Regroup(r, Suffix(front), piece);
      Regroup(Suffix(r), Suffix(front), piece);
    }
  }

  lemma {:induction false} LastOpenStays(a: string, b: string)
    requires '[' !in b
    ensures LastOpen(a + b) == LastOpen(a)
    decreases |b|
  {
    if b == "" {
      assert a + b == a;
    } else {
      assert (a + b)[..|a + b| - 1] == a + b[..|b| - 1];
      LastOpenStays(a, b[..|b| - 1]);
    }
  }

  lemma SuffixOpensNothing(t: string)
    requires LastOpen(t) == -1
    ensures '[' !in Suffix(t)
  {
    StripParts(t);
    hide Base, Suffix;
    if '[' in Suffix(t) {
      var k: nat :| k < |Suffix(t)| && Suffix(t)[k] == '[';
      assert t[|Base(t)| + k] == '[';
      LastOpenIsLast(t, |Base(t)| + k);
    }
  }

  /** A suffix that closes more than it opens swallows an opening bracket put before it. */
  lemma {:induction false} StraySuffixSwallows(p: string, t: string)
    requires !WellBracketed(t) && !EndsBracket(p)
    ensures Base(p + "[y" + Suffix(t)) == p && Suffix(p + "[y" + Suffix(t)) == "[y" + Suffix(t)
    decreases |t|
  {
    StripOnce(t);
    StripParts(t);
    StripOnce(p);
    hide Base, Suffix;
    var u := Suffix(t);
    if LastOpen(t) == -1 {
      SuffixOpensNothing(t);
      LastOpenStays("[y", u);
      assert LastOpen("[y") == 0 by {
        assert "[y"[..1] == "[";
      }
      assert t[|t| - 1] == u[|u| - 1];
      hide LastOpen;
      PieceComesOff(p, "[y" + u);
      Regroup(p, "[y", u);
      assert "" + ("[y" + u) == "[y" + u;
    } else {
      PieceOpensOnce(t);
      hide LastOpen;
      var front, piece := t[..PieceStart(t)], t[PieceStart(t)..];
      assert u == Suffix(front) + piece;
      assert Suffix(front) != "" && Suffix(front)[0] == u[0];
      assert piece[|piece| - 1] == t[|t| - 1];
      StraySuffixSwallows(p, front);
      PieceComesOff(p + "[y" + Suffix(front), piece);
      Regroup(p + "[y", Suffix(front), piece);
      Regroup("[y", Suffix(front), piece);
    }
  }
}
