/** Signatures as spec/generate_v1_canonical_abi.py reads them: a name, and types separated by the commas
    that stand outside all brackets. */
module Signatures {
  import opened Results

  /** The nesting depth after one more character. */
  function Shift(depth: int, c: char): int {
    if c == '(' || c == '[' then depth + 1 else if c == ')' || c == ']' then depth - 1 else depth
  }

  function Depth(s: string, depth: int): int {
    if s == "" then depth else Depth(s[1..], Shift(depth, s[0]))
  }

  /** The first piece grows by a prefix. */
  function Glue(prefix: string, pieces: seq<string>): seq<string>
    requires pieces != []
  {
    [prefix + pieces[0]] + pieces[1..]
  }

  /** The pieces of `s` between the commas met at depth zero, reading from the given depth. */
  function Pieces(s: string, depth: int): (r: seq<string>)
    ensures r != []
  {
    if s == "" then [""]
    else if s[0] == ',' && depth == 0 then [""] + Pieces(s[1..], depth)
    else Glue([s[0]], Pieces(s[1..], Shift(depth, s[0])))
  }

  function Split(value: string): seq<string> {
    if value == "" then [] else Pieces(value, 0)
  }

  /** The pieces still to come, when the piece in hand began at `start` and `index` is read next. */
  function Ahead(value: string, start: nat, index: nat, depth: int): seq<string>
    requires start <= index <= |value|
  {
    Glue(value[start..index], Pieces(value[index..], depth))
  }

  method SplitTopLevel(value: string) returns (parts: seq<string>)
    ensures parts == Split(value)
  {
    if value == "" {
      return [];
    }
    parts := [];
    var start, depth := 0, 0;
    AheadBegins(value);
    hide Ahead, Pieces, Glue;
    for index := 0 to |value|
      invariant 0 <= start <= index
      invariant Pieces(value, 0) == parts + Ahead(value, start, index, depth)
    {
      var c := value[index];
      AheadStep(value, start, index, depth);
      if c == '(' || c == '[' {
        depth := depth + 1;
      } else if c == ')' || c == ']' {
        depth := depth - 1;
      } else if c == ',' && depth == 0 {
        PushOne(parts, value[start..index], Ahead(value, index + 1, index + 1, 0));
        parts := parts + [value[start..index]];
        start := index + 1;
      }
    }
    AheadEnds(value, start, depth);
    parts := parts + [value[start..]];
  }

  lemma PushOne(parts: seq<string>, piece: string, rest: seq<string>)
    ensures parts + ([piece] + rest) == parts + [piece] + rest
  {
  }

  lemma AheadStep(value: string, start: nat, index: nat, depth: int)
    requires start <= index < |value|
    ensures Ahead(value, start, index, depth)
         == if value[index] == ',' && depth == 0 then [value[start..index]] + Ahead(value, index + 1, index + 1, 0)
            else Ahead(value, start, index + 1, Shift(depth, value[index]))
  {
    var before, c, rest := value[start..index], value[index], value[index + 1..];
    assert value[index..] == [c] + rest && value[start..index + 1] == before + [c];
    assert value[index + 1..index + 1] == "";
    ReadOne(before, c, rest, depth);
  }

  lemma AheadBegins(value: string)
    ensures Ahead(value, 0, 0, 0) == Pieces(value, 0)
  {
    assert value[0..0] == "" && value[0..] == value;
    hide Pieces;
    GlueTwice("", "", Pieces(value, 0));
    hide Glue;
  }

  lemma AheadEnds(value: string, start: nat, depth: int)
    requires start <= |value|
    ensures Ahead(value, start, |value|, depth) == [value[start..]]
  {
    assert value[|value|..] == "" && value[start..|value|] == value[start..];
    assert Pieces("", depth) == [""];
    hide Pieces;
    assert value[start..] + "" == value[start..];
  }

  /** Reading one character either ends the piece in hand or lengthens it. */
  lemma ReadOne(before: string, c: char, rest: string, depth: int)
    ensures Glue(before, Pieces([c] + rest, depth))
         == if c == ',' && depth == 0 then [before] + Glue("", Pieces(rest, 0))
            else Glue(before + [c], Pieces(rest, Shift(depth, c)))
  {
    assert ([c] + rest)[1..] == rest;
    GlueTwice(before, [c], Pieces(rest, Shift(depth, c)));
    GlueTwice("", "", Pieces(rest, 0));
    assert before + "" == before;
    assert ([""] + Pieces(rest, 0))[1..] == Pieces(rest, 0);
  }

  lemma GlueTwice(a: string, b: string, pieces: seq<string>)
    requires pieces != []
    ensures Glue(a, Glue(b, pieces)) == Glue(a + b, pieces)
    ensures Glue("", pieces) == pieces
  {
    assert a + (b + pieces[0]) == a + b + pieces[0];
    assert "" + pieces[0] == pieces[0];
    assert Glue("", pieces) == [pieces[0]] + pieces[1..];
  }

  function Join(parts: seq<string>): string {
    if parts == [] then "" else if |parts| == 1 then parts[0] else parts[0] + "," + Join(parts[1..])
  }

  /** The name before the first parenthesis, and all that follows it but the last character. */
  function ParseSignature(signature: string): Option<(string, string)> {
    if '(' !in signature then None
    else
      var open := IndexOf(signature, '(');
      Some((signature[..open], if open + 1 < |signature| then signature[open + 1..|signature| - 1] else ""))
  }

  function IndexOf(s: string, c: char): (i: nat)
    requires c in s
    ensures i < |s| && s[i] == c && c !in s[..i]
  {
    if s[0] == c then 0 else 1 + IndexOf(s[1..], c)
  }

  // ---------------------------------------------------------------- joining what was split

  lemma {:induction false} JoinGlue(prefix: string, pieces: seq<string>)
    requires pieces != []
    ensures Join(Glue(prefix, pieces)) == prefix + Join(pieces)
  {
    if |pieces| > 1 {
      assert Glue(prefix, pieces)[1..] == pieces[1..];
      assert prefix + pieces[0] + "," + Join(pieces[1..]) == prefix + (pieces[0] + "," + Join(pieces[1..]));
    }
  }

  lemma {:induction false} JoinPieces(s: string, depth: int)
    ensures Join(Pieces(s, depth)) == s
  {
    if s != "" {
      if s[0] == ',' && depth == 0 {
        JoinPieces(s[1..], depth);
        assert ([""] + Pieces(s[1..], depth))[1..] == Pieces(s[1..], depth);
        assert "" + "," + s[1..] == s;
      } else {
        JoinPieces(s[1..], Shift(depth, s[0]));
        JoinGlue([s[0]], Pieces(s[1..], Shift(depth, s[0])));
      }
    }
  }

  /** Joining the split of any value gives the value back. */
  lemma JoinOfSplit(value: string)
    ensures Join(Split(value)) == value
  {
    JoinPieces(value, 0);
  }

  // ---------------------------------------------------------------- splitting what was joined

  /** No comma of `s` is met at depth zero, reading from the given depth. */
  predicate NoTopComma(s: string, depth: int) {
    s == "" || (!(s[0] == ',' && depth == 0) && NoTopComma(s[1..], Shift(depth, s[0])))
  }

  /** What a list must be for its join to be split where it was joined. */
  predicate Separable(parts: seq<string>) {
    && (forall i :: 0 <= i < |parts| ==> NoTopComma(parts[i], 0))
    && (forall i :: 0 <= i < |parts| - 1 ==> Depth(parts[i], 0) == 0)
  }

  lemma {:induction false} PiecesOfOne(s: string, depth: int)
    requires NoTopComma(s, depth)
    ensures Pieces(s, depth) == [s]
  {
    if s != "" {
      PiecesOfOne(s[1..], Shift(depth, s[0]));
      assert [s[0]] + s[1..] == s;
    }
  }

  lemma {:induction false} PiecesOfFirst(s: string, depth: int, rest: string)
    requires NoTopComma(s, depth) && Depth(s, depth) == 0
    ensures Pieces(s + "," + rest, depth) == [s] + Pieces(rest, 0)
  {
    if s == "" {
      assert s + "," + rest == "," + rest;
      assert ("," + rest)[1..] == rest;
    } else {
      assert (s + "," + rest)[1..] == s[1..] + "," + rest;
      PiecesOfFirst(s[1..], Shift(depth, s[0]), rest);
      assert [s[0]] + s[1..] == s;
      assert ([s[1..]] + Pieces(rest, 0))[1..] == Pieces(rest, 0);
    }
  }

  lemma {:induction false} PiecesOfJoin(parts: seq<string>)
    requires parts != [] && Separable(parts)
    ensures Pieces(Join(parts), 0) == parts
  {
    if |parts| == 1 {
      PiecesOfOne(parts[0], 0);
    } else {
      assert Separable(parts[1..]) by {
        assert forall i :: 0 <= i < |parts| - 1 ==> parts[1..][i] == parts[i + 1];
      }
      PiecesOfJoin(parts[1..]);
      PiecesOfFirst(parts[0], 0, Join(parts[1..]));
    }
  }

  /** The pieces themselves have no comma at depth zero, and all but the last end where they began. */
  lemma {:induction false} PiecesSeparable(s: string, depth: int)
    ensures
      var p := Pieces(s, depth);
      && NoTopComma(p[0], depth) && Separable(p[1..])
      && (1 < |p| ==> Depth(p[0], depth) == 0)
  {
    if s != "" {
      if s[0] == ',' && depth == 0 {
        PiecesSeparable(s[1..], depth);
        var rest := Pieces(s[1..], depth);
        assert ([""] + rest)[1..] == rest;
        assert forall i :: 0 < i < |rest| ==> rest[i] == rest[1..][i - 1];
      } else {
        var rest := Pieces(s[1..], Shift(depth, s[0]));
        PiecesSeparable(s[1..], Shift(depth, s[0]));
        assert Glue([s[0]], rest)[1..] == rest[1..];
        assert ([s[0]] + rest[0])[1..] == rest[0];
      }
    }
  }

  /** Splitting a join returns the parts exactly when no part has a comma outside its brackets and every
      part but the last is balanced; the one list that joins to nothing but is not empty is the exception. */
  lemma SplitOfJoin(parts: seq<string>)
    ensures Split(Join(parts)) == parts <==> parts != [""] && Separable(parts)
  {
    JoinIsEmptyOnlyFor(parts);
    hide Join, Pieces, NoTopComma, Depth;
    if parts != [] && parts != [""] {
      if Separable(parts) {
        PiecesOfJoin(parts);
      }
      if Pieces(Join(parts), 0) == parts {
        PiecesSeparable(Join(parts), 0);
        assert forall i :: 0 < i < |parts| ==> parts[i] == parts[1..][i - 1];
      }
    }
  }

  lemma JoinIsEmptyOnlyFor(parts: seq<string>)
    ensures Join(parts) == "" <==> parts == [] || parts == [""]
  {
  }
}
