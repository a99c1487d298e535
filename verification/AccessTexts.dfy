/** The texts the planner reads, spelled out: which are addresses, when two of them are the same address, and
    which role names stand for which numbers. */
module AccessTexts {
  import opened Results
  import opened AccessPlan

  predicate HexDigit(c: char) {
    '0' <= c <= '9' || 'a' <= c <= 'f' || 'A' <= c <= 'F'
  }

  /** `0x` and forty hexadecimal digits, of which not all are zero. */
  ghost predicate IsAddress(text: string) {
    && |text| == 42 && text[0] == '0' && text[1] == 'x'
    && (forall i :: 2 <= i < 42 ==> HexDigit(text[i]))
    && exists i :: 2 <= i < 42 && text[i] != '0'
  }

  /** The text with its capital letters made small. */
  function Lower(text: string): string {
    seq(|text|, i requires 0 <= i < |text| => Small(text[i]))
  }

  function Small(c: char): char {
    if 'A' <= c <= 'Z' then c - 'A' + 'a' else c
  }

  lemma SameDigits(c: char)
    ensures HexDigit(c) <==> IsHexDigit(c)
    ensures HexDigit(c) || c == 'x' ==> LowerHex(c) == Small(c)
  {
  }

  lemma SameBeginning(text: string)
    requires 2 <= |text|
    ensures text[..2] == "0x" <==> text[0] == '0' && text[1] == 'x'
  {
    assert text[..2] == [text[0], text[1]];
  }

  /** The 40 characters after the prefix are tested alike. */
  lemma SameTests(text: string)
    requires |text| == 42
    ensures (exists i :: 2 <= i < 42 && !IsHexDigit(text[i])) <==> !(forall i :: 2 <= i < 42 ==> HexDigit(text[i]))
    ensures (forall i :: 2 <= i < 42 ==> text[i] == '0') <==> !(exists i :: 2 <= i < 42 && text[i] != '0')
  {
    forall i | 2 <= i < 42
      ensures HexDigit(text[i]) <==> IsHexDigit(text[i])
    {
      SameDigits(text[i]);
    }
    hide HexDigit, IsHexDigit;
  }

  lemma AddressIsAddress(text: string)
    ensures Address(text).Ok? <==> IsAddress(text)
    ensures Address(text).Err? ==> Address(text).error == InvalidAddress(text)
  {
    if |text| == 42 {
      SameBeginning(text);
      SameTests(text);
    }
    hide HexDigit, IsHexDigit, LowerHex;
  }

  lemma AddressValue(text: string)
    requires Address(text).Ok?
    ensures Address(text).value == seq(42, i requires 0 <= i < 42 => LowerHex(text[i]))
  {
    hide HexDigit, IsHexDigit, LowerHex;
  }

  /** The planner takes exactly the addresses, each in small letters. */
  lemma AddressAccepted(text: string)
    ensures Address(text).Ok? <==> IsAddress(text)
    ensures Address(text).Ok? ==> Address(text).value == Lower(text)
    ensures Address(text).Err? ==> Address(text).error == InvalidAddress(text)
  {
    AddressIsAddress(text);
    if Address(text).Ok? {
      AddressValue(text);
      hide Address;
      forall i | 0 <= i < 42
        ensures LowerHex(text[i]) == Small(text[i])
      {
        SameDigits(text[i]);
      }
      hide LowerHex, Small, HexDigit;
      assert Address(text).value == Lower(text);
    }
  }

  lemma AddressesSpelled()
    ensures forall text :: (Address(text).Ok? <==> IsAddress(text)) && (IsAddress(text) ==> Address(text) == Ok(Lower(text)))
  {
    forall text: string
      ensures (Address(text).Ok? <==> IsAddress(text)) && (IsAddress(text) ==> Address(text) == Ok(Lower(text)))
    {
      AddressAccepted(text);
    }
  }

  /** Texts that differ only in the case of their letters are one address. */
  lemma CaseDoesNotMatter(x: string, y: string)
    requires |x| == |y|
    requires forall i :: 0 <= i < |x| ==> x[i] == y[i] || (2 <= i && 'a' <= x[i] <= 'f' && y[i] as int == x[i] as int - 32)
    ensures IsAddress(x) <==> IsAddress(y)
    ensures IsAddress(x) ==> Address(x) == Address(y)
  {
    forall i | 0 <= i < |x|
      ensures HexDigit(x[i]) <==> HexDigit(y[i])
      ensures x[i] == '0' <==> y[i] == '0'
      ensures Small(x[i]) == Small(y[i])
    {
      SameLetterMeans(x[i], y[i]);
    }
    SameText(x, y);
    AddressAccepted(x);
    AddressAccepted(y);
    hide Address, Lower, Small, HexDigit;
    if |x| == 42 {
      LettersMatter(x, y);
    }
  }

  lemma SameText(x: string, y: string)
    requires |x| == |y| && forall i :: 0 <= i < |x| ==> Small(x[i]) == Small(y[i])
    ensures Lower(x) == Lower(y)
  {
    hide Small;
  }

  lemma LettersMatter(x: string, y: string)
    requires |x| == |y| == 42 && (forall i :: 0 <= i < 42 ==> (HexDigit(x[i]) <==> HexDigit(y[i])) && (x[i] == '0' <==> y[i] == '0'))
    requires x[1] == y[1]
    ensures IsAddress(x) <==> IsAddress(y)
  {
    hide HexDigit;
  }

  lemma SameLetterMeans(c: char, d: char)
    requires c == d || ('a' <= c <= 'f' && d as int == c as int - 32)
    ensures HexDigit(c) <==> HexDigit(d)
    ensures c == '0' <==> d == '0'
    ensures Small(c) == Small(d)
  {
  }

  // ---------------------------------------------------------------- role names

  /** The caller names that gate a mutation by a role, and the role's number. */
  predicate GatedBy(caller: string, role: nat) {
    || (caller == "PROTOCOL_ADMIN_ROLE" && role == 1)
    || (caller == "PAUSE_GUARDIAN_ROLE" && role == 2)
    || (caller == "UNPAUSE_ROLE" && role == 3)
  }

  predicate Gated(caller: string) {
    caller in {"PROTOCOL_ADMIN_ROLE", "PAUSE_GUARDIAN_ROLE", "UNPAUSE_ROLE"}
  }

  /** The planner's table of role names is this one. */
  lemma RolesSpelled()
    ensures forall caller: string, role: nat :: RoleOf(caller) == Some(role) <==> GatedBy(caller, role)
    ensures forall caller: string :: RoleOf(caller).Some? <==> Gated(caller)
  {
  }
}
