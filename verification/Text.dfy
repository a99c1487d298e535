/** Text as the programs write it: decimal numbers, keys joined with a colon, and the default order
    of strings, by code unit. */
module Text {
  import opened Sorting

  function Digit(d: nat): char
    requires d < 10
  {
    "0123456789"[d]
  }

  function Decimal(n: nat): (s: string)
    ensures s != []
  {
    if n < 10 then [Digit(n)] else Decimal(n / 10) + [Digit(n % 10)]
  }

  lemma {:induction false} DecimalHasNoColon(n: nat)
    ensures ':' !in Decimal(n)
  {
    if 10 <= n {
      DecimalHasNoColon(n / 10);
    }
  }

  lemma {:induction false} DecimalInjective(m: nat, n: nat)
    requires Decimal(m) == Decimal(n)
    ensures m == n
  {
    LastDigit(m);
    LastDigit(n);
    if 10 <= m && 10 <= n {
      DecimalInjective(m / 10, n / 10);
    }
  }

  /** The number a text of digits spells, read from the left. */
  function Spelled(digits: string): int {
    if digits == [] then 0 else 10 * Spelled(digits[..|digits| - 1]) + (digits[|digits| - 1] as int - '0' as int)
  }

  /** A decimal spells its number in digits, without a leading zero. */
  lemma {:induction false} DecimalSpells(n: nat)
    ensures Spelled(Decimal(n)) == n && (forall c :: c in Decimal(n) ==> '0' <= c <= '9')
    ensures Decimal(n)[0] == '0' ==> n == 0
  {
    LastDigit(n);
    assert Digit(n % 10) as int == '0' as int + n % 10;
    if 10 <= n {
      DecimalSpells(n / 10);
    } else {
      assert Decimal(n)[..0] == [];
    }
  }

  lemma LastDigit(n: nat)
    ensures Decimal(n)[|Decimal(n)| - 1] == Digit(n % 10)
    ensures 10 <= n ==> 2 <= |Decimal(n)| && Decimal(n)[..|Decimal(n)| - 1] == Decimal(n / 10)
    ensures n < 10 ==> |Decimal(n)| == 1
  {
  }

  /** `a:b`, as the template literals write it. */
  function Joined(a: string, b: string): string {
    a + ":" + b
  }

  lemma ColonPlaces(a: string, b: string)
    ensures Joined(a, b)[|a|] == ':'
    ensures ':' !in b ==> forall k :: 0 <= k < |Joined(a, b)| && Joined(a, b)[k] == ':' ==> k <= |a|
    ensures ':' !in a ==> forall k :: 0 <= k < |Joined(a, b)| && Joined(a, b)[k] == ':' ==> |a| <= k
    ensures Joined(a, b)[..|a|] == a && Joined(a, b)[|a| + 1..] == b
  {
  }

  /** Where neither right part has a colon, the last colon tells the parts apart; where neither left part
      has one, the first colon does. */
  lemma JoinedInjective(a: string, b: string, c: string, d: string)
    requires Joined(a, b) == Joined(c, d)
    requires (':' !in b && ':' !in d) || (':' !in a && ':' !in c)
    ensures a == c && b == d
  {
    ColonPlaces(a, b);
    ColonPlaces(c, d);
  }

  /** The default order of strings. */
  predicate TextLeq(a: string, b: string) {
    if a == [] then true
    else if b == [] then false
    else if a[0] != b[0] then a[0] < b[0]
    else TextLeq(a[1..], b[1..])
  }

  lemma SameHeads(a: string, b: string, i: nat)
    requires 0 < i <= |a| && i <= |b| && a[..i] == b[..i]
    ensures a[0] == b[0]
  {
    assert a[0] == a[..i][0] == b[..i][0] == b[0];
  }

  /** It compares the first characters that differ; a text comes before those it begins. */
  lemma {:induction false} TextLeqMeans(a: string, b: string)
    ensures TextLeq(a, b) <==>
              a <= b || exists i :: 0 <= i < |a| && i < |b| && a[..i] == b[..i] && a[i] < b[i]
  {
    if a != [] && b != [] {
      if a[0] == b[0] {
        TextLeqMeans(a[1..], b[1..]);
        assert a == [a[0]] + a[1..] && b == [b[0]] + b[1..];
        if i :| 0 <= i < |a[1..]| && i < |b[1..]| && a[1..][..i] == b[1..][..i] && a[1..][i] < b[1..][i] {
          assert a[..i + 1] == [a[0]] + a[1..][..i] && b[..i + 1] == [b[0]] + b[1..][..i];
        }
        if i :| 0 <= i < |a| && i < |b| && a[..i] == b[..i] && a[i] < b[i] {
          assert 0 < i;
          assert a[1..][..i - 1] == a[..i][1..] && b[1..][..i - 1] == b[..i][1..];
          assert a[1..][i - 1] == a[i] && b[1..][i - 1] == b[i];
        }
      } else {
        assert a[..0] == b[..0];
        if i :| 0 <= i < |a| && i < |b| && a[..i] == b[..i] && a[i] < b[i] {
          if 0 < i {
            SameHeads(a, b, i);
          }
        }
      }
    }
  }

  lemma {:induction false} TextLeqTotal(a: string, b: string)
    ensures TextLeq(a, b) || TextLeq(b, a)
    ensures TextLeq(a, b) && TextLeq(b, a) ==> a == b
  {
    if a != [] && b != [] && a[0] == b[0] {
      TextLeqTotal(a[1..], b[1..]);
      assert a == [a[0]] + a[1..] && b == [b[0]] + b[1..];
    }
  }

  lemma {:induction false} TextLeqTransitive(a: string, b: string, c: string)
    requires TextLeq(a, b) && TextLeq(b, c)
    ensures TextLeq(a, c)
  {
    if a != [] && b != [] && c != [] && a[0] == b[0] == c[0] {
      TextLeqTransitive(a[1..], b[1..], c[1..]);
    }
  }

  const textOrder: (string, string) -> bool := (a, b) => TextLeq(a, b)

  lemma TextOrderIsTotal(s: seq<string>)
    ensures TotalOrder(textOrder) && Separates(textOrder, s)
  {
    forall x: string, y: string
      ensures TextLeq(x, y) || TextLeq(y, x)
      ensures TextLeq(x, y) && TextLeq(y, x) ==> x == y
    {
      TextLeqTotal(x, y);
    }
    forall x: string, y: string, z: string | TextLeq(x, y) && TextLeq(y, z)
      ensures TextLeq(x, z)
    {
      TextLeqTransitive(x, y, z);
    }
  }
}
