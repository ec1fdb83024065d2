/**
  Text helpers the controller, the repository and the cache keys rely on:
  lower-casing (ASCII only), ordinal substring search and the decimal rendering
  of an integer that C# string interpolation produces.
 */
module Text {

  /** Lower-cases one character; only the ASCII letters A-Z are mapped. */
  function LowerChar(c: char): char
  {
    if 'A' <= c <= 'Z' then (c as int + 32) as char else c
  }

  /** `string.ToLower()`, restricted to ASCII: every character is lower-cased
      in place and the length is kept. */
  function Lower(s: string): (r: string)
    ensures |r| == |s|
    ensures forall i :: 0 <= i < |s| ==> r[i] == LowerChar(s[i])
  {
    if s == [] then [] else [LowerChar(s[0])] + Lower(s[1..])
  }

  /** Lower-casing twice is lower-casing once. */
  lemma LowerIdempotent(s: string)
    ensures Lower(Lower(s)) == Lower(s)
  {
    assert forall i :: 0 <= i < |s| ==> LowerChar(LowerChar(s[i])) == LowerChar(s[i]);
  }

  /** `sub` occurs in `s` starting at offset `i`. */
  predicate OccursAt(s: string, sub: string, i: int)
  {
    0 <= i && i + |sub| <= |s| && s[i..i + |sub|] == sub
  }

  /** Ordinal `string.Contains`, as a scan: `sub` is a prefix of `s` or is
      contained in the rest of `s`. */
  predicate Contains(s: string, sub: string)
    decreases |s|
  {
    |sub| <= |s| && (s[..|sub|] == sub || (|s| > 0 && Contains(s[1..], sub)))
  }

  /** The scan finds `sub` exactly when `sub` occurs in `s` at some offset. */
  lemma {:induction false} ContainsIffOccurs(s: string, sub: string)
    ensures Contains(s, sub) <==> exists i :: 0 <= i <= |s| && OccursAt(s, sub, i)
    decreases |s|
  {
    if |sub| <= |s| && |s| > 0 {
      ContainsIffOccurs(s[1..], sub);
      if s[..|sub|] == sub {
        assert OccursAt(s, sub, 0);
      } else if Contains(s, sub) {
        var i :| 0 <= i <= |s[1..]| && OccursAt(s[1..], sub, i);
        assert s[1..][i..i + |sub|] == s[i + 1..i + 1 + |sub|];
        assert OccursAt(s, sub, i + 1);
      }
      if exists i :: 0 <= i <= |s| && OccursAt(s, sub, i) {
        var i :| 0 <= i <= |s| && OccursAt(s, sub, i);
        if i == 0 {
          assert s[..|sub|] == sub;
        } else {
          assert s[1..][i - 1..i - 1 + |sub|] == s[i..i + |sub|];
          assert OccursAt(s[1..], sub, i - 1);
        }
      }
    } else if |sub| <= |s| {
      assert OccursAt(s, sub, 0);
    }
  }

  /** Every string contains itself. */
  lemma ContainsSelf(s: string)
    ensures Contains(s, s)
  {
    assert s[..|s|] == s;
  }

  predicate IsDigit(c: char)
  {
    '0' <= c <= '9'
  }

  function DigitChar(d: int): (c: char)
    requires 0 <= d < 10
    ensures IsDigit(c)
  {
    ('0' as int + d) as char
  }

  /** Decimal rendering of a natural number, most significant digit first,
      without leading zeros. */
  function NatToString(n: nat): (r: string)
    ensures 1 <= |r|
    ensures n >= 10 <==> |r| >= 2
    ensures forall i :: 0 <= i < |r| ==> IsDigit(r[i])
    decreases n
  {
    if n < 10 then [DigitChar(n)] else NatToString(n / 10) + [DigitChar(n % 10)]
  }

  /** Decimal rendering of an integer (`$"{i}"`): a minus sign for negative values. */
  function IntToString(i: int): (r: string)
    ensures 1 <= |r|
    ensures '_' !in r
    ensures i >= 0 <==> IsDigit(r[0])
  {
    if i < 0 then "-" + NatToString(-i) else NatToString(i)
  }

  /** Digits come most significant first. */
  lemma DecimalExamples()
    ensures IntToString(1) == "1" && IntToString(10) == "10" && IntToString(999) == "999"
  {
    assert DigitChar(0) == '0' && DigitChar(1) == '1' && DigitChar(9) == '9';
    assert NatToString(1) == "1";
    assert NatToString(10) == NatToString(1) + [DigitChar(0)] == "10";
    assert NatToString(99) == NatToString(9) + [DigitChar(9)] == "99";
    assert NatToString(999) == NatToString(99) + [DigitChar(9)] == "999";
  }

  /** Different naturals have different decimal renderings. */
  lemma {:induction false} NatToStringInjective(a: nat, b: nat)
    requires NatToString(a) == NatToString(b)
    ensures a == b
    decreases a
  {
    if a >= 10 && b >= 10 {
      var sa, sb := NatToString(a), NatToString(b);
      assert sa == NatToString(a / 10) + [DigitChar(a % 10)];
      assert sb == NatToString(b / 10) + [DigitChar(b % 10)];
      assert sa[|sa| - 1] == DigitChar(a % 10) && sb[|sb| - 1] == DigitChar(b % 10);
      assert NatToString(a / 10) == sa[..|sa| - 1] == sb[..|sb| - 1] == NatToString(b / 10);
      NatToStringInjective(a / 10, b / 10);
    }
  }

  /** Different integers have different decimal renderings. */
  lemma {:induction false} IntToStringInjective(a: int, b: int)
    requires IntToString(a) == IntToString(b)
    ensures a == b
  {
    if a < 0 && b < 0 {
      assert NatToString(-a) == IntToString(a)[1..] == IntToString(b)[1..] == NatToString(-b);
      NatToStringInjective(-a, -b);
    } else if a >= 0 && b >= 0 {
      NatToStringInjective(a, b);
    }
  }
}
