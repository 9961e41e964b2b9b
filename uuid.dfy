/**
 * How PostgreSQL's `uuid` type reads a string, for the `id` and `userId` columns
 * that src/bookmark/entities/bookmark.entity.ts declares with `type: "uuid"`.
 *
 * A UUID is written as 32 hexadecimal digits in either case, with hyphens between
 * groups of digits and optionally inside braces. The column keeps the value, not
 * the spelling: it compares values, and it reads a value back in the standard
 * lower-case 8-4-4-4-12 form. `Digits` is the value of a spelling and `Canon` the
 * spelling the column reads back.
 */
module Uuid {
  /** An upper-case hexadecimal digit in lower case; any other character unchanged. */
  function LowerHex(c: char): char {
    if 'A' <= c <= 'F' then (c as int + 32) as char else c
  }

  /** The characters PostgreSQL's uuid input skips between digits. */
  predicate IsSeparator(c: char) {
    c == '-' || c == '{' || c == '}'
  }

  /** The digits a spelling writes: separators dropped, upper-case hex lowered. */
  function Digits(s: string): string {
    if s == [] then []
    else (if IsSeparator(s[0]) then [] else [LowerHex(s[0])]) + Digits(s[1..])
  }

  /** No separator and no upper-case hexadecimal digit: a string as `Digits` leaves it. */
  predicate IsPlain(d: string) {
    forall i :: 0 <= i < |d| ==> !IsSeparator(d[i]) && LowerHex(d[i]) == d[i]
  }

  /** 32 digits grouped 8-4-4-4-12; any other count is left as it is. */
  function Standard(d: string): string {
    if |d| == 32 then d[..8] + "-" + d[8..12] + "-" + d[12..16] + "-" + d[16..20] + "-" + d[20..]
    else d
  }

  /** The spelling the column reads back for the value written as `s`. */
  function Canon(s: string): string {
    Standard(Digits(s))
  }

  /** Two spellings of one UUID value: what `=` on a uuid column compares. */
  predicate SameUuid(a: string, b: string) {
    Canon(a) == Canon(b)
  }

  lemma {:induction false} DigitsAppend(a: string, b: string)
    ensures Digits(a + b) == Digits(a) + Digits(b)
  {
    if a == [] {
      assert a + b == b;
    } else {
      assert (a + b)[0] == a[0];
      assert (a + b)[1..] == a[1..] + b;
      DigitsAppend(a[1..], b);
      var head := if IsSeparator(a[0]) then [] else [LowerHex(a[0])];
      calc {
        Digits(a + b);
        head + Digits(a[1..] + b);
        head + (Digits(a[1..]) + Digits(b));
        (head + Digits(a[1..])) + Digits(b);
      }
    }
  }

  lemma {:induction false} DigitsArePlain(s: string)
    ensures IsPlain(Digits(s))
  {
    if s != [] {
      DigitsArePlain(s[1..]);
      var head := if IsSeparator(s[0]) then [] else [LowerHex(s[0])];
      assert Digits(s) == head + Digits(s[1..]);
      forall i | 0 <= i < |Digits(s)| ensures !IsSeparator(Digits(s)[i]) && LowerHex(Digits(s)[i]) == Digits(s)[i] {
        if i >= |head| { assert Digits(s)[i] == Digits(s[1..])[i - |head|]; }
      }
    }
  }

  lemma {:induction false} DigitsOfPlain(d: string)
    requires IsPlain(d)
    ensures Digits(d) == d
  {
    if d != [] {
      assert IsPlain(d[1..]) by {
        forall i | 0 <= i < |d[1..]| ensures !IsSeparator(d[1..][i]) && LowerHex(d[1..][i]) == d[1..][i] {
          assert d[1..][i] == d[i + 1];
        }
      }
      DigitsOfPlain(d[1..]);
      assert !IsSeparator(d[0]) && LowerHex(d[0]) == d[0];
      assert d == [d[0]] + d[1..];
    }
  }

  lemma PlainSlice(d: string, i: int, j: int)
    requires IsPlain(d) && 0 <= i <= j <= |d|
    ensures Digits(d[i..j]) == d[i..j]
  {
    assert IsPlain(d[i..j]) by {
      forall k | 0 <= k < j - i ensures !IsSeparator(d[i..j][k]) && LowerHex(d[i..j][k]) == d[i..j][k] {
        assert d[i..j][k] == d[i + k];
      }
    }
    DigitsOfPlain(d[i..j]);
  }

  /** The standard form of some digits writes exactly those digits. */
  lemma DigitsOfStandard(d: string)
    requires IsPlain(d)
    ensures Digits(Standard(d)) == d
  {
    if |d| == 32 {
      var a, b, c, e, f := d[..8], d[8..12], d[12..16], d[16..20], d[20..];
      PlainSlice(d, 0, 8);
      PlainSlice(d, 8, 12);
      PlainSlice(d, 12, 16);
      PlainSlice(d, 16, 20);
      PlainSlice(d, 20, 32);
      assert d[20..] == d[20..32];
      assert Digits("-") == [];
      DigitsAppend(a + "-" + b + "-" + c + "-" + e + "-", f);
      DigitsAppend(a + "-" + b + "-" + c + "-" + e, "-");
      DigitsAppend(a + "-" + b + "-" + c + "-", e);
      DigitsAppend(a + "-" + b + "-" + c, "-");
      DigitsAppend(a + "-" + b + "-", c);
      DigitsAppend(a + "-" + b, "-");
      DigitsAppend(a + "-", b);
      DigitsAppend(a, "-");
      assert a + b + c + e + f == d;
    } else {
      DigitsOfPlain(d);
    }
  }

  /** The spelling read back denotes the value written. */
  lemma CanonSameDigits(s: string)
    ensures Digits(Canon(s)) == Digits(s)
  {
    DigitsArePlain(s);
    DigitsOfStandard(Digits(s));
  }

  /** Reading back a spelling read back changes nothing. */
  lemma CanonIdempotent(s: string)
    ensures Canon(Canon(s)) == Canon(s)
  {
    CanonSameDigits(s);
  }

  /** Two spellings are one UUID exactly when they write the same digits. */
  lemma SameUuidIffSameDigits(a: string, b: string)
    ensures SameUuid(a, b) <==> Digits(a) == Digits(b)
  {
    CanonSameDigits(a);
    CanonSameDigits(b);
  }

  lemma DigitsOfOne(c: char)
    ensures Digits([c]) == if IsSeparator(c) then [] else [LowerHex(c)]
  {
    assert [c][1..] == [];
  }

  lemma DigitsAround(a: string, c: char, b: string)
    ensures Digits(a + [c] + b) == Digits(a) + Digits([c]) + Digits(b)
  {
    DigitsAppend(a + [c], b);
    DigitsAppend(a, [c]);
  }

  /**
   * Neither the case of a hexadecimal digit nor a hyphen or brace changes the value:
   * `123E4567-...` and `{123e4567...}` are the same UUID as `123e4567-...`.
   */
  lemma CaseAndSeparatorsDoNotMatter(a: string, c: char, b: string)
    ensures SameUuid(a + [c] + b, a + [LowerHex(c)] + b)
    ensures IsSeparator(c) ==> SameUuid(a + [c] + b, a + b)
  {
    DigitsAround(a, c, b);
    DigitsAround(a, LowerHex(c), b);
    DigitsOfOne(c);
    DigitsOfOne(LowerHex(c));
    assert Digits([c]) == Digits([LowerHex(c)]);
    if IsSeparator(c) {
      DigitsAppend(a, b);
      assert Digits(a) + [] + Digits(b) == Digits(a) + Digits(b);
    }
  }

  /** A plain string without 32 digits is its own canonical spelling. */
  lemma ShortPlainIsCanonical(d: string)
    requires IsPlain(d) && |d| != 32
    ensures Canon(d) == d
  {
    DigitsOfPlain(d);
  }
}
