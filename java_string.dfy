/**
 * The parts of java.lang.String the library resolver relies on: startsWith, contains,
 * split on a single separator character, and the decimal text of an int that string
 * concatenation produces.
 */
module JavaString {

  /** String.startsWith */
  predicate StartsWith(s: string, prefix: string) {
    prefix <= s
  }

  /** `sub` occurs in `s` starting at index `i`. */
  ghost predicate OccursAt(s: string, sub: string, i: int) {
    0 <= i && i + |sub| <= |s| && s[i..i + |sub|] == sub
  }

  /** String.contains: scans `s` left to right for an occurrence of `sub`. */
  function Contains(s: string, sub: string): bool
    decreases |s|
  {
    if |s| < |sub| then false
    else if sub <= s then true
    else Contains(s[1..], sub)
  }

  /** Contains finds an occurrence exactly when there is one. */
  lemma {:induction false} ContainsIff(s: string, sub: string)
    ensures Contains(s, sub) <==> exists i :: OccursAt(s, sub, i)
    decreases |s|
  {
    if |s| < |sub| {
    } else if sub <= s {
      assert s[0..|sub|] == sub;
      assert OccursAt(s, sub, 0);
    } else {
      ContainsIff(s[1..], sub);
      if exists i :: OccursAt(s[1..], sub, i) {
        var i :| OccursAt(s[1..], sub, i);
        assert s[i + 1..i + 1 + |sub|] == s[1..][i..i + |sub|];
        assert OccursAt(s, sub, i + 1);
      }
      if exists i :: OccursAt(s, sub, i) {
        var i :| OccursAt(s, sub, i);
        if i == 0 {
          assert false;
        }
        assert s[1..][i - 1..i - 1 + |sub|] == s[i..i + |sub|];
        assert OccursAt(s[1..], sub, i - 1);
      }
    }
  }

  /** Whatever is appended at the end of a string occurs in the result. */
  lemma {:induction false} ContainsAppended(s: string, t: string)
    ensures Contains(s + t, t)
    decreases |s|
  {
    if s == [] {
      assert s + t == t;
    } else if !(t <= s + t) {
      assert (s + t)[1..] == s[1..] + t;
      ContainsAppended(s[1..], t);
    }
  }

  /** Position of the first `c` in `s` (String.indexOf). */
  function IndexOf(s: string, c: char): (k: nat)
    requires c in s
    ensures k < |s| && s[k] == c
    ensures forall i :: 0 <= i < k ==> s[i] != c
  {
    if s[0] == c then 0 else 1 + IndexOf(s[1..], c)
  }

  /**
   * Every `sep`-separated field of `s`, empty ones included: a string with n
   * separators has n + 1 fields.
   */
  function Fields(s: string, sep: char): (r: seq<string>)
    ensures |r| >= 1
    decreases |s|
  {
    if sep !in s then [s]
    else
      var k := IndexOf(s, sep);
      [s[..k]] + Fields(s[k + 1..], sep)
  }

  /** The fields of `s` joined back together with `sep` between them. */
  function Join(fields: seq<string>, sep: char): string
    requires |fields| >= 1
  {
    if |fields| == 1 then fields[0]
    else fields[0] + [sep] + Join(fields[1..], sep)
  }

  /** No field contains the separator. */
  lemma {:induction false} FieldsHaveNoSeparator(s: string, sep: char)
    ensures forall i :: 0 <= i < |Fields(s, sep)| ==> sep !in Fields(s, sep)[i]
    decreases |s|
  {
    if sep in s {
      var k := IndexOf(s, sep);
      FieldsHaveNoSeparator(s[k + 1..], sep);
    }
  }

  /** Splitting and joining again gives back the original string. */
  lemma {:induction false} JoinFields(s: string, sep: char)
    ensures Join(Fields(s, sep), sep) == s
    decreases |s|
  {
    if sep in s {
      var k := IndexOf(s, sep);
      var fields := Fields(s, sep);
      var rest := Fields(s[k + 1..], sep);
      assert fields == [s[..k]] + rest;
      assert fields[0] == s[..k] && fields[1..] == rest;
      JoinFields(s[k + 1..], sep);
      assert Join(fields, sep) == s[..k] + [sep] + Join(rest, sep);
      assert s == s[..k] + [sep] + s[k + 1..];
    }
  }

  /** A separator-free string before the first separator is the first field. */
  lemma FieldsAfterFirst(first: string, sep: char, rest: string)
    requires sep !in first
    ensures Fields(first + [sep] + rest, sep) == [first] + Fields(rest, sep)
  {
    var s := first + [sep] + rest;
    assert s[|first|] == sep;
    var k := IndexOf(s, sep);
    assert k == |first|;
    assert s[..k] == first;
    assert s[k + 1..] == rest;
  }

  /** Joining separator-free fields and splitting again gives back the fields. */
  lemma {:induction false} FieldsJoin(fields: seq<string>, sep: char)
    requires |fields| >= 1
    requires forall i :: 0 <= i < |fields| ==> sep !in fields[i]
    ensures Fields(Join(fields, sep), sep) == fields
    decreases |fields|
  {
    if |fields| > 1 {
      FieldsAfterFirst(fields[0], sep, Join(fields[1..], sep));
      FieldsJoin(fields[1..], sep);
      assert fields == [fields[0]] + fields[1..];
    }
  }

  /** Appending `sep` and a separator-free string adds exactly one field. */
  lemma {:induction false} FieldsAppend(s: string, sep: char, t: string)
    requires sep !in t
    ensures Fields(s + [sep] + t, sep) == Fields(s, sep) + [t]
    decreases |s|
  {
    if sep !in s {
      FieldsAfterFirst(s, sep, t);
    } else {
      var j := IndexOf(s, sep);
      var first, rest := s[..j], s[j + 1..];
      assert s == first + [sep] + rest;
      assert s + [sep] + t == first + [sep] + (rest + [sep] + t);
      FieldsAfterFirst(first, sep, rest + [sep] + t);
      FieldsAppend(rest, sep, t);
    }
  }

  /** Drops the empty strings at the end of `fields`. */
  function DropTrailingEmpty(fields: seq<string>): (r: seq<string>)
    ensures r <= fields
    ensures r == [] || r[|r| - 1] != ""
    ensures forall i :: |r| <= i < |fields| ==> fields[i] == ""
  {
    if fields == [] || fields[|fields| - 1] != "" then fields
    else DropTrailingEmpty(fields[..|fields| - 1])
  }

  /**
   * String.split with a one-character separator and no limit: a string without the
   * separator is returned whole (so "" splits into [""]); otherwise the fields, with
   * trailing empty fields removed and leading and interior ones kept.
   */
  function Split(s: string, sep: char): (r: seq<string>)
    ensures sep !in s ==> r == [s]
    ensures forall i :: 0 <= i < |r| ==> sep !in r[i]
    ensures sep in s ==> r <= Fields(s, sep) && (r == [] || r[|r| - 1] != "")
    ensures sep in s ==> forall i :: |r| <= i < |Fields(s, sep)| ==> Fields(s, sep)[i] == ""
  {
    FieldsHaveNoSeparator(s, sep);
    if sep !in s then [s] else DropTrailingEmpty(Fields(s, sep))
  }

  /** Appending `sep` and a non-empty, separator-free string: the split is every field of the
    * original, trailing empty ones included, then the new string. */
  lemma SplitAfterAppend(s: string, sep: char, t: string)
    requires sep !in t && t != ""
    ensures Split(s + [sep] + t, sep) == Fields(s, sep) + [t]
  {
    var u := s + [sep] + t;
    assert u[|s|] == sep;
    FieldsAppend(s, sep, t);
  }

  /** The decimal digit for 0 <= d < 10. */
  function Digit(d: nat): char
    requires d < 10
  {
    "0123456789"[d]
  }

  predicate IsDigit(c: char) {
    '0' <= c <= '9'
  }

  /** The number a string of decimal digits denotes. */
  function DecimalValue(s: string): nat
    requires forall i :: 0 <= i < |s| ==> IsDigit(s[i])
  {
    if s == [] then 0
    else
      assert IsDigit(s[|s| - 1]);
      10 * DecimalValue(s[..|s| - 1]) + (s[|s| - 1] as int - '0' as int)
  }

  /** Decimal text of a natural number, without leading zeros. */
  function NatToString(n: nat): (r: string)
    ensures r != [] && forall i :: 0 <= i < |r| ==> IsDigit(r[i])
    ensures r[0] == '0' ==> n == 0
  {
    if n < 10 then [Digit(n)]
    else NatToString(n / 10) + [Digit(n % 10)]
  }

  /** Reading the decimal text back gives the number. */
  lemma {:induction false} NatToStringRoundTrip(n: nat)
    ensures DecimalValue(NatToString(n)) == n
  {
    var r := NatToString(n);
    if n >= 10 {
      NatToStringRoundTrip(n / 10);
      assert r[..|r| - 1] == NatToString(n / 10);
    }
  }

  /** The text `"" + i` gives for a Java int: a minus sign before the digits when negative. */
  function IntToString(i: int): string {
    if i < 0 then "-" + NatToString(-i) else NatToString(i)
  }
}
