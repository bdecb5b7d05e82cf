/**
  The parts of .NET's `System.String`, `System.Char` and `System.Int32` that
  the extension methods call: white space, trimming, ASCII case mapping,
  searching, `Replace` and decimal formatting. Only the ASCII range is given
  its .NET meaning; every other character is treated as a letter without case
  and without white-space status.
 */
module Text {
  import opened Wrappers

  // ---------------------------------------------------------------------------
  // Characters
  // ---------------------------------------------------------------------------

  /** `char.IsWhiteSpace` on the ASCII range: space, tab, line feed, vertical
      tab, form feed and carriage return. */
  predicate IsWhiteSpace(c: char) {
    c == ' ' || c == '\t' || c == '\n' || c == '\U{B}' || c == '\U{C}' || c == '\r'
  }

  predicate IsUpper(c: char) { 'A' <= c <= 'Z' }

  predicate IsLower(c: char) { 'a' <= c <= 'z' }

  predicate IsDigit(c: char) { '0' <= c <= '9' }

  /** `char.ToLower` restricted to ASCII letters, where every culture but the
      Turkish and Azeri ones agrees. */
  function ToLowerChar(c: char): (r: char)
    ensures !IsUpper(r)
    ensures IsUpper(c) ==> IsLower(r) && r as int == c as int + 32
    ensures !IsUpper(c) ==> r == c
  {
    if IsUpper(c) then (c as int + 32) as char else c
  }

  /** `char.ToUpper` restricted to ASCII letters, where every culture but the
      Turkish and Azeri ones agrees. */
  function ToUpperChar(c: char): (r: char)
    ensures !IsLower(r)
    ensures IsLower(c) ==> IsUpper(r) && r as int == c as int - 32
    ensures !IsLower(c) ==> r == c
  {
    if IsLower(c) then (c as int - 32) as char else c
  }

  /** Upper-casing first does not change what lower-casing gives. */
  lemma LowerOfUpper(c: char)
    ensures ToLowerChar(ToUpperChar(c)) == ToLowerChar(c)
  {
  }

  // ---------------------------------------------------------------------------
  // Case mapping of strings
  // ---------------------------------------------------------------------------

  /** `string.ToLower()` restricted to ASCII letters. */
  function ToLower(s: string): (r: string)
    ensures |r| == |s|
    ensures forall i :: 0 <= i < |s| ==> r[i] == ToLowerChar(s[i])
  {
    seq(|s|, i requires 0 <= i < |s| => ToLowerChar(s[i]))
  }

  /** `string.ToUpper()` restricted to ASCII letters. */
  function ToUpper(s: string): (r: string)
    ensures |r| == |s|
    ensures forall i :: 0 <= i < |s| ==> r[i] == ToUpperChar(s[i])
  {
    seq(|s|, i requires 0 <= i < |s| => ToUpperChar(s[i]))
  }

  lemma ToLowerAppend(a: string, b: string)
    ensures ToLower(a + b) == ToLower(a) + ToLower(b)
  {
  }

  lemma ToLowerIdempotent(s: string)
    ensures ToLower(ToLower(s)) == ToLower(s)
  {
  }

  // ---------------------------------------------------------------------------
  // Null and white-space tests
  // ---------------------------------------------------------------------------

  /** `string.IsNullOrEmpty`. */
  predicate IsNullOrEmpty(s: Option<string>) {
    s == None || s.value == ""
  }

  predicate AllWhiteSpace(s: string) {
    forall i :: 0 <= i < |s| ==> IsWhiteSpace(s[i])
  }

  /** `string.IsNullOrWhiteSpace`. */
  predicate IsNullOrWhiteSpace(s: Option<string>) {
    s == None || AllWhiteSpace(s.value)
  }

  // ---------------------------------------------------------------------------
  // Trimming
  // ---------------------------------------------------------------------------

  /** `string.TrimStart()`: drops the leading white space. */
  function TrimStart(s: string): (r: string)
    ensures |r| <= |s| && r == s[|s| - |r|..]
    ensures AllWhiteSpace(s[..|s| - |r|])
    ensures r == [] || !IsWhiteSpace(r[0])
    decreases |s|
  {
    if s != [] && IsWhiteSpace(s[0]) then TrimStart(s[1..]) else s
  }

  /** `string.TrimEnd()`: drops the trailing white space. */
  function TrimEnd(s: string): (r: string)
    ensures |r| <= |s| && r == s[..|r|]
    ensures AllWhiteSpace(s[|r|..])
    ensures r == [] || !IsWhiteSpace(r[|r| - 1])
    decreases |s|
  {
    if s != [] && IsWhiteSpace(s[|s| - 1]) then TrimEnd(s[..|s| - 1]) else s
  }

  /** `string.Trim()`: drops white space at both ends. The result is a
      part of `s` that neither starts nor ends with white space, and it is
      empty exactly when `s` is only white space. */
  function Trim(s: string): (r: string)
    ensures |r| <= |s|
    ensures r == [] || (!IsWhiteSpace(r[0]) && !IsWhiteSpace(r[|r| - 1]))
    ensures r == [] <==> AllWhiteSpace(s)
  {
    EmptyTrim(s);
    TrimEnd(TrimStart(s))
  }

  lemma EmptyTrim(s: string)
    ensures TrimEnd(TrimStart(s)) == [] <==> AllWhiteSpace(s)
  {
    var t := TrimStart(s);
    var n := |s| - |t|;
    if TrimEnd(t) == [] {
      assert t[0..] == t;
      assert t == [];
      assert s[..n] == s;
    }
    if AllWhiteSpace(s) {
      assert t == [];
    }
  }

  /** The trimmed text is the part of `s` from `TrimmedStart(s)` on, and
      what lies outside it is white space. */
  lemma TrimFacts(s: string)
    ensures var r := Trim(s);
      TrimmedStart(s) + |r| <= |s| && r == s[TrimmedStart(s)..TrimmedStart(s) + |r|]
    ensures var r := Trim(s);
      AllWhiteSpace(s[..TrimmedStart(s)]) && AllWhiteSpace(s[TrimmedStart(s) + |r|..])
  {
    var t := TrimStart(s);
    var r := TrimEnd(t);
    assert Trim(s) == r && TrimmedStart(s) == |s| - |t|;
    PrefixOfSuffix(s, t, r);
  }

  /** A prefix `r` of a suffix `t` of `s`, seen as a slice of `s`. */
  lemma PrefixOfSuffix(s: string, t: string, r: string)
    requires |t| <= |s| && t == s[|s| - |t|..]
    requires |r| <= |t| && r == t[..|r|] && AllWhiteSpace(t[|r|..])
    ensures var n := |s| - |t|; s[n..n + |r|] == r && AllWhiteSpace(s[n + |r|..])
  {
    var n := |s| - |t|;
    assert s[n..][..|r|] == s[n..n + |r|];
    assert s[n..][|r|..] == s[n + |r|..];
  }

  /** Where the part kept by `Trim` starts: the number of leading white-space
      characters. */
  function TrimmedStart(s: string): (n: nat)
    ensures n <= |s|
  {
    |s| - |TrimStart(s)|
  }

  lemma TrimOfTrimmed(s: string)
    requires s == [] || (!IsWhiteSpace(s[0]) && !IsWhiteSpace(s[|s| - 1]))
    ensures Trim(s) == s
  {
  }

  // ---------------------------------------------------------------------------
  // Searching
  // ---------------------------------------------------------------------------

  /** `string.IndexOf(char)`: the first position of `c`, or -1. */
  function IndexOf(s: string, c: char): (k: int)
    ensures -1 <= k < |s|
    ensures k == -1 <==> c !in s
    ensures k >= 0 ==> s[k] == c && c !in s[..k]
  {
    if s == [] then -1
    else if s[0] == c then 0
    else
      var k := IndexOf(s[1..], c);
      if k == -1 then -1 else k + 1
  }

  /** `string.LastIndexOf(char)`: the last position of `c`, or -1. */
  function LastIndexOf(s: string, c: char): (k: int)
    ensures -1 <= k < |s|
  {
    if s == [] then -1
    else if s[|s| - 1] == c then |s| - 1
    else LastIndexOf(s[..|s| - 1], c)
  }

  /** The position found holds `c`, and no later one does. */
  lemma {:induction false} LastIndexOfIsLast(s: string, c: char)
    ensures var k := LastIndexOf(s, c);
      (k >= 0 ==> s[k] == c) && forall j :: k < j < |s| ==> s[j] != c
  {
    if s != [] && s[|s| - 1] != c {
      LastIndexOfIsLast(s[..|s| - 1], c);
    }
  }

  // ---------------------------------------------------------------------------
  // Replace
  // ---------------------------------------------------------------------------

  /** `pattern` occurs in `s` at position `i`. */
  predicate OccursAt(s: string, pattern: string, i: nat) {
    i + |pattern| <= |s| && s[i..i + |pattern|] == pattern
  }

  /** `string.Replace(oldValue, newValue)` with ordinal comparison: scanning
      from the left, every occurrence of `oldValue` that does not overlap an
      earlier replaced one is replaced by `newValue`. (.NET throws for an
      empty `oldValue`; the library only passes non-empty literals.) */
  function Replace(s: string, oldValue: string, newValue: string): (r: string)
    requires oldValue != []
    ensures (forall i :: 0 <= i < |s| ==> !OccursAt(s, oldValue, i)) ==> r == s
    decreases |s|
  {
    if |s| < |oldValue| then s
    else if s[..|oldValue|] == oldValue then
      assert OccursAt(s, oldValue, 0);
      newValue + Replace(s[|oldValue|..], oldValue, newValue)
    else
      assert forall i :: 0 <= i < |s| - 1 && OccursAt(s[1..], oldValue, i) ==> OccursAt(s, oldValue, i + 1) by {
        forall i | 0 <= i < |s| - 1 && OccursAt(s[1..], oldValue, i) ensures OccursAt(s, oldValue, i + 1) {
          assert s[1..][i..i + |oldValue|] == s[i + 1..i + 1 + |oldValue|];
        }
      }
      [s[0]] + Replace(s[1..], oldValue, newValue)
  }

  /** No two adjacent characters of `s` are both `c`. */
  predicate NoDoubled(s: string, c: char) {
    forall i :: 0 <= i < |s| - 1 ==> !(s[i] == c && s[i + 1] == c)
  }

  /** After replacing the doubled character `cc` by a text without `c`, no
      `cc` is left: `Replace` never leaves an occurrence behind. */
  lemma {:induction false} ReplaceRemovesDoubled(s: string, c: char, newValue: string)
    requires c !in newValue
    ensures NoDoubled(Replace(s, [c, c], newValue), c)
    decreases |s|
  {
    var r := Replace(s, [c, c], newValue);
    if |s| < 2 {
    } else if s[..2] == [c, c] {
      ReplaceRemovesDoubled(s[2..], c, newValue);
      var rest := Replace(s[2..], [c, c], newValue);
      assert r == newValue + rest;
      forall i | 0 <= i < |r| - 1 ensures !(r[i] == c && r[i + 1] == c) {
        if i < |newValue| {
          assert r[i] == newValue[i];
        } else {
          assert r[i] == rest[i - |newValue|] && r[i + 1] == rest[i + 1 - |newValue|];
        }
      }
    } else {
      ReplaceRemovesDoubled(s[1..], c, newValue);
      var rest := Replace(s[1..], [c, c], newValue);
      assert r == [s[0]] + rest;
      if s[0] == c {
        assert s[1] != c by { assert s[..2] == [s[0], s[1]]; }
        if |s[1..]| >= 2 {
          assert s[1..][..2] != [c, c] by { assert s[1..][0] == s[1]; }
        }
        assert rest[0] == s[1];
      }
      forall i | 0 <= i < |r| - 1 ensures !(r[i] == c && r[i + 1] == c) {
        if i > 0 {
          assert r[i] == rest[i - 1] && r[i + 1] == rest[i];
        }
      }
    }
  }

  // ---------------------------------------------------------------------------
  // Decimal formatting (Int32.ToString() and ToString("00"))
  // ---------------------------------------------------------------------------

  function DigitChar(d: nat): (c: char)
    requires d < 10
    ensures IsDigit(c)
  {
    ('0' as int + d) as char
  }

  /** The decimal digits of `n`, most significant first, without leading
      zeros (`"0"` for zero). */
  function NatToString(n: nat): (r: string)
    ensures r != []
    ensures forall i :: 0 <= i < |r| ==> IsDigit(r[i])
    ensures n >= 10 ==> r[0] != '0'
    decreases n
  {
    if n < 10 then [DigitChar(n)] else NatToString(n / 10) + [DigitChar(n % 10)]
  }

  /** Reads back a string of decimal digits. */
  function ParseNat(s: string): nat
    requires forall i :: 0 <= i < |s| ==> IsDigit(s[i])
  {
    if s == [] then 0
    else
      assert IsDigit(s[|s| - 1]);
      10 * ParseNat(s[..|s| - 1]) + (s[|s| - 1] as int - '0' as int)
  }

  /** `NatToString` is undone by `ParseNat`. */
  lemma {:induction false} ParseNatToString(n: nat)
    ensures ParseNat(NatToString(n)) == n
    decreases n
  {
    if n >= 10 {
      ParseNatToString(n / 10);
      var s := NatToString(n);
      assert s[..|s| - 1] == NatToString(n / 10);
    }
  }

  /** `Int32.ToString()` in the invariant culture: a minus sign for negative
      values, then the digits. */
  function IntToString(n: int): (r: string)
    ensures r != []
    ensures n >= 0 ==> r == NatToString(n)
    ensures n < 0 ==> r == "-" + NatToString(-n)
  {
    if n < 0 then "-" + NatToString(-n) else NatToString(n)
  }

  /** `Int32.ToString("00")`: at least two digits, padded with a leading
      zero, and a minus sign for negative values. */
  function IntToString00(n: int): (r: string)
    ensures n >= 0 ==> |r| >= 2 && forall i :: 0 <= i < |r| ==> IsDigit(r[i])
    ensures 0 <= n < 10 ==> r == ['0', DigitChar(n)]
    ensures n >= 0 ==> ParseNat(r) == n
    ensures n >= 10 ==> r == NatToString(n)
    ensures 0 <= n < 100 ==> |r| == 2
    ensures n < 0 ==> r == "-" + IntToString00(-n)
    decreases if n < 0 then 1 else 0
  {
    var digits := if -10 < n < 10 then ['0', DigitChar(if n < 0 then -n else n)] else NatToString(if n < 0 then -n else n);
    assert n >= 0 ==> ParseNat(digits) == n by {
      if n >= 10 { ParseNatToString(n); }
      else if n >= 0 {
        assert digits[..1] == ['0'] && ['0'][..0] == [];
        assert ParseNat(['0']) == 0;
      }
    }
    if n < 0 then "-" + digits else digits
  }
}
