/**
 * PHP byte strings and the few string built-ins the runtime relies on:
 * `strtolower`, `trim`, the PCRE class `\s`, integer-to-string conversion
 * and the reading back of decimal text.
 */
module PhpStrings {

  /** One byte of a PHP string, written as the character with that code. */
  type Byte = char

  /** A PHP string: a sequence of bytes; `strlen` is its length. */
  type Bytes = seq<Byte>

  // ---------------------------------------------------------------- case

  predicate IsUpper(c: Byte) { 'A' <= c <= 'Z' }

  /** `strtolower` on one byte: ASCII letters only, as PHP 8 does. */
  function LowerByte(c: Byte): Byte {
    if IsUpper(c) then (c as int + 32) as char else c
  }

  /** `strtoupper` on one byte: ASCII letters only. */
  function UpperByte(c: Byte): Byte {
    if 'a' <= c <= 'z' then (c as int - 32) as char else c
  }

  /** The bytes that lower-case to a given non-upper-case byte are that byte and its upper-case form. */
  lemma LowerByteMatches(c: Byte, d: Byte)
    requires !IsUpper(d)
    ensures LowerByte(c) == d <==> c == d || c == UpperByte(d)
  {
  }

  /** `strtolower(s)` equals a lower-case text exactly when `s` spells it in any mix of cases. */
  lemma LowerMatches(s: Bytes, lower: Bytes)
    requires forall k :: 0 <= k < |lower| ==> !IsUpper(lower[k])
    ensures Lower(s) == lower <==>
      |s| == |lower| && forall k :: 0 <= k < |s| ==> s[k] == lower[k] || s[k] == UpperByte(lower[k])
  {
    if |s| == |lower| {
      forall k | 0 <= k < |s|
        ensures Lower(s)[k] == lower[k] <==> s[k] == lower[k] || s[k] == UpperByte(lower[k])
      {
        LowerByteMatches(s[k], lower[k]);
      }
    }
  }

  /** `strtolower`. */
  function Lower(s: Bytes): Bytes {
    seq(|s|, i requires 0 <= i < |s| => LowerByte(s[i]))
  }

  // ---------------------------------------------------------- whitespace

  /** The PCRE class `\s` outside UTF mode: HT, LF, VT, FF, CR and space. */
  predicate IsPcreSpace(c: Byte) {
    c == ' ' || 9 <= c as int <= 13
  }

  /** The characters PHP's `trim` strips by default: space, HT, LF, CR, NUL and VT (not FF). */
  predicate IsTrimByte(c: Byte) {
    c == ' ' || c == '\t' || c == '\n' || c == '\r' || c as int == 0 || c as int == 11
  }

  /** Strips the longest prefix of `s` whose bytes satisfy `IsPcreSpace` (what `\s*` consumes). */
  function SkipSpace(s: Bytes): Bytes {
    if s != [] && IsPcreSpace(s[0]) then SkipSpace(s[1..]) else s
  }

  /** `ltrim` with the default character list. */
  function TrimLeft(s: Bytes): Bytes {
    if s != [] && IsTrimByte(s[0]) then TrimLeft(s[1..]) else s
  }

  /** `rtrim` with the default character list. */
  function TrimRight(s: Bytes): Bytes {
    if s != [] && IsTrimByte(s[|s| - 1]) then TrimRight(s[..|s| - 1]) else s
  }

  /** `trim` with the default character list. */
  function Trim(s: Bytes): Bytes {
    TrimRight(TrimLeft(s))
  }

  /** `\s*` consumes a run of whitespace and stops at a non-space or at the end. */
  lemma {:induction false} SkipSpaceShape(s: Bytes)
    ensures var r := SkipSpace(s);
      && |r| <= |s| && r == s[|s| - |r|..]
      && (forall k :: 0 <= k < |s| - |r| ==> IsPcreSpace(s[k]))
      && (r == [] || !IsPcreSpace(r[0]))
  {
    if s != [] && IsPcreSpace(s[0]) {
      var r := SkipSpace(s[1..]);
      SkipSpaceShape(s[1..]);
      assert SkipSpace(s) == r;
      assert s[1..][|s| - 1 - |r|..] == s[|s| - |r|..];
      assert forall k :: 1 <= k < |s| - |r| ==> s[k] == s[1..][k - 1];
    }
  }

  /** `ltrim` drops a run of trim bytes and stops at another byte or at the end. */
  lemma {:induction false} TrimLeftShape(s: Bytes)
    ensures var r := TrimLeft(s);
      && |r| <= |s| && r == s[|s| - |r|..]
      && (forall k :: 0 <= k < |s| - |r| ==> IsTrimByte(s[k]))
      && (r == [] || !IsTrimByte(r[0]))
  {
    if s != [] && IsTrimByte(s[0]) {
      var r := TrimLeft(s[1..]);
      TrimLeftShape(s[1..]);
      assert TrimLeft(s) == r;
      assert s[1..][|s| - 1 - |r|..] == s[|s| - |r|..];
      assert forall k :: 1 <= k < |s| - |r| ==> s[k] == s[1..][k - 1];
    }
  }

  /** `rtrim` drops a run of trim bytes at the end and stops at another byte or at the start. */
  lemma {:induction false} TrimRightShape(s: Bytes)
    ensures var r := TrimRight(s);
      && |r| <= |s| && r == s[..|r|]
      && (forall k :: |r| <= k < |s| ==> IsTrimByte(s[k]))
      && (r == [] || !IsTrimByte(r[|r| - 1]))
  {
    if s != [] && IsTrimByte(s[|s| - 1]) {
      var r := TrimRight(s[..|s| - 1]);
      TrimRightShape(s[..|s| - 1]);
      assert TrimRight(s) == r;
      assert s[..|s| - 1][..|r|] == s[..|r|];
      assert forall k :: |r| <= k < |s| - 1 ==> s[k] == s[..|s| - 1][k];
    }
  }

  /**
   * `trim` keeps exactly the slice of `s` between its leading and its
   * trailing run of trim bytes, and what it keeps starts and ends with a
   * byte that is not a trim byte.
   */
  lemma TrimIsSlice(s: Bytes)
    ensures var t := Trim(s);
      exists i, j :: 0 <= i <= j <= |s| && t == s[i..j]
        && (forall k :: 0 <= k < i ==> IsTrimByte(s[k]))
        && (forall k :: j <= k < |s| ==> IsTrimByte(s[k]))
        && (t == [] || (!IsTrimByte(t[0]) && !IsTrimByte(t[|t| - 1])))
  {
    var l := TrimLeft(s);
    var t := TrimRight(l);
    TrimLeftShape(s);
    TrimRightShape(l);
    var i := |s| - |l|;
    var j := i + |t|;
    assert t == s[i..j] by {
      assert s[i..j] == l[..|t|];
    }
    forall k | j <= k < |s|
      ensures IsTrimByte(s[k])
    {
      assert s[k] == l[k - i];
    }
    if t != [] {
      assert t[0] == l[0];
    }
  }

  /** A string that neither starts nor ends with a trim byte is its own trim. */
  lemma TrimOfTrimmed(s: Bytes)
    requires s == [] || (!IsTrimByte(s[0]) && !IsTrimByte(s[|s| - 1]))
    ensures Trim(s) == s
  {
  }

  // ------------------------------------------------------------- decimal

  predicate IsDigit(c: Byte) { '0' <= c <= '9' }

  predicate IsDigits(s: Bytes) {
    forall i :: 0 <= i < |s| ==> IsDigit(s[i])
  }

  function DigitChar(d: nat): (c: Byte)
    requires d < 10
    ensures IsDigit(c) && c as int - '0' as int == d
  {
    ('0' as int + d) as char
  }

  /** PHP's conversion of a non-negative int to a string: decimal, no leading zeros. */
  function Show(n: nat): Bytes
    decreases n
  {
    if n < 10 then [DigitChar(n)] else Show(n / 10) + [DigitChar(n % 10)]
  }

  /** The text of a number is a non-empty run of digits without a leading zero. */
  lemma {:induction false} ShowDigits(n: nat)
    ensures Show(n) != [] && IsDigits(Show(n))
    ensures |Show(n)| > 1 ==> Show(n)[0] != '0'
    decreases n
  {
    if n >= 10 {
      ShowDigits(n / 10);
      assert Show(n)[0] == Show(n / 10)[0];
    }
  }

  /** The number a string of decimal digits denotes (0 for the empty string). */
  function Parse(s: Bytes): nat
    requires IsDigits(s)
  {
    if s == [] then 0 else 10 * Parse(s[..|s| - 1]) + (s[|s| - 1] as int - '0' as int)
  }

  /** Reading back the decimal text of a number gives the number. */
  lemma {:induction false} ParseShow(n: nat)
    ensures IsDigits(Show(n)) && Parse(Show(n)) == n
    decreases n
  {
    ShowDigits(n);
    if n >= 10 {
      var s := Show(n);
      ShowDigits(n / 10);
      assert s[..|s| - 1] == Show(n / 10);
      ParseShow(n / 10);
    }
  }

  /** Distinct numbers have distinct decimal texts. */
  lemma ShowInjective(m: nat, n: nat)
    requires Show(m) == Show(n)
    ensures m == n
  {
    ParseShow(m);
    ParseShow(n);
  }
}
