/** The few pieces of JavaScript's built-in behaviour that the attendance
    components rely on: string truthiness (`a || b`), `String.prototype.includes`,
    `toLowerCase`, `trim`, and the order in which `Object.keys` lists the
    properties of a plain object. */
module Js {

  // ---------------------------------------------------------------------------
  // Truthiness

  /** `s || fallback` for a string `s`: the empty string is falsy. */
  function OrElse(s: string, fallback: string): string {
    if s == "" then fallback else s
  }

  // ---------------------------------------------------------------------------
  // includes

  predicate StartsWith(s: string, q: string) {
    |q| <= |s| && s[..|q|] == q
  }

  /** `s.includes(q)`: try every starting position from left to right. */
  predicate Includes(s: string, q: string)
    decreases |s|
  {
    StartsWith(s, q) || (|s| > 0 && Includes(s[1..], q))
  }

  /** `q` occurs in `s` starting at position `i`. */
  predicate OccursAt(s: string, q: string, i: int) {
    0 <= i && i + |q| <= |s| && s[i..i + |q|] == q
  }

  /** The scan agrees with the definition of a substring: `q` occurs in `s`
      exactly when some block of `s` equals `q`. */
  lemma {:induction false} IncludesIff(s: string, q: string)
    ensures Includes(s, q) <==> exists i :: OccursAt(s, q, i)
    decreases |s|
  {
    if Includes(s, q) {
      if StartsWith(s, q) {
        assert OccursAt(s, q, 0);
      } else {
        IncludesIff(s[1..], q);
        var i :| OccursAt(s[1..], q, i);
        assert s[i + 1..i + 1 + |q|] == s[1..][i..i + |q|];
        assert OccursAt(s, q, i + 1);
      }
    }
    if exists i :: OccursAt(s, q, i) {
      var i :| OccursAt(s, q, i);
      if i == 0 {
        assert StartsWith(s, q);
      } else {
        assert s[1..][i - 1..i - 1 + |q|] == s[i..i + |q|];
        assert OccursAt(s[1..], q, i - 1);
        IncludesIff(s[1..], q);
      }
    }
  }

  /** A string longer than `s` does not occur in it. */
  lemma NotIncludedByLength(s: string, q: string)
    requires |s| < |q|
    ensures !Includes(s, q)
  {
    IncludesIff(s, q);
  }

  /** A string holding a character that `s` lacks does not occur in it. */
  lemma NotIncludedByChar(s: string, q: string, j: int)
    requires 0 <= j < |q|
    requires forall k :: 0 <= k < |s| ==> s[k] != q[j]
    ensures !Includes(s, q)
  {
    IncludesIff(s, q);
    forall i ensures !OccursAt(s, q, i) {
      if 0 <= i && i + |q| <= |s| {
        assert s[i..i + |q|][j] == s[i + j];
      }
    }
  }

  /** Every string occurs in itself. */
  lemma IncludesSelf(s: string)
    ensures Includes(s, s)
  {
    assert StartsWith(s, s);
  }

  // ---------------------------------------------------------------------------
  // toLowerCase

  /** Lower-case mapping of one character: the ASCII capitals, and U+212A
      KELVIN SIGN, the one other character whose lower case is a single
      ASCII letter. Other characters are left as they are (see README,
      "Left out"). */
  function LowerChar(c: char): char {
    if 'A' <= c <= 'Z' then (c as int + 32) as char
    else if c == '\U{212A}' then 'k'
    else c
  }

  function ToLowerCase(s: string): (r: string)
    ensures |r| == |s|
    ensures forall i :: 0 <= i < |s| ==> r[i] == LowerChar(s[i])
  {
    if s == [] then [] else [LowerChar(s[0])] + ToLowerCase(s[1..])
  }

  // ---------------------------------------------------------------------------
  // trim

  /** The characters `String.prototype.trim` removes: ECMAScript's WhiteSpace
      and LineTerminator code points. */
  predicate IsWhiteSpace(c: char) {
    || c == '\t' || c == '\n' || c == '\U{B}' || c == '\U{C}' || c == '\r'
    || c == ' ' || c == '\U{A0}' || c == '\U{1680}'
    || ('\U{2000}' <= c <= '\U{200A}')
    || c == '\U{2028}' || c == '\U{2029}' || c == '\U{202F}' || c == '\U{205F}'
    || c == '\U{3000}' || c == '\U{FEFF}'
  }

  function TrimStart(s: string): string
    decreases |s|
  {
    if |s| > 0 && IsWhiteSpace(s[0]) then TrimStart(s[1..]) else s
  }

  function TrimEnd(s: string): string
    decreases |s|
  {
    if |s| > 0 && IsWhiteSpace(s[|s| - 1]) then TrimEnd(s[..|s| - 1]) else s
  }

  /** `s.trim()` */
  function Trim(s: string): string {
    TrimEnd(TrimStart(s))
  }

  predicate AllWhiteSpace(s: string) {
    forall i :: 0 <= i < |s| ==> IsWhiteSpace(s[i])
  }

  lemma {:induction false} TrimStartEmptyIff(s: string)
    ensures TrimStart(s) == "" <==> AllWhiteSpace(s)
    ensures TrimStart(s) != "" ==> !IsWhiteSpace(TrimStart(s)[0])
    decreases |s|
  {
    if |s| > 0 && IsWhiteSpace(s[0]) {
      TrimStartEmptyIff(s[1..]);
      assert AllWhiteSpace(s) <==> AllWhiteSpace(s[1..]) by {
        if AllWhiteSpace(s[1..]) {
          forall i | 0 <= i < |s| ensures IsWhiteSpace(s[i]) {
            if i > 0 { assert s[i] == s[1..][i - 1]; }
          }
        }
      }
    }
  }

  lemma {:induction false} TrimEndKeepsFirst(s: string)
    requires |s| > 0 && !IsWhiteSpace(s[0])
    ensures TrimEnd(s) != "" && TrimEnd(s)[0] == s[0]
    decreases |s|
  {
    if IsWhiteSpace(s[|s| - 1]) {
      TrimEndKeepsFirst(s[..|s| - 1]);
    }
  }

  /** `s.trim()` is falsy exactly when `s` consists of white space only. */
  lemma TrimEmptyIff(s: string)
    ensures Trim(s) == "" <==> AllWhiteSpace(s)
  {
    TrimStartEmptyIff(s);
    if TrimStart(s) != "" {
      TrimEndKeepsFirst(TrimStart(s));
    }
  }

  // ---------------------------------------------------------------------------
  // Decimal digits

  predicate IsDigit(c: char) {
    '0' <= c <= '9'
  }

  function DigitValue(c: char): (v: nat)
    requires IsDigit(c)
    ensures v < 10
  {
    c as int - '0' as int
  }

  predicate AllDigits(s: string) {
    forall i :: 0 <= i < |s| ==> IsDigit(s[i])
  }

  /** The number a string of decimal digits denotes. */
  function DigitsValue(s: string): nat
    requires AllDigits(s)
  {
    if s == [] then 0 else DigitsValue(s[..|s| - 1]) * 10 + DigitValue(s[|s| - 1])
  }

  // ---------------------------------------------------------------------------
  // Object.keys

  /** A property key that ECMAScript treats as an array index: the canonical
      decimal form of an integer below 2^32 - 1. */
  predicate IsArrayIndex(k: string) {
    && |k| > 0
    && AllDigits(k)
    && (k[0] != '0' || |k| == 1)
    && DigitsValue(k) < 0xFFFF_FFFF
  }

  predicate AllArrayIndices(ks: seq<string>) {
    forall i :: 0 <= i < |ks| ==> IsArrayIndex(ks[i])
  }

  function IndexKeys(ks: seq<string>): (r: seq<string>)
    ensures AllArrayIndices(r)
  {
    if ks == [] then []
    else if IsArrayIndex(ks[0]) then [ks[0]] + IndexKeys(ks[1..])
    else IndexKeys(ks[1..])
  }

  function OtherKeys(ks: seq<string>): (r: seq<string>)
    ensures forall i :: 0 <= i < |r| ==> !IsArrayIndex(r[i])
  {
    if ks == [] then []
    else if IsArrayIndex(ks[0]) then OtherKeys(ks[1..])
    else [ks[0]] + OtherKeys(ks[1..])
  }

  function InsertByValue(k: string, sorted: seq<string>): (r: seq<string>)
    requires IsArrayIndex(k) && AllArrayIndices(sorted)
    ensures AllArrayIndices(r)
    ensures multiset(r) == multiset(sorted) + multiset{k}
  {
    if sorted == [] then [k]
    else if DigitsValue(sorted[0]) < DigitsValue(k) then
      assert sorted == [sorted[0]] + sorted[1..];
      [sorted[0]] + InsertByValue(k, sorted[1..])
    else [k] + sorted
  }

  function SortByValue(ks: seq<string>): (r: seq<string>)
    requires AllArrayIndices(ks)
    ensures AllArrayIndices(r)
    ensures multiset(r) == multiset(ks)
  {
    if ks == [] then []
    else
      assert ks == [ks[0]] + ks[1..];
      InsertByValue(ks[0], SortByValue(ks[1..]))
  }

  /** `Object.keys(o)` for an ordinary object whose own string keys were
      created in the order `ks`: array-index keys first, in ascending numeric
      order, then every other key in creation order. */
  function ObjectKeys(ks: seq<string>): (r: seq<string>)
    ensures multiset(r) == multiset(ks)
    ensures |r| == |ks|
    ensures forall i :: 0 <= i < |r| ==> r[i] in ks
  {
    SplitKeysPermutation(ks);
    var r := SortByValue(IndexKeys(ks)) + OtherKeys(ks);
    assert |r| == |multiset(r)|;
    assert forall i :: 0 <= i < |r| ==> r[i] in multiset(r);
    r
  }

  predicate AscendingByValue(ks: seq<string>)
    requires AllArrayIndices(ks)
  {
    forall i, j :: 0 <= i < j < |ks| ==> DigitsValue(ks[i]) <= DigitsValue(ks[j])
  }

  lemma {:induction false} InsertByValueAscending(k: string, sorted: seq<string>)
    requires IsArrayIndex(k) && AllArrayIndices(sorted) && AscendingByValue(sorted)
    ensures AscendingByValue(InsertByValue(k, sorted))
    decreases |sorted|
  {
    if sorted != [] && DigitsValue(sorted[0]) < DigitsValue(k) {
      var rest := InsertByValue(k, sorted[1..]);
      InsertByValueAscending(k, sorted[1..]);
      forall j | 0 <= j < |rest| ensures DigitsValue(sorted[0]) <= DigitsValue(rest[j]) {
        assert rest[j] in multiset(rest);
        if rest[j] != k {
          assert rest[j] in multiset(sorted[1..]);
          var idx :| 0 <= idx < |sorted[1..]| && sorted[1..][idx] == rest[j];
          assert sorted[idx + 1] == rest[j];
        }
      }
    }
  }

  lemma {:induction false} SortByValueAscending(ks: seq<string>)
    requires AllArrayIndices(ks)
    ensures AscendingByValue(SortByValue(ks))
  {
    if ks != [] {
      SortByValueAscending(ks[1..]);
      InsertByValueAscending(ks[0], SortByValue(ks[1..]));
    }
  }

  lemma {:induction false} SplitKeysPermutation(ks: seq<string>)
    ensures multiset(IndexKeys(ks)) + multiset(OtherKeys(ks)) == multiset(ks)
  {
    if ks != [] {
      SplitKeysPermutation(ks[1..]);
      assert ks == [ks[0]] + ks[1..];
    }
  }

  /** `Object.keys` lists every key exactly as often as it was created, the
      array-index keys first and in ascending numeric order, and the other keys
      after them in creation order. */
  lemma ObjectKeysOrder(ks: seq<string>)
    ensures var n := |IndexKeys(ks)|;
      && n <= |ks|
      && AllArrayIndices(ObjectKeys(ks)[..n])
      && AscendingByValue(ObjectKeys(ks)[..n])
      && ObjectKeys(ks)[n..] == OtherKeys(ks)
  {
    SortByValueAscending(IndexKeys(ks));
    SplitKeysPermutation(ks);
    var n := |IndexKeys(ks)|;
    assert |SortByValue(IndexKeys(ks))| == n by {
      assert |multiset(SortByValue(IndexKeys(ks)))| == |multiset(IndexKeys(ks))|;
    }
    assert |ObjectKeys(ks)| == |multiset(ObjectKeys(ks))| == |ks|;
    assert ObjectKeys(ks)[..n] == SortByValue(IndexKeys(ks));
  }
}
