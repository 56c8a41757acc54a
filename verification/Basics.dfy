/**
Shared vocabulary: optional values, the unsigned 64-bit identifiers of the
service, decimal text and the string searches that the key formats rely on.
*/
module Basics {

  const TWO_TO_THE_64: int := 0x1_0000_0000_0000_0000

  type uint64 = n: int | 0 <= n < TWO_TO_THE_64

  datatype Option<+T> = None | Some(value: T)

  datatype Result<+T, +E> = Ok(value: T) | Err(error: E)

  /** The index of the first `c` in `s`, or -1, as Go's strings.IndexByte. */
  function IndexByte(s: string, c: char): (i: int)
    ensures -1 <= i < |s|
    ensures i >= 0 ==> s[i] == c && c !in s[..i]
    ensures i == -1 ==> c !in s
  {
    if s == "" then -1
    else if s[0] == c then 0
    else
      var rest := IndexByte(s[1..], c);
      assert s == [s[0]] + s[1..];
      if rest < 0 then -1
      else
        assert s[..rest + 1] == [s[0]] + s[1..][..rest];
        rest + 1
  }

  /** Text before the first separator, and text after it, are determined by the whole. */
  lemma SplitUnique(c: char, left1: string, right1: string, left2: string, right2: string)
    requires c !in left1 && c !in left2
    requires left1 + [c] + right1 == left2 + [c] + right2
    ensures left1 == left2 && right1 == right2
  {
    var whole := left1 + [c] + right1;
    FirstAt(left1, c, right1);
    FirstAt(left2, c, right2);
    assert left1 == whole[..|left1|] && left2 == whole[..|left2|];
    assert right1 == whole[|left1| + 1..] && right2 == whole[|left2| + 1..];
  }

  /** The first `c` of `left + [c] + right` is the one between the two parts. */
  lemma FirstAt(left: string, c: char, right: string)
    requires c !in left
    ensures IndexByte(left + [c] + right, c) == |left|
  {
    var s := left + [c] + right;
    var i := IndexByte(s, c);
    forall k | 0 <= k < |left| ensures s[k] == left[k] != c {}
    assert s[|left|] == c && s[|left|] in s;
    assert |left| <= i;
    forall k | 0 <= k < i ensures s[k] != c {
      assert s[..i][k] == s[k];
    }
  }

  predicate IsDigit(c: char) {
    '0' <= c <= '9'
  }

  predicate AllDigits(s: string) {
    forall i :: 0 <= i < |s| ==> IsDigit(s[i])
  }

  function DigitChar(d: nat): (c: char)
    requires d < 10
    ensures IsDigit(c) && c as int - '0' as int == d
  {
    ('0' as int + d) as char
  }

  /** Decimal text of a number, as fmt's %d prints an unsigned integer. */
  function Dec(n: nat): (s: string)
    ensures s != "" && AllDigits(s)
    ensures n > 0 ==> s[0] != '0'
  {
    if n < 10 then [DigitChar(n)] else Dec(n / 10) + [DigitChar(n % 10)]
  }

  /** The number that a text of decimal digits denotes. */
  function NatOf(s: string): nat
    requires AllDigits(s)
  {
    if s == "" then 0
    else NatOf(s[..|s| - 1]) * 10 + (s[|s| - 1] as int - '0' as int)
  }

  lemma {:induction false} NatOfDec(n: nat)
    ensures NatOf(Dec(n)) == n
  {
    if n >= 10 {
      NatOfDec(n / 10);
      assert Dec(n)[..|Dec(n)| - 1] == Dec(n / 10);
    }
  }

  /** strconv.ParseUint(s, 10, 64): digits only, at least one, and below 2^64. */
  function ParseUint(s: string): Option<uint64> {
    if s != "" && AllDigits(s) && NatOf(s) < TWO_TO_THE_64 then Some(NatOf(s)) else None
  }

  /** A digit text that starts with a nonzero digit denotes a nonzero number. */
  lemma {:induction false} LeadingDigitNonzero(s: string)
    requires s != "" && AllDigits(s) && s[0] != '0'
    ensures NatOf(s) > 0
  {
    if |s| > 1 {
      LeadingDigitNonzero(s[..|s| - 1]);
    } else {
      assert s[..|s| - 1] == "";
    }
  }

  lemma DigitsFree(digits: string, c: char)
    requires AllDigits(digits) && !IsDigit(c)
    ensures c !in digits
  {
  }
}
