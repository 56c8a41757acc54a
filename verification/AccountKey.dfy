/**
Platform account ids: the formatter and parser of
internal/usecase/platform_account_key.go, and the second parser that
migration 000005 writes in SQL.
*/
module AccountKey {
  import opened Basics

  const BINDING_PREFIX := "binding_"
  const LEGACY_PREFIX := "hoyo_ref_"

  function FormatPlatformAccountID(binding: uint64, accountId: string): string {
    BINDING_PREFIX + Dec(binding) + "_" + accountId
  }

  function BindingIDFromPlatformAccountID(acct: string): Option<uint64> {
    if BINDING_PREFIX <= acct then BindingIDPart(acct[|BINDING_PREFIX|..])
    else if LEGACY_PREFIX <= acct then BindingIDPart(acct[|LEGACY_PREFIX|..])
    else None
  }

  /** The number before the first underscore of what follows the prefix. */
  function BindingIDPart(rest: string): Option<uint64> {
    var separator := IndexByte(rest, '_');
    if separator <= 0 then None else ParseUint(rest[..separator])
  }

  lemma BindingIDPartOf(digits: string, tail: string)
    requires digits != "" && AllDigits(digits)
    ensures BindingIDPart(digits + "_" + tail) == ParseUint(digits)
  {
    DigitsFree(digits, '_');
    FirstAt(digits, '_', tail);
    assert (digits + "_" + tail)[..|digits|] == digits;
  }

  /** Parsing undoes formatting, for every binding and every account string. */
  lemma ParseFormat(binding: uint64, accountId: string)
    ensures BindingIDFromPlatformAccountID(FormatPlatformAccountID(binding, accountId)) == Some(binding)
  {
    var acct := FormatPlatformAccountID(binding, accountId);
    assert acct[|BINDING_PREFIX|..] == Dec(binding) + "_" + accountId;
    BindingIDPartOf(Dec(binding), accountId);
    NatOfDec(binding);
  }

  /** Two bindings, or two accounts of one binding, never share a platform account id. */
  lemma FormatInjective(binding1: uint64, accountId1: string, binding2: uint64, accountId2: string)
    requires FormatPlatformAccountID(binding1, accountId1) == FormatPlatformAccountID(binding2, accountId2)
    ensures binding1 == binding2 && accountId1 == accountId2
  {
    ParseFormat(binding1, accountId1);
    ParseFormat(binding2, accountId2);
    var stem := BINDING_PREFIX + Dec(binding1) + "_";
    var acct := FormatPlatformAccountID(binding1, accountId1);
    assert acct == stem + accountId1 == stem + accountId2;
    assert accountId1 == acct[|stem|..] && accountId2 == acct[|stem|..];
  }

  /** What the parser accepts starts with one of the two prefixes. */
  lemma ParsedPrefix(acct: string)
    requires BindingIDFromPlatformAccountID(acct).Some?
    ensures BINDING_PREFIX <= acct || LEGACY_PREFIX <= acct
  {
  }

  // ---------- the SQL parser of migration 000005 ----------

  /** REGEXP '^<prefix>[1-9][0-9]*_.+$' with `end` the place of the underscore after the digits. */
  predicate MatchesAt(prefix: string, acct: string, end: nat) {
    && prefix <= acct
    && |prefix| < end < |acct| - 1
    && AllDigits(acct[|prefix|..end])
    && acct[|prefix|] != '0'
    && acct[end] == '_'
  }

  predicate Matches(prefix: string, acct: string) {
    exists end: nat | end < |acct| :: MatchesAt(prefix, acct, end)
  }

  /** The ids that the prechecks of migration 000005 let through. */
  predicate Migratable(acct: string) {
    Matches(BINDING_PREFIX, acct) || Matches(LEGACY_PREFIX, acct)
  }

  /** SUBSTRING_INDEX(s, c, n) for n > 0: everything before the n-th `c`, or all of `s`. */
  function SubstringIndex(s: string, c: char, n: nat): string {
    if n == 0 then ""
    else
      var i := IndexByte(s, c);
      if i < 0 then s
      else if n == 1 then s[..i]
      else s[..i + 1] + SubstringIndex(s[i + 1..], c, n - 1)
  }

  /** SUBSTRING_INDEX(s, c, -1): everything after the last `c`, or all of `s`. */
  function SubstringAfterLast(s: string, c: char): string {
    var i := IndexByte(s, c);
    if i < 0 then s else SubstringAfterLast(s[i + 1..], c)
  }

  function LeadingDigits(s: string): (d: string)
    ensures AllDigits(d)
  {
    if s != "" && IsDigit(s[0]) then [s[0]] + LeadingDigits(s[1..]) else ""
  }

  /** CAST(s AS UNSIGNED): the leading digits, clamped to the column's maximum. */
  function CastUnsigned(s: string): uint64 {
    var n := NatOf(LeadingDigits(s));
    if n < TWO_TO_THE_64 then n else TWO_TO_THE_64 - 1
  }

  /** The CASE expression that backfills binding_id; NULL when neither pattern matches. */
  function SqlBindingID(acct: string): Option<uint64> {
    if Matches(BINDING_PREFIX, acct) then Some(CastUnsigned(SubstringAfterLast(SubstringIndex(acct, '_', 2), '_')))
    else if Matches(LEGACY_PREFIX, acct) then Some(CastUnsigned(SubstringAfterLast(SubstringIndex(acct, '_', 3), '_')))
    else None
  }

  /** The number written in an id that the migration lets through, of any size. */
  function WrittenNumber(acct: string): nat
    requires Migratable(acct)
  {
    var prefix := if Matches(BINDING_PREFIX, acct) then BINDING_PREFIX else LEGACY_PREFIX;
    NatOf(LeadingDigits(acct[|prefix|..]))
  }

  lemma {:induction false} LeadingDigitsOf(digits: string, tail: string)
    requires AllDigits(digits)
    requires tail == "" || !IsDigit(tail[0])
    ensures LeadingDigits(digits + tail) == digits
  {
    if digits != "" {
      assert (digits + tail)[1..] == digits[1..] + tail;
      LeadingDigitsOf(digits[1..], tail);
      assert digits == [digits[0]] + digits[1..];
    } else {
      assert digits + tail == tail;
    }
  }

  lemma SubstringIndexSkip(left: string, c: char, right: string, n: nat)
    requires c !in left && n >= 1
    ensures SubstringIndex(left + [c] + right, c, n) ==
            if n == 1 then left else left + [c] + SubstringIndex(right, c, n - 1)
  {
    FirstAt(left, c, right);
    var s := left + [c] + right;
    assert s[..|left|] == left && s[..|left| + 1] == left + [c] && s[|left| + 1..] == right;
  }

  lemma SubstringAfterLastSkip(left: string, c: char, right: string)
    requires c !in left
    ensures SubstringAfterLast(left + [c] + right, c) == SubstringAfterLast(right, c)
  {
    FirstAt(left, c, right);
    assert (left + [c] + right)[|left| + 1..] == right;
  }

  /** Both extractions see the same digits of `binding_<digits>_<tail>`. */
  lemma ExtractBinding(digits: string, tail: string)
    requires AllDigits(digits)
    ensures SubstringAfterLast(SubstringIndex(BINDING_PREFIX + digits + "_" + tail, '_', 2), '_') == digits
  {
    DigitsFree(digits, '_');
    var rest := digits + ['_'] + tail;
    assert BINDING_PREFIX + digits + "_" + tail == "binding" + ['_'] + rest;
    SubstringIndexSkip("binding", '_', rest, 2);
    SubstringIndexSkip(digits, '_', tail, 1);
    SubstringAfterLastSkip("binding", '_', digits);
  }

  lemma ExtractLegacy(digits: string, tail: string)
    requires AllDigits(digits)
    ensures SubstringAfterLast(SubstringIndex(LEGACY_PREFIX + digits + "_" + tail, '_', 3), '_') == digits
  {
    var inner := "ref" + ['_'] + (digits + ['_'] + tail);
    assert LEGACY_PREFIX + digits + "_" + tail == "hoyo" + ['_'] + inner;
    SubstringIndexSkip("hoyo", '_', inner, 3);
    ExtractReference(digits, tail);
    SubstringAfterLastSkip("hoyo", '_', "ref" + ['_'] + digits);
  }

  lemma ExtractReference(digits: string, tail: string)
    requires AllDigits(digits)
    ensures SubstringIndex("ref" + ['_'] + (digits + ['_'] + tail), '_', 2) == "ref" + ['_'] + digits
    ensures SubstringAfterLast("ref" + ['_'] + digits, '_') == digits
  {
    DigitsFree(digits, '_');
    SubstringIndexSkip("ref", '_', digits + ['_'] + tail, 2);
    SubstringIndexSkip(digits, '_', tail, 1);
    SubstringAfterLastSkip("ref", '_', digits);
  }

  lemma PrefixesDiffer(acct: string)
    ensures !(BINDING_PREFIX <= acct && LEGACY_PREFIX <= acct)
  {
    assert BINDING_PREFIX[0] != LEGACY_PREFIX[0];
  }

  /** The digits of an accepted id, with the prefix and the text around them. */
  lemma Decompose(acct: string) returns (prefix: string, digits: string, tail: string)
    requires Migratable(acct)
    ensures prefix == if Matches(BINDING_PREFIX, acct) then BINDING_PREFIX else LEGACY_PREFIX
    ensures prefix == LEGACY_PREFIX ==> !(BINDING_PREFIX <= acct)
    ensures acct == prefix + digits + "_" + tail && tail != ""
    ensures digits != "" && AllDigits(digits) && digits[0] != '0'
    ensures WrittenNumber(acct) == NatOf(digits)
  {
    PrefixesDiffer(acct);
    prefix := if Matches(BINDING_PREFIX, acct) then BINDING_PREFIX else LEGACY_PREFIX;
    var end: nat :| end < |acct| && MatchesAt(prefix, acct, end);
    digits, tail := acct[|prefix|..end], acct[end + 1..];
    assert acct[..|prefix|] == prefix && acct[end..end + 1] == "_";
    assert acct == prefix + digits + "_" + tail;
    assert acct[|prefix|..] == digits + ("_" + tail);
    LeadingDigitsOf(digits, "_" + tail);
  }

  lemma ExtractionIs(acct: string, prefix: string, digits: string, tail: string)
    requires Migratable(acct)
    requires prefix == if Matches(BINDING_PREFIX, acct) then BINDING_PREFIX else LEGACY_PREFIX
    requires acct == prefix + digits + "_" + tail && AllDigits(digits)
    ensures SqlBindingID(acct) == Some(CastUnsigned(digits + ""))
  {
    assert digits + "" == digits;
    if prefix == BINDING_PREFIX {
      ExtractBinding(digits, tail);
    } else {
      ExtractLegacy(digits, tail);
    }
  }

  lemma GoParse(acct: string, prefix: string, digits: string, tail: string)
    requires prefix == BINDING_PREFIX || (prefix == LEGACY_PREFIX && !(BINDING_PREFIX <= acct))
    requires acct == prefix + digits + "_" + tail && digits != "" && AllDigits(digits)
    ensures BindingIDFromPlatformAccountID(acct) == ParseUint(digits)
  {
    assert acct[|prefix|..] == digits + "_" + tail;
    BindingIDPartOf(digits, tail);
  }

  /**
  On every id that migration 000005 lets through, the SQL extraction is nonzero, and it is
  what the Go parser returns exactly when the written number fits 64 bits; otherwise the Go
  parser rejects the id.
  */
  lemma SqlAgreesWithGo(acct: string)
    requires Migratable(acct)
    ensures SqlBindingID(acct).Some? && SqlBindingID(acct).value != 0
    ensures SqlBindingID(acct) == BindingIDFromPlatformAccountID(acct) <==> WrittenNumber(acct) < TWO_TO_THE_64
    ensures WrittenNumber(acct) >= TWO_TO_THE_64 ==> BindingIDFromPlatformAccountID(acct) == None
  {
    var prefix, digits, tail := Decompose(acct);
    ExtractionIs(acct, prefix, digits, tail);
    LeadingDigitsOf(digits, "");
    LeadingDigitNonzero(digits);
    GoParse(acct, prefix, digits, tail);
  }

  /** A number that does not fit 64 bits is accepted, clamped by the SQL extraction and rejected by the Go parser. */
  lemma HugeNumberIsClamped(n: nat, tail: string)
    requires n >= TWO_TO_THE_64 && tail != ""
    ensures var acct := BINDING_PREFIX + Dec(n) + "_" + tail;
            && Migratable(acct) && WrittenNumber(acct) == n
            && SqlBindingID(acct) == Some(TWO_TO_THE_64 - 1) && BindingIDFromPlatformAccountID(acct) == None
  {
    var digits := Dec(n);
    var acct := BINDING_PREFIX + digits + "_" + tail;
    var end := |BINDING_PREFIX| + |digits|;
    assert acct[|BINDING_PREFIX|..end] == digits;
    assert MatchesAt(BINDING_PREFIX, acct, end);
    NatOfDec(n);
    assert acct[|BINDING_PREFIX|..] == digits + ("_" + tail);
    LeadingDigitsOf(digits, "_" + tail);
    LeadingDigitsOf(digits, "");
    ExtractionIs(acct, BINDING_PREFIX, digits, tail);
    SqlAgreesWithGo(acct);
  }

  /** A formatted id gets through the migration exactly when it names an account of a real binding. */
  lemma FormattedMigratable(binding: uint64, accountId: string)
    ensures Migratable(FormatPlatformAccountID(binding, accountId)) <==> binding != 0 && accountId != ""
  {
    var acct := FormatPlatformAccountID(binding, accountId);
    if binding != 0 && accountId != "" {
      var end := |BINDING_PREFIX| + |Dec(binding)|;
      assert acct[|BINDING_PREFIX|..end] == Dec(binding);
      assert MatchesAt(BINDING_PREFIX, acct, end);
    }
    if Migratable(acct) {
      MigratableFormat(binding, accountId);
    }
  }

  lemma MigratableFormat(binding: uint64, accountId: string)
    requires Migratable(FormatPlatformAccountID(binding, accountId))
    ensures binding != 0 && accountId != ""
  {
  }
}
