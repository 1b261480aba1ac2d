/**
 * VersionNumber (major.minor.patch): parsing from text, rendering to text and
 * the comparison operators.
 */
module Version {
  import opened Wrappers
  import opened Decimal

  /** The range of a 32-bit `unsigned`. */
  type Unsigned = x: int | 0 <= x < 0x1_0000_0000

  datatype VersionNumber = VersionNumber(major: Unsigned, minor: Unsigned, patch: Unsigned)

  /** static_cast<unsigned> of an unsigned long: the value modulo 2^32. */
  function ToUnsigned(n: nat): (u: Unsigned)
    ensures n < 0x1_0000_0000 ==> u == n
  {
    n % 0x1_0000_0000
  }

  /** sep occurs in s starting at index i. */
  predicate OccursAt(s: string, sep: string, i: nat) {
    i + |sep| <= |s| && s[i..i + |sep|] == sep
  }

  /** std::string::find(sep, pos): the first index at or after pos where sep occurs (None is npos). */
  function Find(s: string, sep: string, pos: nat): (r: Option<nat>)
    ensures r.Some? ==> pos <= r.value && OccursAt(s, sep, r.value)
    decreases |s| - pos
  {
    if pos + |sep| > |s| then None
    else if OccursAt(s, sep, pos) then Some(pos)
    else Find(s, sep, pos + 1)
  }

  /** Find returns the first occurrence at or after pos, and npos only when there is none. */
  lemma {:induction false} FindIsFirst(s: string, sep: string, pos: nat, i: nat)
    requires pos <= i && OccursAt(s, sep, i)
    ensures Find(s, sep, pos).Some? && Find(s, sep, pos).value <= i
    decreases i - pos
  {
    if !OccursAt(s, sep, pos) {
      FindIsFirst(s, sep, pos + 1, i);
    }
  }

  /** std::string::substr(pos) to the end: throws out_of_range when pos is past the end. */
  function SubstrFrom(s: string, pos: nat): (r: Result<string, StdException>)
    ensures pos <= |s| <==> r.Success?
    ensures r.Success? ==> |r.value| == |s| - pos
  {
    if pos > |s| then Failure(OutOfRange) else Success(s[pos..])
  }

  /**
   * Both separator searches succeed when the second one starts skip characters
   * after the first separator: the two assertions of from_string hold.
   */
  predicate SeparatorsFound(str: string, sep: string, skip: nat) {
    && Find(str, sep, 0).Some?
    && Find(str, sep, Find(str, sep, 0).value + skip).Some?
  }

  /**
   * The three fields read in the order of from_string's initializer list: each
   * text is read with std::stoul and cast to unsigned, and the patch text is
   * itself the result of a substr that may throw. The first exception thrown is
   * the Failure.
   */
  function ReadFields(majorText: string, minorText: string, patchText: Result<string, StdException>)
    : (r: Result<VersionNumber, StdException>)
  {
    var major :- Stoul(majorText);
    var minor :- Stoul(minorText);
    var text :- patchText;
    var patch :- Stoul(text);
    Success(VersionNumber(ToUnsigned(major), ToUnsigned(minor), ToUnsigned(patch)))
  }

  /** from_string's body, with each field starting skip characters after the separator before it. */
  function ParseSkipping(str: string, sep: string, skip: nat): (r: Result<VersionNumber, StdException>)
    requires SeparatorsFound(str, sep, skip)
  {
    var firstSep := Find(str, sep, 0).value;
    var secondSep := Find(str, sep, firstSep + skip).value;
    ParseAt(str, skip, firstSep, secondSep)
  }

  /** The fields read when the separators are at i and j: str[..i], str[i + skip..j] and what follows j + skip. */
  function ParseAt(str: string, skip: nat, i: nat, j: nat): Result<VersionNumber, StdException>
    requires i + skip <= j <= |str|
  {
    ReadFields(str[..i], str[i + skip..j], SubstrFrom(str, j + skip))
  }

  /**
   * VersionNumber::from_string as written: the minor field starts one character
   * after the first separator and the patch field one character after the second,
   * whatever the length of the separator.
   */
  function FromString(str: string, sep: string): (r: Result<VersionNumber, StdException>)
    requires SeparatorsFound(str, sep, 1)
  {
    ParseSkipping(str, sep, 1)
  }

  /** from_string with the fields starting sep.size() characters after each separator. */
  function FromStringFixed(str: string, sep: string): (r: Result<VersionNumber, StdException>)
    requires SeparatorsFound(str, sep, |sep|)
  {
    ParseSkipping(str, sep, |sep|)
  }

  /** to_string(version, sep): major, sep, minor, sep, patch in decimal. */
  function ToString(v: VersionNumber, sep: string): string {
    NatToString(v.major) + sep + NatToString(v.minor) + sep + NatToString(v.patch)
  }

  /** A search that starts on a run of digits stops at the separator that follows it. */
  lemma {:induction false} FindAfterDigits(s: string, sep: string, pos: nat, k: nat)
    requires pos <= k && k <= |s| && AllDigits(s[pos..k])
    requires OccursAt(s, sep, k) && sep != [] && !IsDigit(sep[0])
    ensures Find(s, sep, pos) == Some(k)
    decreases k - pos
  {
    if pos < k {
      assert IsDigit(s[pos..k][0]);
      if pos + |sep| <= |s| {
        assert s[pos..pos + |sep|][0] != sep[0];
      }
      assert s[pos + 1..k] == s[pos..k][1..];
      FindAfterDigits(s, sep, pos + 1, k);
    }
  }

  /** A text made of three fields and two separators splits back into them. */
  lemma FieldsParts(s: string, major: string, sep: string, minor: string, patch: string, a: nat, b: nat)
    requires s == major + sep + minor + sep + patch && a == |major| && b == |minor|
    ensures a + |sep| + b + |sep| <= |s|
    ensures s[..a] == major && OccursAt(s, sep, a)
    ensures s[a + |sep|..a + |sep| + b] == minor && OccursAt(s, sep, a + |sep| + b)
    ensures s[a + |sep| + b + |sep|..] == patch
  {
  }

  /**
   * When the first two fields are made of digits and the separator does not start
   * with one, the two searches land on the two separators.
   */
  lemma SeparatorsAt(s: string, sep: string, a: nat, b: nat)
    requires sep != [] && !IsDigit(sep[0])
    requires a <= |s| && AllDigits(s[..a]) && OccursAt(s, sep, a)
    requires a + |sep| + b <= |s| && AllDigits(s[a + |sep|..a + |sep| + b]) && OccursAt(s, sep, a + |sep| + b)
    ensures Find(s, sep, 0) == Some(a)
    ensures Find(s, sep, a + |sep|) == Some(a + |sep| + b)
  {
    assert s[0..a] == s[..a];
    FindAfterDigits(s, sep, 0, a);
    FindAfterDigits(s, sep, a + |sep|, a + |sep| + b);
  }

  /** Every field of a version number is read back by std::stoul and the cast. */
  lemma FieldRoundTrip(n: Unsigned)
    ensures Stoul(NatToString(n)) == Success(n as nat) && ToUnsigned(n) == n
  {
    StoulOfNatToString(n);
  }

  /** The fields of a version number, written in decimal, are read back as that version number. */
  lemma ReadFieldsOfToString(v: VersionNumber)
    ensures ReadFields(NatToString(v.major), NatToString(v.minor), Success(NatToString(v.patch))) == Success(v)
  {
    FieldRoundTrip(v.major);
    FieldRoundTrip(v.minor);
    FieldRoundTrip(v.patch);
  }

  /**
   * When the first separator is at i and the second at j, ParseSkipping reads
   * str[..i], str[i + skip..j] and what follows j + skip.
   */
  lemma ParseSkippingAt(str: string, sep: string, skip: nat, i: nat, j: nat)
    requires Find(str, sep, 0) == Some(i) && Find(str, sep, i + skip) == Some(j)
    ensures SeparatorsFound(str, sep, skip) && i + skip <= j <= |str|
    ensures ParseSkipping(str, sep, skip) == ParseAt(str, skip, i, j)
  {
    assert Find(str, sep, 0).value == i;
    assert Find(str, sep, i + skip).value == j;
  }

  /** Both separators are found and ParseSkipping reads the three given field texts. */
  predicate ReadsFields(str: string, sep: string, skip: nat, major: string, minor: string, patch: string) {
    SeparatorsFound(str, sep, skip) && ParseSkipping(str, sep, skip) == ReadFields(major, minor, Success(patch))
  }

  /** ParseSkipping on a text whose three fields, between the separators it finds, are given. */
  lemma ParseSkippingOfTexts(str: string, sep: string, skip: nat, i: nat, j: nat, major: string, minor: string, patch: string)
    requires Find(str, sep, 0) == Some(i) && Find(str, sep, i + skip) == Some(j) && j + skip <= |str|
    requires str[..i] == major && str[i + skip..j] == minor && str[j + skip..] == patch
    ensures ReadsFields(str, sep, skip, major, minor, patch)
  {
    ParseSkippingAt(str, sep, skip, i, j);
    assert SubstrFrom(str, j + skip) == Success(patch);
  }

  /**
   * When a text holds a field of digits, the separator, a second field of digits,
   * the separator and a third field, and the separator does not start with a
   * digit, ParseSkipping with skip |sep| reads the three fields.
   */
  lemma ParseSkippingOfParts(s: string, major: string, sep: string, minor: string, patch: string, a: nat, b: nat)
    requires AllDigits(major) && AllDigits(minor) && sep != [] && !IsDigit(sep[0])
    requires a + |sep| + b + |sep| <= |s|
    requires s[..a] == major && OccursAt(s, sep, a)
    requires s[a + |sep|..a + |sep| + b] == minor && OccursAt(s, sep, a + |sep| + b)
    requires s[a + |sep| + b + |sep|..] == patch
    ensures ReadsFields(s, sep, |sep|, major, minor, patch)
  {
    SeparatorsAt(s, sep, a, b);
    ParseSkippingOfTexts(s, sep, |sep|, a, a + |sep| + b, major, minor, patch);
  }

  /** from_string with skip |sep| reads back the text of every version number. */
  lemma ParseSkippingOfFields(v: VersionNumber, sep: string)
    requires sep != [] && !IsDigit(sep[0])
    ensures SeparatorsFound(ToString(v, sep), sep, |sep|)
    ensures ParseSkipping(ToString(v, sep), sep, |sep|) == Success(v)
  {
    var major, minor, patch := NatToString(v.major), NatToString(v.minor), NatToString(v.patch);
    var s, a, b := ToString(v, sep), |major|, |minor|;
    FieldsParts(s, major, sep, minor, patch, a, b);
    ParseSkippingOfParts(s, major, sep, minor, patch, a, b);
    ReadFieldsOfToString(v);
  }

  /**
   * from_string(to_string(v, sep), sep) == v when sep is one character that is
   * not a digit: then the "+ 1" after each separator skips exactly the separator.
   */
  lemma RoundTripSingleCharSeparator(v: VersionNumber, sep: string)
    requires |sep| == 1 && !IsDigit(sep[0])
    ensures SeparatorsFound(ToString(v, sep), sep, 1)
    ensures FromString(ToString(v, sep), sep) == Success(v)
  {
    ParseSkippingOfFields(v, sep);
  }

  /** ReadFields stops at the first field std::stoul rejects: here the minor one. */
  lemma ReadFieldsRejectsMinor(major: string, minor: string, patch: Result<string, StdException>, e: StdException)
    requires Stoul(major).Success? && Stoul(minor) == Failure(e)
    ensures ReadFields(major, minor, patch) == Failure(e)
  {
  }

  /** With the separator "::", the search for the second separator, started one character after the first, finds it. */
  lemma DoubleColonSeparators(s: string, major: string, minor: string, a: nat, b: nat)
    requires AllDigits(major) && AllDigits(minor) && minor != []
    requires a + 2 + b + 2 <= |s|
    requires s[..a] == major && OccursAt(s, "::", a)
    requires s[a + 2..a + 2 + b] == minor && OccursAt(s, "::", a + 2 + b)
    ensures Find(s, "::", 0) == Some(a)
    ensures Find(s, "::", a + 1) == Some(a + 2 + b)
  {
    assert s[0..a] == s[..a];
    FindAfterDigits(s, "::", 0, a);
    FindAfterDigits(s, "::", a + 2, a + 2 + b);
    assert s[a + 1..a + 3][1] == s[a + 2..a + 2 + b][0];
  }

  /**
   * With the separator "::" and two fields of digits, the search for the second
   * separator starts on the second ':' of the first one, and the minor text is
   * ':' followed by the minor digits, which std::stoul rejects.
   */
  lemma ParseSkippingOneOfDoubleColon(s: string, major: string, minor: string, a: nat, b: nat)
    requires AllDigits(major) && AllDigits(minor) && minor != [] && Stoul(major).Success?
    requires a + 2 + b + 2 <= |s|
    requires s[..a] == major && OccursAt(s, "::", a)
    requires s[a + 2..a + 2 + b] == minor && OccursAt(s, "::", a + 2 + b)
    ensures SeparatorsFound(s, "::", 1)
    ensures ParseSkipping(s, "::", 1) == Failure(InvalidArgument)
  {
    DoubleColonSeparators(s, major, minor, a, b);
    ParseSkippingAt(s, "::", 1, a, a + 2 + b);
    var minorText := s[a + 1..a + 2 + b];
    assert minorText[0] == s[a..a + 2][1];
    StoulRejectsNonNumber(minorText);
    ReadFieldsRejectsMinor(major, minorText, SubstrFrom(s, a + 2 + b + 1), InvalidArgument);
  }

  /**
   * With the two-character separator "::" the round trip fails for every version
   * number: the minor field is read from ':' and the minor digits, which
   * std::stoul rejects.
   */
  lemma RoundTripFailsForDoubleColon(v: VersionNumber)
    ensures SeparatorsFound(ToString(v, "::"), "::", 1)
    ensures FromString(ToString(v, "::"), "::") == Failure(InvalidArgument)
  {
    var major, minor, patch := NatToString(v.major), NatToString(v.minor), NatToString(v.patch);
    var s, a, b := ToString(v, "::"), |major|, |minor|;
    FieldsParts(s, major, "::", minor, patch, a, b);
    FieldRoundTrip(v.major);
    ParseSkippingOneOfDoubleColon(s, major, minor, a, b);
  }

  /** With the corrected skip, the round trip holds for every separator that does not start with a digit. */
  lemma RoundTripFixed(v: VersionNumber, sep: string)
    requires sep != [] && !IsDigit(sep[0])
    ensures SeparatorsFound(ToString(v, sep), sep, |sep|)
    ensures FromStringFixed(ToString(v, sep), sep) == Success(v)
  {
    ParseSkippingOfFields(v, sep);
  }

  /** operator<: lexicographic on (major, minor, patch). */
  predicate Less(lhs: VersionNumber, rhs: VersionNumber) {
    if lhs.major != rhs.major then lhs.major < rhs.major
    else if lhs.minor != rhs.minor then lhs.minor < rhs.minor
    else lhs.patch < rhs.patch
  }

  /** operator>, written as rhs < lhs. */
  predicate Greater(lhs: VersionNumber, rhs: VersionNumber) { Less(rhs, lhs) }

  /** operator<=, written as not (lhs > rhs). */
  predicate LessEq(lhs: VersionNumber, rhs: VersionNumber) { !Greater(lhs, rhs) }

  /** operator>=, written as not (lhs < rhs). */
  predicate GreaterEq(lhs: VersionNumber, rhs: VersionNumber) { !Less(lhs, rhs) }

  /** operator==: componentwise. */
  predicate Equal(lhs: VersionNumber, rhs: VersionNumber) {
    lhs.major == rhs.major && lhs.minor == rhs.minor && lhs.patch == rhs.patch
  }

  /** operator!=, written as not (lhs == rhs). */
  predicate NotEqual(lhs: VersionNumber, rhs: VersionNumber) { !Equal(lhs, rhs) }

  /** A single number that orders versions as operator< does: the three fields as base-2^32 digits. */
  function Key(v: VersionNumber): nat {
    v.major * 0x1_0000_0000_0000_0000 + v.minor * 0x1_0000_0000 + v.patch
  }

  /** operator< agrees with the order of the keys. */
  lemma LessIsKeyOrder(lhs: VersionNumber, rhs: VersionNumber)
    ensures Less(lhs, rhs) <==> Key(lhs) < Key(rhs)
    ensures Equal(lhs, rhs) <==> Key(lhs) == Key(rhs)
  {
  }

  /** operator== is value equality. */
  lemma EqualIsIdentity(lhs: VersionNumber, rhs: VersionNumber)
    ensures Equal(lhs, rhs) <==> lhs == rhs
    ensures NotEqual(lhs, rhs) <==> lhs != rhs
  {
  }

  /** operator< is a strict total order with operator== as its equality. */
  lemma LessIsStrictTotalOrder(a: VersionNumber, b: VersionNumber, c: VersionNumber)
    ensures !Less(a, a)
    ensures Less(a, b) && Less(b, c) ==> Less(a, c)
    ensures Less(a, b) || Equal(a, b) || Less(b, a)
    ensures !(Less(a, b) && Equal(a, b)) && !(Less(a, b) && Less(b, a))
  {
    LessIsKeyOrder(a, b);
    LessIsKeyOrder(b, c);
    LessIsKeyOrder(a, c);
    LessIsKeyOrder(b, a);
  }

  /** The derived operators mean what their names say. */
  lemma DerivedComparisons(a: VersionNumber, b: VersionNumber)
    ensures Greater(a, b) <==> Less(b, a)
    ensures LessEq(a, b) <==> Less(a, b) || Equal(a, b)
    ensures GreaterEq(a, b) <==> Greater(a, b) || Equal(a, b)
    ensures LessEq(a, b) && LessEq(b, a) ==> Equal(a, b)
  {
    LessIsStrictTotalOrder(a, b, a);
  }
}
