/** src/version.js: a comparable id for a shell version, computed as
    `(major << 8) + minor` with JavaScript's 32-bit shift, from numbers or
    from a "major.minor" string. */
module Version {
  import opened JsStrings

  /** The numbers these functions see: an integer or NaN. JavaScript's
      `parseInt` yields a double, so this is exact only below 2^53; the
      model keeps exact integers and has no Infinity. */
  datatype JsNumber = Num(value: int) | NaN

  const TwoTo31: int := 0x8000_0000
  const TwoTo32: int := 0x1_0000_0000

  /** JavaScript's ToInt32 on an integer: the signed 32-bit value congruent
      to it modulo 2^32. */
  function ToInt32(x: int): (r: int)
    ensures -TwoTo31 <= r < TwoTo31
    ensures (x - r) % TwoTo32 == 0
    ensures -TwoTo31 <= x < TwoTo31 ==> r == x
  {
    var m := x % TwoTo32;
    if m >= TwoTo31 then m - TwoTo32 else m
  }

  /** `x << 8`: NaN converts to 0, and the shifted value wraps to 32 bits. */
  function ShiftLeft8(x: JsNumber): (r: int)
    ensures -TwoTo31 <= r < TwoTo31
    ensures x.NaN? ==> r == 0
    ensures x.Num? ==> (r - x.value * 256) % TwoTo32 == 0
  {
    match x
    case NaN => 0
    case Num(v) => ToInt32(ToInt32(v) * 256)
  }

  /** `getShellVersionId`: `(major << 8) + minor`; a NaN minor makes the sum NaN. */
  function GetShellVersionId(major: JsNumber, minor: JsNumber): (id: JsNumber)
    ensures id.NaN? <==> minor.NaN?
    ensures id.Num? ==> minor.value - TwoTo31 <= id.value < minor.value + TwoTo31
    ensures major.NaN? ==> id == minor
  {
    match minor
    case NaN => NaN
    case Num(m) => Num(ShiftLeft8(major) + m)
  }

  /** Majors below 2^23 shift without wrapping: the id is `major * 256 + minor`. */
  lemma VersionIdValue(major: int, minor: int)
    requires 0 <= major < 0x80_0000
    ensures GetShellVersionId(Num(major), Num(minor)) == Num(major * 256 + minor)
  {
  }

  /** With minors below 256, comparing ids compares (major, minor) pairs
      lexicographically. */
  lemma VersionIdOrder(major1: int, minor1: int, major2: int, minor2: int)
    requires 0 <= major1 < 0x80_0000 && 0 <= major2 < 0x80_0000
    requires 0 <= minor1 < 256 && 0 <= minor2 < 256
    ensures GetShellVersionId(Num(major1), Num(minor1)).value < GetShellVersionId(Num(major2), Num(minor2)).value
            <==> major1 < major2 || (major1 == major2 && minor1 < minor2)
  {
    VersionIdValue(major1, minor1);
    VersionIdValue(major2, minor2);
  }

  /** With minors below 256, distinct versions have distinct ids. */
  lemma VersionIdInjective(major1: int, minor1: int, major2: int, minor2: int)
    requires 0 <= major1 < 0x80_0000 && 0 <= major2 < 0x80_0000
    requires 0 <= minor1 < 256 && 0 <= minor2 < 256
    requires GetShellVersionId(Num(major1), Num(minor1)) == GetShellVersionId(Num(major2), Num(minor2))
    ensures major1 == major2 && minor1 == minor2
  {
    VersionIdOrder(major1, minor1, major2, minor2);
    VersionIdOrder(major2, minor2, major1, minor1);
  }

  /** `parseInt` on a decimal string: the number its leading digits denote,
      or NaN when it does not start with a digit. */
  function ParseInt(s: string): (n: JsNumber)
    ensures n.NaN? <==> s == [] || !IsDigit(s[0])
    ensures n.Num? ==> n.value == Value(LeadingDigits(s))
  {
    var digits := LeadingDigits(s);
    if |digits| == 0 then NaN else Num(Value(digits))
  }

  /** `parseInt` reads back the decimal form of a number. */
  lemma ParseIntFromNat(n: nat)
    ensures ParseInt(FromNat(n)) == Num(n)
  {
    LeadingDigitsOfDigits(FromNat(n), "");
    assert FromNat(n) + "" == FromNat(n);
    ValueFromNat(n);
  }

  /** `getShellVersionIdFromString`: the id of the first two dot-separated
      components; a missing minor is `parseInt(undefined)`, which is NaN. */
  function GetShellVersionIdFromString(versionString: string): (id: JsNumber)
    ensures '.' !in versionString ==> id.NaN?
    ensures var parts := Split(versionString, '.');
            |parts| >= 2 && !ParseInt(parts[1]).NaN? <==> id.Num?
  {
    var parts := Split(versionString, '.');
    GetShellVersionId(ParseInt(parts[0]), if |parts| >= 2 then ParseInt(parts[1]) else NaN)
  }

  /** The first two dot-separated components of "M.m" followed by ".x..." or nothing. */
  lemma {:induction false} SplitVersion(ma: string, mi: string, rest: string)
    requires '.' !in ma && '.' !in mi
    requires rest == [] || rest[0] == '.'
    ensures var parts := Split(ma + "." + mi + rest, '.');
            |parts| >= 2 && parts[0] == ma && parts[1] == mi
  {
    var tail := mi + rest;
    var whole := ma + ['.'] + tail;
    assert ma + "." + mi + rest == whole;
    var tailParts: seq<string>;
    if rest == [] {
      assert tail == mi;
      tailParts := [mi];
    } else {
      assert tail == mi + ['.'] + rest[1..];
      SplitCons(mi, '.', rest[1..]);
      tailParts := [mi] + Split(rest[1..], '.');
    }
    assert Split(tail, '.') == tailParts;
    SplitCons(ma, '.', tail);
    assert Split(whole, '.') == [ma] + tailParts;
  }

  /** A string "M.m", possibly followed by further ".x" components, has the
      id of (M, m). */
  lemma FromStringMatches(major: nat, minor: nat, rest: string)
    requires rest == [] || rest[0] == '.'
    ensures GetShellVersionIdFromString(FromNat(major) + "." + FromNat(minor) + rest)
            == GetShellVersionId(Num(major), Num(minor))
  {
    var ma, mi := FromNat(major), FromNat(minor);
    assert '.' !in ma && '.' !in mi;
    SplitVersion(ma, mi, rest);
    ParseIntFromNat(major);
    ParseIntFromNat(minor);
  }

  /** The decimal form of a two-digit number. */
  lemma TwoDigits(n: nat)
    requires 10 <= n < 100
    ensures FromNat(n) == [DigitChar(n / 10), DigitChar(n % 10)]
  {
  }

  /** "major.minor" with a one-digit major and a two-digit minor has the id of (major, minor). */
  lemma ShortVersionString(s: string, major: nat, minor: nat)
    requires major < 10 && 10 <= minor < 100
    requires s == [DigitChar(major), '.', DigitChar(minor / 10), DigitChar(minor % 10)]
    ensures GetShellVersionIdFromString(s)
            == GetShellVersionId(Num(major), Num(minor))
            == Num(major * 256 + minor)
  {
    TwoDigits(minor);
    assert [DigitChar(major), '.', DigitChar(minor / 10), DigitChar(minor % 10)]
           == FromNat(major) + "." + FromNat(minor) + "";
    FromStringMatches(major, minor, "");
    VersionIdValue(major, minor);
  }

  /** The versions compared in the version tests: the string and numeric ids
      agree, and 3.28 is above 3.26, 2.20 and 2.48. */
  lemma VersionSpecCases()
    ensures GetShellVersionIdFromString("3.28") == GetShellVersionId(Num(3), Num(28)) == Num(796)
    ensures GetShellVersionIdFromString("3.26") == GetShellVersionId(Num(3), Num(26)) == Num(794)
    ensures GetShellVersionIdFromString("2.20") == GetShellVersionId(Num(2), Num(20)) == Num(532)
    ensures GetShellVersionIdFromString("2.48") == GetShellVersionId(Num(2), Num(48)) == Num(560)
  {
    ShortVersionString("3.28", 3, 28);
    ShortVersionString("3.26", 3, 26);
    ShortVersionString("2.20", 2, 20);
    ShortVersionString("2.48", 2, 48);
  }

  /** A major `parseInt` cannot read is NaN, which the shift turns into 0:
      "x.28" gets the id of 0.28. */
  lemma UnreadableMajorIsZero(minor: nat)
    ensures GetShellVersionIdFromString("x." + FromNat(minor)) == Num(minor)
  {
    var s := "x" + ['.'] + FromNat(minor);
    assert "x." + FromNat(minor) == s;
    SplitCons("x", '.', FromNat(minor));
    assert Split(FromNat(minor), '.') == [FromNat(minor)];
    ParseIntFromNat(minor);
  }
}
