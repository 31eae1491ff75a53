/** Server version parsing and version-gated feature flags
    (ClickHouseConnection.ParseVersion and ClickHouseConnection.GetFeatureFlags). */
module Versions {
  import opened Errors
  import opened Text

  const Int32Min: int := -0x8000_0000
  const Int32Max: int := 0x7FFF_FFFF

  /** System.Version. A component the constructor was not given (the two- and
      three-argument constructors) reads as -1, as Version.Build and Version.Revision do. */
  datatype Version = Version(major: int, minor: int, build: int, revision: int)

  /** A version built by the four-argument constructor: every component is defined. */
  predicate Defined(v: Version) {
    v.major >= 0 && v.minor >= 0 && v.build >= 0 && v.revision >= 0
  }

  /** new Version(major, minor). */
  function Version2(major: nat, minor: nat): Version {
    Version(major, minor, -1, -1)
  }

  /** new Version(major, minor, build). */
  function Version3(major: nat, minor: nat, build: nat): Version {
    Version(major, minor, build, -1)
  }

  /** Version.CompareTo(a, b) < 0: component by component, left to right. */
  predicate Less(a: Version, b: Version) {
    if a.major != b.major then a.major < b.major
    else if a.minor != b.minor then a.minor < b.minor
    else if a.build != b.build then a.build < b.build
    else a.revision < b.revision
  }

  predicate LessOrEqual(a: Version, b: Version) {
    a == b || Less(a, b)
  }

  /** The operator `a > b` on versions. */
  predicate Greater(a: Version, b: Version) {
    Less(b, a)
  }

  lemma LessTransitive(a: Version, b: Version, c: Version)
    requires Less(a, b) && Less(b, c)
    ensures Less(a, c)
  {
  }

  // ---------------------------------------------------------------------------
  // int.TryParse(s, NumberStyles.Integer, CultureInfo.InvariantCulture, out i)

  /** The white space NumberStyles.AllowLeadingWhite and AllowTrailingWhite skip. */
  predicate IsNumberWhite(c: char) {
    c == ' ' || ('\U{0009}' <= c <= '\U{000D}')
  }

  function TrimNumberWhiteStart(s: string): (r: string)
    ensures |r| <= |s| && r == s[|s| - |r|..]
    ensures r == [] || !IsNumberWhite(r[0])
  {
    if s != [] && IsNumberWhite(s[0]) then TrimNumberWhiteStart(s[1..]) else s
  }

  function TrimNumberWhiteEnd(s: string): (r: string)
    ensures |r| <= |s| && r == s[..|r|]
    ensures r == [] || !IsNumberWhite(r[|r| - 1])
    ensures forall k :: |r| <= k < |s| ==> IsNumberWhite(s[k])
  {
    if s != [] && IsNumberWhite(s[|s| - 1]) then TrimNumberWhiteEnd(s[..|s| - 1]) else s
  }

  /** The NUL characters after the number and its trailing white space, which the
      TrailingZeros rule of int.TryParse accepts, dropped from the end. */
  function DropTrailingNul(s: string): (r: string)
    ensures |r| <= |s| && r == s[..|r|]
    ensures r == [] || r[|r| - 1] != '\0'
    ensures forall k :: |r| <= k < |s| ==> s[k] == '\0'
  {
    if s != [] && s[|s| - 1] == '\0' then DropTrailingNul(s[..|s| - 1]) else s
  }

  predicate IsDigit(c: char) {
    '0' <= c <= '9'
  }

  predicate AllDigits(s: string) {
    forall k :: 0 <= k < |s| ==> IsDigit(s[k])
  }

  /** The number a string of decimal digits denotes, read left to right. */
  function DigitsValue(ds: string): nat
    requires AllDigits(ds)
  {
    if ds == [] then 0
    else DigitsValue(ds[..|ds| - 1]) * 10 + (ds[|ds| - 1] as int - '0' as int)
  }

  /** The text TryParseInt32 reads its sign and digits from. */
  function NumberCore(s: string): string {
    TrimNumberWhiteEnd(DropTrailingNul(TrimNumberWhiteStart(s)))
  }

  /** Int32 parsing with NumberStyles.Integer: optional white space, an optional sign,
      one or more ASCII digits, optional white space, then any number of NUL characters;
      None when the text is malformed or the number does not fit in 32 bits (TryParse
      returns false). */
  function TryParseInt32(s: string): (r: Option<int>)
    ensures r.Some? ==> Int32Min <= r.value <= Int32Max
  {
    ParseCore(NumberCore(s))
  }

  /** The sign and digits that make up the whole of the trimmed text `t`. */
  function ParseCore(t: string): (r: Option<int>)
    ensures r.Some? ==> Int32Min <= r.value <= Int32Max
  {
    var signed := |t| > 0 && (t[0] == '-' || t[0] == '+');
    var digits := if signed then t[1..] else t;
    if digits == [] || !AllDigits(digits) then None
    else
      var n: int := if signed && t[0] == '-' then -(DigitsValue(digits) as int) else DigitsValue(digits);
      if Int32Min <= n <= Int32Max then Some(n) else None
  }

  /** The shortest decimal spelling of n (Int32.ToString in the invariant culture). */
  function DecimalString(n: nat): (r: string)
    ensures r != [] && AllDigits(r)
    ensures r[0] != '0' || n == 0
  {
    var d := ['0' + (n % 10) as char];
    if n < 10 then d else DecimalString(n / 10) + d
  }

  /** Parsing a number's decimal spelling gives the number back. */
  lemma {:induction false} DigitsValueOfDecimal(n: nat)
    ensures DigitsValue(DecimalString(n)) == n
  {
    var r := DecimalString(n);
    if n >= 10 {
      DigitsValueOfDecimal(n / 10);
      assert r[..|r| - 1] == DecimalString(n / 10);
    }
  }

  lemma DecimalRoundTrip(n: nat)
    requires n <= Int32Max
    ensures TryParseInt32(DecimalString(n)) == Some(n)
  {
    var r := DecimalString(n);
    DecimalCore(n);
    DigitsValueOfDecimal(n);
    assert IsDigit(r[0]);
    assert ParseCore(r) == Some(n);
  }

  /** k NUL characters. */
  function Nuls(k: nat): (r: string)
    ensures |r| == k && forall i :: 0 <= i < k ==> r[i] == '\0'
  {
    seq(k, _ => '\0')
  }

  predicate AllNumberWhite(s: string) {
    forall k :: 0 <= k < |s| ==> IsNumberWhite(s[k])
  }

  /** Two texts with the same core parse alike. */
  lemma SameCore(s: string, t: string)
    requires NumberCore(s) == NumberCore(t)
    ensures TryParseInt32(s) == TryParseInt32(t)
  {
  }

  lemma TrimStartKeeps(s: string)
    requires s != [] && !IsNumberWhite(s[0])
    ensures TrimNumberWhiteStart(s) == s
  {
  }

  /** NULs after a text that does not end in one are all dropped, and nothing else. */
  lemma DropNulsOf(u: string, k: nat)
    requires u == [] || u[|u| - 1] != '\0'
    ensures DropTrailingNul(u + Nuls(k)) == u
  {
    var s := u + Nuls(k);
    var r := DropTrailingNul(s);
    if u != [] {
      assert s[|u| - 1] == u[|u| - 1];
    }
  }

  /** White space after a text that does not end in it is all trimmed, and nothing else. */
  lemma TrimWhiteOf(d: string, ws: string)
    requires d != [] && !IsNumberWhite(d[|d| - 1]) && AllNumberWhite(ws)
    ensures TrimNumberWhiteEnd(d + ws) == d
  {
    var s := d + ws;
    var r := TrimNumberWhiteEnd(s);
    assert s[|d| - 1] == d[|d| - 1];
  }

  /** A number's spelling is its own core. */
  lemma DecimalCore(n: nat)
    ensures NumberCore(DecimalString(n)) == DecimalString(n)
  {
    var d := DecimalString(n);
    assert IsDigit(d[0]) && IsDigit(d[|d| - 1]);
    TrimStartKeeps(d);
    DropNulsOf(d, 0);
    assert d + Nuls(0) == d;
    TrimWhiteOf(d, []);
    assert d + [] == d;
  }

  /** A number followed by white space and then NULs parses as the number. */
  lemma TrailingNulsAccepted(n: nat, ws: string, k: nat)
    requires n <= Int32Max && AllNumberWhite(ws)
    ensures TryParseInt32(DecimalString(n) + ws + Nuls(k)) == Some(n)
  {
    var d := DecimalString(n);
    var s := d + ws + Nuls(k);
    assert IsDigit(d[0]) && IsDigit(d[|d| - 1]);
    assert s[0] == d[0];
    TrimStartKeeps(s);
    var u := d + ws;
    assert u[|u| - 1] != '\0' by {
      if ws == [] { assert u[|u| - 1] == d[|d| - 1]; } else { assert u[|u| - 1] == ws[|ws| - 1]; }
    }
    DropNulsOf(u, k);
    TrimWhiteOf(d, ws);
    DecimalCore(n);
    SameCore(s, d);
    DecimalRoundTrip(n);
  }

  /** A NUL with anything other than NULs after it is not accepted. */
  lemma NulBeforeMoreRejected(n: nat, rest: string)
    requires rest != [] && rest[|rest| - 1] != '\0'
    ensures TryParseInt32(DecimalString(n) + "\0" + rest) == None
  {
    var d := DecimalString(n);
    var s := d + "\0" + rest;
    assert IsDigit(d[0]);
    assert s[0] == d[0];
    TrimStartKeeps(s);
    assert s[|s| - 1] == rest[|rest| - 1];
    DropNulsOf(s, 0);
    assert s + Nuls(0) == s;
    var t := NumberCore(s);
    assert t == TrimNumberWhiteEnd(s);
    assert s[|d|] == '\0';
    assert |t| > |d|;
    assert t[|d|] == '\0' && t[0] == d[0];
    assert !AllDigits(t);
  }

  // ---------------------------------------------------------------------------
  // ParseVersion

  /** One dotted part: its Int32 value, or 0 when it does not parse. */
  function ParseComponent(s: string): int {
    TryParseInt32(s).GetOr(0)
  }

  function ParseComponents(parts: seq<string>): (r: seq<int>)
    ensures |r| == |parts|
    ensures forall k :: 0 <= k < |parts| ==> r[k] == ParseComponent(parts[k])
  {
    seq(|parts|, k requires 0 <= k < |parts| => ParseComponent(parts[k]))
  }

  /** Enumerable.ElementAtOrDefault: the k-th part, or 0 past the end. */
  function ComponentAt(parts: seq<int>, k: nat): int {
    if k < |parts| then parts[k] else 0
  }

  /** new Version(major, minor, build, revision): every component must be non-negative. */
  function NewVersion(major: int, minor: int, build: int, revision: int): (r: Result<Version>)
    ensures r.Ok? <==> major >= 0 && minor >= 0 && build >= 0 && revision >= 0
    ensures r.Ok? ==> r.value == Version(major, minor, build, revision) && Defined(r.value)
  {
    if major < 0 then Err(ArgumentOutOfRange("major"))
    else if minor < 0 then Err(ArgumentOutOfRange("minor"))
    else if build < 0 then Err(ArgumentOutOfRange("build"))
    else if revision < 0 then Err(ArgumentOutOfRange("revision"))
    else Ok(Version(major, minor, build, revision))
  }

  /** ClickHouseConnection.ParseVersion. None stands for a null string. */
  function ParseVersion(versionString: Option<string>): (r: Result<Version>)
    ensures IsNullOrWhiteSpace(versionString) ==> r == Err(ArgumentError("versionString"))
    ensures r.Ok? ==> Defined(r.value) && r.value.major > 0
    ensures r.Err? && r.error.InvalidOperation? ==>
              versionString.Some? && r.error == InvalidOperation("Invalid version: " + versionString.value)
  {
    if IsNullOrWhiteSpace(versionString) then Err(ArgumentError("versionString"))
    else
      var s := versionString.value;
      var parts := ParseComponents(SplitNonEmpty(s, '.'));
      if |parts| == 0 || parts[0] == 0 then Err(InvalidOperation("Invalid version: " + s))
      else NewVersion(ComponentAt(parts, 0), ComponentAt(parts, 1), ComponentAt(parts, 2), ComponentAt(parts, 3))
  }

  /** The decimal spelling of each component. */
  function Decimals(comps: seq<nat>): (r: seq<string>)
    ensures |r| == |comps|
    ensures forall k :: 0 <= k < |comps| ==> r[k] == DecimalString(comps[k])
  {
    if comps == [] then [] else [DecimalString(comps[0])] + Decimals(comps[1..])
  }

  /** The dotted spelling of a list of components. */
  function VersionString(comps: seq<nat>): string {
    JoinWith(Decimals(comps), '.')
  }

  lemma SplitVersionString(comps: seq<nat>)
    ensures SplitNonEmpty(VersionString(comps), '.') == Decimals(comps)
  {
    var strs := Decimals(comps);
    forall k | 0 <= k < |strs| ensures strs[k] != [] && '.' !in strs[k] {
      assert AllDigits(strs[k]);
    }
    SplitJoin(strs, '.');
    NonEmptyPartsKeeps(strs);
  }

  lemma VersionStringStartsWithDigit(comps: seq<nat>)
    requires comps != []
    ensures VersionString(comps) != [] && IsDigit(VersionString(comps)[0])
  {
    var strs := Decimals(comps);
    if |strs| > 1 {
      assert VersionString(comps) == strs[0] + ['.'] + JoinWith(strs[1..], '.');
    }
    assert AllDigits(strs[0]);
  }

  /** Parsing a dotted list of components: missing components become 0 and any
      component past the fourth is ignored. */
  lemma ParseVersionComponents(comps: seq<nat>)
    requires 1 <= |comps| && comps[0] > 0
    requires forall k :: 0 <= k < |comps| && k < 4 ==> comps[k] <= Int32Max
    ensures ParseVersion(Some(VersionString(comps)))
         == Ok(Version(ComponentAt(comps, 0), ComponentAt(comps, 1), ComponentAt(comps, 2), ComponentAt(comps, 3)))
  {
    var s := VersionString(comps);
    VersionStringStartsWithDigit(comps);
    assert !IsNullOrWhiteSpace(Some(s)) by {
      assert !IsWhiteSpace(s[0]);
    }
    SplitVersionString(comps);
    ParseSplitDecimals(s, comps);
  }

  /** Any text that is not blank and splits into the decimal spellings of `comps`
      parses to the first four of them. */
  lemma ParseSplitDecimals(s: string, comps: seq<nat>)
    requires !IsNullOrWhiteSpace(Some(s)) && SplitNonEmpty(s, '.') == Decimals(comps)
    requires 1 <= |comps| && comps[0] > 0
    requires forall k :: 0 <= k < |comps| && k < 4 ==> comps[k] <= Int32Max
    ensures ParseVersion(Some(s))
         == Ok(Version(ComponentAt(comps, 0), ComponentAt(comps, 1), ComponentAt(comps, 2), ComponentAt(comps, 3)))
  {
    ParseLeadingDecimals(comps);
  }

  /** The first four parsed components of a dotted spelling are its components. */
  lemma ParseLeadingDecimals(comps: seq<nat>)
    requires forall k :: 0 <= k < |comps| && k < 4 ==> comps[k] <= Int32Max
    ensures var parts := ParseComponents(Decimals(comps));
            |parts| == |comps| && forall k :: 0 <= k < 4 ==> ComponentAt(parts, k) == ComponentAt(comps, k)
  {
    var parts := ParseComponents(Decimals(comps));
    forall k | 0 <= k < |comps| && k < 4 ensures parts[k] == comps[k] {
      DecimalRoundTrip(comps[k]);
    }
  }

  /** A version string whose first part is 0 or not a number is invalid. */
  lemma ParseVersionZeroMajor(s: string)
    requires !IsNullOrWhiteSpace(Some(s))
    requires var parts := SplitNonEmpty(s, '.'); parts == [] || ParseComponent(parts[0]) == 0
    ensures ParseVersion(Some(s)) == Err(InvalidOperation("Invalid version: " + s))
  {
  }

  // ---------------------------------------------------------------------------
  // Feature flags

  /** The members of the FeatureFlags enumeration. */
  datatype Feature =
    | SupportsHttpParameters
    | SupportsDateTime64
    | SupportsInlineQuery
    | SupportsDecimal
    | SupportsIPv6
    | SupportsUUIDParameters
    | SupportsMap
    | SupportsBool

  const AllFeatures: set<Feature> := {
    SupportsHttpParameters, SupportsDateTime64, SupportsInlineQuery, SupportsDecimal,
    SupportsIPv6, SupportsUUIDParameters, SupportsMap, SupportsBool }

  /** The version a server must exceed (strictly) to offer a feature. */
  function Threshold(f: Feature): Version {
    match f
    case SupportsHttpParameters => Version(19, 11, 3, 11)
    case SupportsDateTime64 => Version(20, 1, 2, 4)
    case SupportsInlineQuery => Version2(20, 5)
    case SupportsDecimal => Version2(20, 0)
    case SupportsIPv6 => Version2(20, 0)
    case SupportsUUIDParameters => Version2(21, 0)
    case SupportsMap => Version3(21, 1, 2)
    case SupportsBool => Version2(21, 12)
  }

  /** The flags a server of version v supports: one per threshold it exceeds. */
  function FeaturesOf(v: Version): set<Feature> {
    set f | f in AllFeatures && Greater(v, Threshold(f))
  }

  /** The one-flag set a threshold contributes: {f} when v exceeds it, {} otherwise. */
  function Flag(v: Version, f: Feature): set<Feature> {
    if Greater(v, Threshold(f)) then {f} else {}
  }

  /** FeaturesOf, one threshold at a time in the order GetFeatureFlags tests them. */
  lemma FeaturesOfByThreshold(v: Version)
    ensures FeaturesOf(v)
         == Flag(v, SupportsHttpParameters) + Flag(v, SupportsDateTime64) + Flag(v, SupportsInlineQuery)
          + Flag(v, SupportsDecimal) + Flag(v, SupportsIPv6) + Flag(v, SupportsUUIDParameters)
          + Flag(v, SupportsMap) + Flag(v, SupportsBool)
  {
  }

  /** ClickHouseConnection.GetFeatureFlags: the flags are or-ed in one threshold at a time. */
  method GetFeatureFlags(serverVersion: Version) returns (flags: set<Feature>)
    ensures flags == FeaturesOf(serverVersion)
  {
    ghost var v := serverVersion;
    flags := {};
    if Greater(serverVersion, Version(19, 11, 3, 11)) {
      flags := flags + {SupportsHttpParameters};
    }
    assert flags == Flag(v, SupportsHttpParameters);
    if Greater(serverVersion, Version(20, 1, 2, 4)) {
      flags := flags + {SupportsDateTime64};
    }
    ghost var upTo := Flag(v, SupportsHttpParameters) + Flag(v, SupportsDateTime64);
    assert flags == upTo;
    if Greater(serverVersion, Version2(20, 5)) {
      flags := flags + {SupportsInlineQuery};
    }
    upTo := upTo + Flag(v, SupportsInlineQuery);
    assert flags == upTo;
    if Greater(serverVersion, Version2(20, 0)) {
      flags := flags + {SupportsDecimal};
      flags := flags + {SupportsIPv6};
    }
    upTo := upTo + Flag(v, SupportsDecimal) + Flag(v, SupportsIPv6);
    assert flags == upTo;
    if Greater(serverVersion, Version2(21, 0)) {
      flags := flags + {SupportsUUIDParameters};
    }
    upTo := upTo + Flag(v, SupportsUUIDParameters);
    assert flags == upTo;
    if Greater(serverVersion, Version3(21, 1, 2)) {
      flags := flags + {SupportsMap};
    }
    upTo := upTo + Flag(v, SupportsMap);
    assert flags == upTo;
    if Greater(serverVersion, Version2(21, 12)) {
      flags := flags + {SupportsBool};
    }
    upTo := upTo + Flag(v, SupportsBool);
    assert flags == upTo;
    FeaturesOfByThreshold(v);
  }

  /** No flag is lost when the version grows. */
  lemma FeaturesMonotone(v1: Version, v2: Version)
    requires LessOrEqual(v1, v2)
    ensures FeaturesOf(v1) <= FeaturesOf(v2)
  {
    forall f | f in FeaturesOf(v1) ensures f in FeaturesOf(v2) {
      if v1 != v2 {
        LessTransitive(Threshold(f), v1, v2);
      }
    }
  }

  /** Decimal and IPv6 share one threshold, so a server has both or neither. */
  lemma DecimalIffIPv6(v: Version)
    ensures SupportsDecimal in FeaturesOf(v) <==> SupportsIPv6 in FeaturesOf(v)
  {
  }

  /** Against a two-component threshold a defined version compares on (major, minor)
      with equality counting as greater, because the threshold's undefined
      components are -1. */
  lemma TwoComponentThreshold(v: Version, major: nat, minor: nat)
    requires Defined(v)
    ensures Greater(v, Version2(major, minor)) <==> (v.major > major || (v.major == major && v.minor >= minor))
  {
  }

  /** Likewise for a three-component threshold, on (major, minor, build). */
  lemma ThreeComponentThreshold(v: Version, major: nat, minor: nat, build: nat)
    requires Defined(v)
    ensures Greater(v, Version3(major, minor, build))
        <==> (v.major > major || (v.major == major && (v.minor > minor || (v.minor == minor && v.build >= build))))
  {
  }

  lemma DecimalExamples()
    ensures DecimalString(3) == "3" && DecimalString(5) == "5"
    ensures DecimalString(11) == "11" && DecimalString(12) == "12" && DecimalString(19) == "19"
    ensures DecimalString(20) == "20" && DecimalString(21) == "21"
  {
  }

  lemma Spelling19_11_3_11()
    ensures VersionString([19, 11, 3, 11]) == "19.11.3.11"
  {
    DecimalExamples();
    assert Decimals([19, 11, 3, 11]) == ["19", "11", "3", "11"];
  }

  lemma Spelling19_11_3_12()
    ensures VersionString([19, 11, 3, 12]) == "19.11.3.12"
  {
    DecimalExamples();
    assert Decimals([19, 11, 3, 12]) == ["19", "11", "3", "12"];
  }

  lemma Spelling21_3()
    ensures VersionString([21, 3]) == "21.3"
  {
    DecimalExamples();
    assert Decimals([21, 3]) == ["21", "3"];
  }

  lemma Spelling20_5()
    ensures VersionString([20, 5]) == "20.5"
  {
    DecimalExamples();
    assert Decimals([20, 5]) == ["20", "5"];
  }

  lemma ParseLastWithout()
    ensures ParseVersion(Some("19.11.3.11")) == Ok(Version(19, 11, 3, 11))
  {
    ParseVersionComponents([19, 11, 3, 11]);
    Spelling19_11_3_11();
  }

  lemma ParseFirstWith()
    ensures ParseVersion(Some("19.11.3.12")) == Ok(Version(19, 11, 3, 12))
  {
    ParseVersionComponents([19, 11, 3, 12]);
    Spelling19_11_3_12();
  }

  /** HTTP parameters need a server strictly newer than 19.11.3.11. */
  lemma HttpParametersBoundary()
    ensures var old_ := ParseVersion(Some("19.11.3.11"));
            old_.Ok? && SupportsHttpParameters !in FeaturesOf(old_.value)
    ensures var new_ := ParseVersion(Some("19.11.3.12"));
            new_.Ok? && SupportsHttpParameters in FeaturesOf(new_.value)
  {
    ParseLastWithout();
    ParseFirstWith();
    assert SupportsHttpParameters in AllFeatures;
  }

  lemma Parse21_3()
    ensures ParseVersion(Some("21.3")) == Ok(Version(21, 3, 0, 0))
  {
    ParseVersionComponents([21, 3]);
    Spelling21_3();
  }

  lemma Parse20_5()
    ensures ParseVersion(Some("20.5")) == Ok(Version(20, 5, 0, 0))
  {
    ParseVersionComponents([20, 5]);
    Spelling20_5();
  }

  /** "21.3" parses to 21.3.0.0, and a parsed 20.5 already has inline queries. */
  lemma ShortVersionExamples()
    ensures ParseVersion(Some("21.3")) == Ok(Version(21, 3, 0, 0))
    ensures var v := ParseVersion(Some("20.5"));
            v.Ok? && SupportsInlineQuery in FeaturesOf(v.value)
    ensures SupportsInlineQuery !in FeaturesOf(Version(20, 4, 99, 99))
  {
    Parse21_3();
    Parse20_5();
    assert SupportsInlineQuery in AllFeatures;
  }

  /** A string with a character that is not white space is not blank. */
  lemma NotBlank(s: string, i: nat)
    requires i < |s| && !IsWhiteSpace(s[i])
    ensures !IsNullOrWhiteSpace(Some(s))
  {
  }

  lemma SplitDoubledDot()
    ensures SplitNonEmpty("21..3", '.') == Decimals([21, 3])
  {
    DecimalExamples();
    assert Decimals([21, 3]) == ["21", "3"];
    var doubled: seq<string> := ["21", "", "3"];
    assert JoinWith(doubled, '.') == "21..3";
    SplitJoin(doubled, '.');
    assert NonEmptyParts(doubled) == ["21", "3"];
  }

  lemma SplitOuterDots()
    ensures SplitNonEmpty(".21.3.", '.') == Decimals([21, 3])
  {
    DecimalExamples();
    assert Decimals([21, 3]) == ["21", "3"];
    var outer: seq<string> := ["", "21", "3", ""];
    assert JoinWith(outer, '.') == ".21.3.";
    SplitJoin(outer, '.');
    assert NonEmptyParts(outer) == ["21", "3"];
  }

  /** The split drops empty entries, so doubled, leading and trailing dots are ignored. */
  lemma EmptyPartsDropped()
    ensures ParseVersion(Some("21..3")) == Ok(Version(21, 3, 0, 0))
    ensures ParseVersion(Some(".21.3.")) == Ok(Version(21, 3, 0, 0))
  {
    SplitDoubledDot();
    NotBlank("21..3", 0);
    ParseSplitDecimals("21..3", [21, 3]);
    SplitOuterDots();
    NotBlank(".21.3.", 1);
    ParseSplitDecimals(".21.3.", [21, 3]);
  }

  /** The dotted spelling of `comps` with its last part followed by k NULs. */
  function NulPaddedParts(comps: seq<nat>, k: nat): (r: seq<string>)
    requires comps != []
    ensures |r| == |comps|
  {
    var ds := Decimals(comps);
    ds[..|ds| - 1] + [ds[|ds| - 1] + Nuls(k)]
  }

  lemma SplitNulPadded(comps: seq<nat>, k: nat)
    requires comps != []
    ensures SplitNonEmpty(VersionString(comps) + Nuls(k), '.') == NulPaddedParts(comps, k)
  {
    var ds := Decimals(comps);
    var ps := NulPaddedParts(comps, k);
    JoinWithExtendLast(ds, Nuls(k), '.');
    forall i | 0 <= i < |ps| ensures ps[i] != [] && '.' !in ps[i] {
      assert AllDigits(ds[i]);
      if i == |ps| - 1 {
        assert ps[i] == ds[i] + Nuls(k);
        assert ps[i][0] == ds[i][0];
        assert forall j :: 0 <= j < |ps[i]| ==> ps[i][j] == '\0' || IsDigit(ps[i][j]);
      } else {
        assert ps[i] == ds[i];
      }
    }
    SplitJoin(ps, '.');
    NonEmptyPartsKeeps(ps);
  }

  /** The parts of a NUL-padded spelling parse to the components. */
  lemma ParseNulPadded(comps: seq<nat>, k: nat, i: nat)
    requires i < |comps| && comps[i] <= Int32Max
    ensures ParseComponent(NulPaddedParts(comps, k)[i]) == comps[i]
  {
    var ds := Decimals(comps);
    var p := NulPaddedParts(comps, k)[i];
    if i == |comps| - 1 {
      assert p == DecimalString(comps[i]) + Nuls(k);
      NulPaddedNumber(comps[i], k);
    } else {
      assert p == DecimalString(comps[i]);
      DecimalRoundTrip(comps[i]);
    }
  }

  lemma NulPaddedNumber(n: nat, k: nat)
    requires n <= Int32Max
    ensures ParseComponent(DecimalString(n) + Nuls(k)) == n
  {
    TrailingNulsAccepted(n, [], k);
    assert DecimalString(n) + [] == DecimalString(n);
  }

  /** NUL characters after a version's spelling do not change what it parses to: the
      last part, with the NULs, is still read as its number. */
  lemma VersionTrailingNuls(comps: seq<nat>, k: nat)
    requires 1 <= |comps| && comps[0] > 0
    requires forall i :: 0 <= i < |comps| && i < 4 ==> comps[i] <= Int32Max
    ensures ParseVersion(Some(VersionString(comps) + Nuls(k)))
         == Ok(Version(ComponentAt(comps, 0), ComponentAt(comps, 1), ComponentAt(comps, 2), ComponentAt(comps, 3)))
  {
    var s := VersionString(comps) + Nuls(k);
    var parts := NulPaddedParts(comps, k);
    VersionStringStartsWithDigit(comps);
    assert s[0] == VersionString(comps)[0];
    NotBlank(s, 0);
    SplitNulPadded(comps, k);
    forall i | 0 <= i < |parts| && i < 4 ensures ParseComponent(parts[i]) == comps[i] {
      ParseNulPadded(comps, k, i);
    }
    ParseSplitParts(s, parts, comps);
  }

  /** A text that is not blank and splits into parts whose first four read as `comps`
      parses to those four. */
  lemma ParseSplitParts(s: string, parts: seq<string>, comps: seq<nat>)
    requires !IsNullOrWhiteSpace(Some(s)) && SplitNonEmpty(s, '.') == parts
    requires |parts| == |comps| && 1 <= |comps| && comps[0] > 0
    requires forall i :: 0 <= i < |parts| && i < 4 ==> ParseComponent(parts[i]) == comps[i]
    ensures ParseVersion(Some(s))
         == Ok(Version(ComponentAt(comps, 0), ComponentAt(comps, 1), ComponentAt(comps, 2), ComponentAt(comps, 3)))
  {
    var ps := ParseComponents(parts);
    assert forall i :: 0 <= i < 4 ==> ComponentAt(ps, i) == ComponentAt(comps, i);
  }

  /** A probe answer of "21.3" followed by a NUL is version 21.3.0.0. */
  lemma TrailingNulVersion()
    ensures ParseVersion(Some("21.3\0")) == Ok(Version(21, 3, 0, 0))
  {
    VersionTrailingNuls([21, 3], 1);
    Spelling21_3();
    assert "21.3" + Nuls(1) == "21.3\0";
  }

  /** A NUL followed by white space is not accepted: the NULs must come last. */
  lemma NulThenSpaceRejected()
    ensures TryParseInt32("3\0 ") == None
  {
    DecimalExamples();
    NulBeforeMoreRejected(3, " ");
    assert DecimalString(3) + "\0" + " " == "3\0 ";
  }
}
