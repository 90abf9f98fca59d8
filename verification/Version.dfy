/** Versions of an update: their order, their text, and how both relate to Semantic
    Versioning 2.0.0. */
module Version {
  import opened Types

  datatype PreRelease = Alpha(ident: byte) | Beta(ident: byte)

  datatype Version = Version(major: byte, minor: byte, patch: byte, pre: Option<PreRelease>)

  // ---------------------------------------------------------------- order

  datatype Ordering = Less | Equal | Greater {
    function Then(next: Ordering): Ordering {
      if this == Equal then next else this
    }
  }

  function CompareInt(a: int, b: int): Ordering {
    if a < b then Less else if a == b then Equal else Greater
  }

  function ComparePre(a: PreRelease, b: PreRelease): Ordering {
    match (a, b)
    case (Alpha(i), Alpha(j)) => CompareInt(i, j)
    case (Alpha(_), Beta(_)) => Less
    case (Beta(_), Alpha(_)) => Greater
    case (Beta(i), Beta(j)) => CompareInt(i, j)
  }

  function Compare(a: Version, b: Version): Ordering {
    CompareInt(a.major, b.major)
    .Then(CompareInt(a.minor, b.minor))
    .Then(CompareInt(a.patch, b.patch))
    .Then(match (a.pre, b.pre)
          case (None, None) => Equal
          case (None, Some(_)) => Greater
          case (Some(_), None) => Less
          case (Some(p), Some(q)) => ComparePre(p, q))
  }

  /** A number for each version: the order of versions is the order of these numbers. */
  function Rank(v: Version): nat {
    var pre := match v.pre { case None => 512 case Some(Alpha(i)) => i case Some(Beta(i)) => 256 + i };
    ((v.major * 256 + v.minor) * 256 + v.patch) * 1024 + pre
  }

  /** Comparison is a total order, and only equal versions compare equal. */
  lemma CompareIsTotalOrder(a: Version, b: Version)
    ensures Compare(a, b) == CompareInt(Rank(a), Rank(b))
    ensures Compare(a, b) == Equal <==> a == b
  {
  }

  /** The identifiers of a pre-release as section 11 of Semantic Versioning sees them. */
  datatype Identifier = Numeric(n: nat) | Alphanumeric(text: string)

  function CompareText(a: string, b: string): Ordering {
    if a == "" || b == "" then CompareInt(|a|, |b|)
    else CompareInt(a[0] as int, b[0] as int).Then(CompareText(a[1..], b[1..]))
  }

  function CompareIdentifier(a: Identifier, b: Identifier): Ordering {
    match (a, b)
    case (Numeric(i), Numeric(j)) => CompareInt(i, j)
    case (Numeric(_), Alphanumeric(_)) => Less
    case (Alphanumeric(_), Numeric(_)) => Greater
    case (Alphanumeric(s), Alphanumeric(t)) => CompareText(s, t)
  }

  function CompareIdentifiers(a: seq<Identifier>, b: seq<Identifier>): Ordering {
    if a == [] || b == [] then CompareInt(|a|, |b|)
    else CompareIdentifier(a[0], b[0]).Then(CompareIdentifiers(a[1..], b[1..]))
  }

  function Identifiers(p: PreRelease): seq<Identifier> {
    match p
    case Alpha(i) => [Alphanumeric("alpha"), Numeric(i)]
    case Beta(i) => [Alphanumeric("beta"), Numeric(i)]
  }

  /** Precedence in the words of section 11: numeric fields left to right, then a release
      above its pre-releases, then pre-releases identifier by identifier. */
  function Precedence(a: Version, b: Version): Ordering {
    if a.major != b.major then CompareInt(a.major, b.major)
    else if a.minor != b.minor then CompareInt(a.minor, b.minor)
    else if a.patch != b.patch then CompareInt(a.patch, b.patch)
    else if a.pre.None? || b.pre.None? then
      CompareInt(if a.pre.None? then 1 else 0, if b.pre.None? then 1 else 0)
    else CompareIdentifiers(Identifiers(a.pre.value), Identifiers(b.pre.value))
  }

  lemma CompareIsPrecedence(a: Version, b: Version)
    ensures Compare(a, b) == Precedence(a, b)
  {
    assert 'a' as int < 'b' as int;
    TextIsEqualToItself("alpha");
    TextIsEqualToItself("beta");
    if a.pre.Some? && b.pre.Some? {
      var p, q := Identifiers(a.pre.value), Identifiers(b.pre.value);
      assert p[1..] == [Numeric(a.pre.value.ident)] && q[1..] == [Numeric(b.pre.value.ident)];
      assert CompareIdentifiers(p[1..], q[1..]) == CompareInt(a.pre.value.ident, b.pre.value.ident);
    }
  }

  lemma {:induction false} TextIsEqualToItself(s: string)
    ensures CompareText(s, s) == Equal
  {
    if s != "" {
      TextIsEqualToItself(s[1..]);
    }
  }

  // ---------------------------------------------------------------- text

  function Digit(n: nat): char
    requires n < 10
  {
    "0123456789"[n]
  }

  function Digits(n: nat): string {
    if n < 10 then [Digit(n)] else Digits(n / 10) + [Digit(n % 10)]
  }

  function Print(v: Version): string {
    Digits(v.major) + "." + (Digits(v.minor) + "." + (Digits(v.patch) + PrintPre(v.pre)))
  }

  function PrintPre(pre: Option<PreRelease>): string {
    match pre
    case None => ""
    case Some(Alpha(i)) => "-alpha." + Digits(i)
    case Some(Beta(i)) => "-beta." + Digits(i)
  }

  function SplitOnce(s: string, pattern: string): Option<(string, string)>
    requires pattern != ""
  {
    if pattern <= s then Some(("", s[|pattern|..]))
    else if s == "" then None
    else
      var split := SplitOnce(s[1..], pattern);
      if split.None? then None else Some(([s[0]] + split.value.0, split.value.1))
  }

  function ParseDigits(s: string): Option<nat> {
    if s == "" then Some(0)
    else if !('0' <= s[|s| - 1] <= '9') then None
    else
      var high := ParseDigits(s[..|s| - 1]);
      if high.None? then None else Some(high.value * 10 + (s[|s| - 1] as int - '0' as int))
  }

  /** An unsigned byte in decimal: one plus sign may stand before at least one digit. */
  function ParseByte(s: string): Option<byte> {
    var digits := if |s| > 1 && s[0] == '+' then s[1..] else s;
    if digits == "" then None
    else
      var n := ParseDigits(digits);
      if n.Some? && n.value < 0x100 then Some(n.value) else None
  }

  function ParsePre(s: string): Option<Option<PreRelease>> {
    var alpha, beta := SplitOnce(s, "alpha."), SplitOnce(s, "beta.");
    if alpha.Some? then
      var ident := ParseByte(alpha.value.1);
      if ident.None? then None else Some(Some(Alpha(ident.value)))
    else if beta.Some? then
      var ident := ParseByte(beta.value.1);
      if ident.None? then None else Some(Some(Beta(ident.value)))
    else Some(None)
  }

  /** The text behind the second dot: a patch number, a pre-release and build metadata. */
  function ParsePatch(s: string): Option<(byte, Option<PreRelease>)> {
    var plus := SplitOnce(s, "+");
    ParseCore(if plus.Some? then plus.value.0 else s)
  }

  function ParseCore(core: string): Option<(byte, Option<PreRelease>)> {
    var dash := SplitOnce(core, "-");
    var patch := ParseByte(if dash.Some? then dash.value.0 else core);
    if patch.None? then None
    else
      var pre := ParsePre(if dash.Some? then dash.value.1 else "");
      if pre.None? then None else Some((patch.value, pre.value))
  }

  function Parse(s: string): Option<Version> {
    var dot := SplitOnce(s, ".");
    if dot.None? then None
    else
      var major := ParseByte(dot.value.0);
      if major.None? then None
      else
        var dot' := SplitOnce(dot.value.1, ".");
        if dot'.None? then None
        else
          var minor := ParseByte(dot'.value.0);
          if minor.None? then None
          else
            var rest := ParsePatch(dot'.value.1);
            if rest.None? then None
            else Some(Version(major.value, minor.value, rest.value.0, rest.value.1))
  }

  lemma {:induction false} DigitsAreDigits(n: nat)
    ensures |Digits(n)| >= 1 && forall i :: 0 <= i < |Digits(n)| ==> '0' <= Digits(n)[i] <= '9'
  {
    if n >= 10 {
      DigitsAreDigits(n / 10);
    }
  }

  // ---------------------------------------------------------------- what numerals mean

  function Pow10(k: nat): (power: nat)
    ensures power >= 1
  {
    if k == 0 then 1 else 10 * Pow10(k - 1)
  }

  function DigitValue(c: char): int {
    c as int - '0' as int
  }

  lemma {:induction false} NoLeadingZero(n: nat)
    ensures |Digits(n)| >= 1 && (Digits(n)[0] == '0' ==> n == 0)
  {
    if n >= 10 {
      NoLeadingZero(n / 10);
    }
  }

  lemma {:induction false} DigitByPlace(n: nat, k: nat)
    requires k < |Digits(n)|
    ensures DigitValue(Digits(n)[|Digits(n)| - 1 - k]) == n / Pow10(k) % 10
  {
    if k > 0 {
      DigitByPlace(n / 10, k - 1);
      DividedTwice(n, 10, Pow10(k - 1));
    }
  }

  /** Printed numbers are decimal: the characters count up from '0', the highest digit comes first,
      and it is not zero unless it is the only one. */
  lemma DigitsArePositional(n: nat, i: nat)
    requires i < |Digits(n)|
    ensures Digits(n)[i] as int - '0' as int == n / Pow10(|Digits(n)| - 1 - i) % 10
    ensures Digits(n)[0] == '0' ==> n == 0 && |Digits(n)| == 1
  {
    NoLeadingZero(n);
    DigitByPlace(n, |Digits(n)| - 1 - i);
  }

  predicate AllDigits(s: string) {
    forall i :: 0 <= i < |s| ==> '0' <= s[i] <= '9'
  }

  /** The number that a row of digits stands for, each worth a power of ten by its place. */
  function Value(s: string): int {
    if s == "" then 0 else DigitValue(s[0]) * Pow10(|s| - 1) + Value(s[1..])
  }

  lemma {:induction false} ValueWithLast(s: string, c: char)
    ensures Value(s + [c]) == 10 * Value(s) + DigitValue(c)
  {
    if s == "" {
      assert (s + [c])[1..] == "";
    } else {
      ValueWithLast(s[1..], c);
      assert (s + [c])[1..] == s[1..] + [c];
      assert DigitValue(s[0]) * Pow10(|s|) == 10 * (DigitValue(s[0]) * Pow10(|s| - 1));
    }
  }

  lemma {:induction false} ParseDigitsIsValue(s: string)
    ensures ParseDigits(s) == if AllDigits(s) then Some(Value(s)) else None
  {
    if s != "" {
      var high, last := s[..|s| - 1], s[|s| - 1];
      ParseDigitsIsValue(high);
      ValueWithLast(high, last);
      assert s == high + [last];
      assert AllDigits(s) <==> AllDigits(high) && '0' <= last <= '9';
    }
  }

  /** At least one digit, nothing but digits, and the number they stand for. */
  predicate IsDecimal(s: string, n: int) {
    s != "" && AllDigits(s) && Value(s) == n
  }

  /** A decimal number, after a plus sign or not. */
  predicate IsNumeral(s: string, n: int) {
    IsDecimal(s, n) || (s != "" && s[0] == '+' && IsDecimal(s[1..], n))
  }

  /** A byte is read from exactly the numerals of numbers below 256, and is that number. */
  lemma ParseByteExactlyWhen(s: string, n: int)
    ensures (ParseByte(s).Some? && ParseByte(s).value == n) <==> IsNumeral(s, n) && 0 <= n < 0x100
  {
    ParseDigitsIsValue(s);
    if s != "" {
      ParseDigitsIsValue(s[1..]);
    }
  }

  lemma {:induction false} DigitsParse(n: nat)
    ensures ParseDigits(Digits(n)) == Some(n)
  {
    var s := Digits(n);
    if n >= 10 {
      DigitsParse(n / 10);
      assert s[..|s| - 1] == Digits(n / 10);
    } else {
      assert s[..0] == "";
    }
  }

  lemma ByteParses(n: byte)
    ensures ParseByte(Digits(n)) == Some(n)
  {
    DigitsAreDigits(n);
    DigitsParse(n);
  }

  /** The split is at the first occurrence. */
  lemma {:induction false} SplitAtFirst(s: string, c: char, rest: string)
    requires c !in s
    ensures SplitOnce(s + [c] + rest, [c]) == Some((s, rest))
  {
    var whole := s + [c] + rest;
    if s == "" {
      assert whole == [c] + rest;
    } else {
      assert whole[0] == s[0] && whole[0] in s;
      assert whole[1..] == s[1..] + [c] + rest;
      SplitAtFirst(s[1..], c, rest);
      assert [s[0]] + s[1..] == s;
    }
  }

  /** A text that lacks one of the pattern's characters cannot be split by it. */
  lemma {:induction false} NoSplit(s: string, pattern: string, c: char)
    requires c in pattern && c !in s
    ensures SplitOnce(s, pattern) == None
  {
    if s != "" {
      NoSplit(s[1..], pattern, c);
    }
  }

  lemma PreParses(pre: Option<PreRelease>)
    requires pre.Some?
    ensures ParsePre(PrintPre(pre)[1..]) == Some(pre)
  {
    var digits := Digits(pre.value.ident);
    DigitsAreDigits(pre.value.ident);
    ByteParses(pre.value.ident);
    var s := PrintPre(pre)[1..];
    if pre.value.Alpha? {
      assert s == "alpha." + digits;
      assert s[6..] == digits;
    } else {
      assert s == "beta." + digits;
      NoSplit(s, "alpha.", 'l');
      assert s[5..] == digits;
    }
  }

  /** Section 10 of Semantic Versioning: build metadata is a plus sign and what follows. */
  predicate IsBuildMetadata(s: string) {
    s == "" || s[0] == '+'
  }

  lemma NoPreParses()
    ensures ParsePre("") == Some(None)
  {
    NoSplit("", "alpha.", 'l');
    NoSplit("", "beta.", 'b');
  }

  /** A patch number alone, or one with a dash and anything a pre-release is read from. */
  lemma CoreSplits(patch: byte, name: string)
    ensures SplitOnce(Digits(patch), "-") == None
    ensures SplitOnce(Digits(patch) + ("-" + name), "-") == Some((Digits(patch), name))
  {
    assert Digits(patch) + ("-" + name) == Digits(patch) + ['-'] + name;
    DigitsAreDigits(patch);
    NoSplit(Digits(patch), "-", '-');
    SplitAtFirst(Digits(patch), '-', name);
  }

  lemma CoreParses(patch: byte, pre: Option<PreRelease>)
    ensures ParseCore(Digits(patch) + PrintPre(pre)) == Some((patch, pre))
  {
    ByteParses(patch);
    if pre.None? {
      CoreSplits(patch, "");
      NoPreParses();
      assert Digits(patch) + PrintPre(pre) == Digits(patch);
    } else {
      var name := PrintPre(pre)[1..];
      assert PrintPre(pre) == "-" + name;
      CoreSplits(patch, name);
      PreParses(pre);
    }
  }

  lemma CoreHasNoPlus(patch: byte, pre: Option<PreRelease>)
    ensures '+' !in Digits(patch) + PrintPre(pre)
  {
    DigitsAreDigits(patch);
    if pre.Some? {
      DigitsAreDigits(pre.value.ident);
    }
  }

  /** Build metadata is dropped before the patch number and the pre-release are read. */
  lemma BuildIsDropped(core: string, build: string)
    requires '+' !in core && IsBuildMetadata(build)
    ensures ParsePatch(core + build) == ParseCore(core)
  {
    if build == "" {
      assert core + build == core;
      NoSplit(core, "+", '+');
    } else {
      assert core + build == core + ['+'] + build[1..];
      SplitAtFirst(core, '+', build[1..]);
    }
  }

  /** A version text: two numbers and whatever stands behind the second dot. */
  function Dotted(major: byte, minor: byte, rest: string): string {
    Digits(major) + "." + (Digits(minor) + "." + rest)
  }

  lemma DottedParses(major: byte, minor: byte, rest: string)
    ensures var patch := ParsePatch(rest);
            Parse(Dotted(major, minor, rest)) ==
            if patch.None? then None else Some(Version(major, minor, patch.value.0, patch.value.1))
  {
    DigitsAreDigits(major);
    DigitsAreDigits(minor);
    ByteParses(major);
    ByteParses(minor);
    SplitAtFirst(Digits(major), '.', Digits(minor) + "." + rest);
    SplitAtFirst(Digits(minor), '.', rest);
  }

  /** Parsing a printed version gives it back, whatever build metadata is appended. */
  lemma ParseAfterPrint(v: Version, build: string)
    requires IsBuildMetadata(build)
    ensures Parse(Print(v) + build) == Some(v)
  {
    var core := Digits(v.patch) + PrintPre(v.pre);
    assert Print(v) + build == Dotted(v.major, v.minor, core + build);
    DottedParses(v.major, v.minor, core + build);
    CoreHasNoPlus(v.patch, v.pre);
    BuildIsDropped(core, build);
    CoreParses(v.patch, v.pre);
  }

  lemma PrintIsInjective(a: Version, b: Version)
    requires Print(a) == Print(b)
    ensures a == b
  {
    ParseAfterPrint(a, "");
    ParseAfterPrint(b, "");
    assert Print(a) + "" == Print(a) && Print(b) + "" == Print(b);
  }

  /** The three forms a version is displayed in. */
  lemma DisplayedVersions()
    ensures Print(Version(1, 2, 3, None)) == "1.2.3"
    ensures Print(Version(1, 2, 3, Some(Alpha(4)))) == "1.2.3-alpha.4"
    ensures Print(Version(1, 2, 3, Some(Beta(4)))) == "1.2.3-beta.4"
  {
  }

  // ---------------------------------------------------------------- other pre-releases

  ghost predicate Occurs(pattern: string, s: string) {
    exists i :: 0 <= i <= |s| && pattern <= s[i..]
  }

  /** A text is split by a pattern exactly when the pattern occurs in it. */
  lemma {:induction false} SplitsExactlyWhenOccurs(s: string, pattern: string)
    requires pattern != ""
    ensures SplitOnce(s, pattern).Some? <==> Occurs(pattern, s)
  {
    if pattern <= s {
      assert pattern <= s[0..];
    } else if s != "" {
      SplitsExactlyWhenOccurs(s[1..], pattern);
      if Occurs(pattern, s[1..]) {
        var i :| 0 <= i <= |s[1..]| && pattern <= s[1..][i..];
        assert s[1..][i..] == s[i + 1..];
      }
      if Occurs(pattern, s) {
        var i :| 0 <= i <= |s| && pattern <= s[i..];
        assert s[0..] == s;
        assert s[i..] == s[1..][i - 1..];
      }
    }
  }

  /** A pre-release is read as the release itself, which Semantic Versioning ranks above it, exactly
      when neither "alpha." nor "beta." occurs anywhere in its name. */
  lemma PreReleaseReadAsReleaseExactlyWhen(major: byte, minor: byte, patch: byte, name: string, build: string)
    requires '+' !in name && IsBuildMetadata(build)
    ensures var text := Dotted(major, minor, Digits(patch) + ("-" + name) + build);
            Parse(text) == Some(Version(major, minor, patch, None)) <==>
            !Occurs("alpha.", name) && !Occurs("beta.", name)
  {
    var core := Digits(patch) + ("-" + name);
    DottedParses(major, minor, core + build);
    DigitsAreDigits(patch);
    BuildIsDropped(core, build);
    CoreSplits(patch, name);
    ByteParses(patch);
    SplitsExactlyWhenOccurs(name, "alpha.");
    SplitsExactlyWhenOccurs(name, "beta.");
  }

  /** So a plain alpha, without a number, is taken for the release it precedes. */
  lemma PlainAlphaReadAsRelease(major: byte, minor: byte, patch: byte)
    ensures Parse(Dotted(major, minor, Digits(patch) + "-alpha")) == Some(Version(major, minor, patch, None))
  {
    assert !Occurs("alpha.", "alpha") && !Occurs("beta.", "alpha") by {
      NoSplit("alpha", "alpha.", '.');
      NoSplit("alpha", "beta.", '.');
      SplitsExactlyWhenOccurs("alpha", "alpha.");
      SplitsExactlyWhenOccurs("alpha", "beta.");
    }
    PreReleaseReadAsReleaseExactlyWhen(major, minor, patch, "alpha", "");
    assert Digits(patch) + ("-" + "alpha") + "" == Digits(patch) + "-alpha";
  }

  // ---------------------------------------------------------------- which texts are versions

  /** A text cut in two at the first occurrence of a pattern. */
  ghost predicate FirstSplit(s: string, pattern: string, left: string, right: string) {
    s == left + pattern + right && forall i :: 0 <= i < |left| ==> !(pattern <= s[i..])
  }

  lemma {:induction false} SplitExactlyWhen(s: string, pattern: string, left: string, right: string)
    requires pattern != ""
    ensures SplitOnce(s, pattern) == Some((left, right)) <==> FirstSplit(s, pattern, left, right)
  {
    if pattern <= s {
      assert s[0..] == s == "" + pattern + s[|pattern|..];
      assert FirstSplit(s, pattern, left, right) ==> left == "" && right == s[|pattern|..];
    } else if s != "" {
      FirstSplitOfTail(s, pattern, left, right);
      if left != "" {
        SplitExactlyWhen(s[1..], pattern, left[1..], right);
        assert left == [left[0]] + left[1..];
      }
    }
  }

  lemma FirstSplitOfTail(s: string, pattern: string, left: string, right: string)
    requires s != "" && !(pattern <= s)
    ensures FirstSplit(s, pattern, left, right) <==>
            left != "" && left[0] == s[0] && FirstSplit(s[1..], pattern, left[1..], right)
  {
    assert s[0..] == s && forall i :: 1 <= i < |s| ==> s[i..] == s[1..][i - 1..];
    if left == "" {
      assert left + pattern + right == pattern + right;
    } else {
      assert s == left + pattern + right <==> left[0] == s[0] && s[1..] == left[1..] + pattern + right;
    }
  }

  /** Splitting succeeds exactly where the pattern occurs, and is the only split at its first place. */
  lemma SplitIsFirst(s: string, pattern: string)
    requires pattern != ""
    ensures SplitOnce(s, pattern).Some? <==> Occurs(pattern, s)
    ensures forall left, right :: FirstSplit(s, pattern, left, right) <==> SplitOnce(s, pattern) == Some((left, right))
  {
    SplitsExactlyWhenOccurs(s, pattern);
    forall left, right
      ensures FirstSplit(s, pattern, left, right) <==> SplitOnce(s, pattern) == Some((left, right))
    {
      SplitExactlyWhen(s, pattern, left, right);
    }
  }

  /** Behind the first occurrence of a word stands the numeral of a number. */
  ghost predicate NumberBehind(s: string, word: string, n: byte) {
    exists left, right :: FirstSplit(s, word, left, right) && IsNumeral(right, n)
  }

  /** A name is a numbered alpha if "alpha." occurs in it, else a numbered beta if "beta." does, and
      any other name is no pre-release. */
  ghost predicate NameReads(name: string, pre: Option<PreRelease>) {
    if Occurs("alpha.", name) then pre.Some? && pre.value.Alpha? && NumberBehind(name, "alpha.", pre.value.ident)
    else if Occurs("beta.", name) then pre.Some? && pre.value.Beta? && NumberBehind(name, "beta.", pre.value.ident)
    else pre == None
  }

  /** A patch number, then a name behind the first dash if there is one. */
  ghost predicate CoreReads(core: string, patch: byte, pre: Option<PreRelease>) {
    if Occurs("-", core) then
      exists number, name :: FirstSplit(core, "-", number, name) && IsNumeral(number, patch) && NameReads(name, pre)
    else IsNumeral(core, patch) && pre == None
  }

  /** What stands before the first plus sign counts. */
  ghost predicate PatchReads(s: string, patch: byte, pre: Option<PreRelease>) {
    if Occurs("+", s) then exists core, build :: FirstSplit(s, "+", core, build) && CoreReads(core, patch, pre)
    else CoreReads(s, patch, pre)
  }

  /** A version text: two numerals up to the first two dots, and the rest. */
  ghost predicate Reads(s: string, v: Version) {
    exists major, tail :: FirstSplit(s, ".", major, tail) && IsNumeral(major, v.major) && MinorReads(tail, v)
  }

  ghost predicate MinorReads(s: string, v: Version) {
    exists minor, rest ::
      FirstSplit(s, ".", minor, rest) && IsNumeral(minor, v.minor) && PatchReads(rest, v.patch, v.pre)
  }

  lemma NumberBehindExactlyWhen(s: string, word: string, n: byte)
    requires word != ""
    ensures var split := SplitOnce(s, word);
            NumberBehind(s, word, n) <==> split.Some? && ParseByte(split.value.1) == Some(n)
  {
    SplitIsFirst(s, word);
    var split := SplitOnce(s, word);
    if split.Some? {
      assert FirstSplit(s, word, split.value.0, split.value.1);
      ParseByteExactlyWhen(split.value.1, n);
    }
  }

  lemma ParsePreExactlyWhen(name: string, pre: Option<PreRelease>)
    ensures ParsePre(name) == Some(pre) <==> NameReads(name, pre)
  {
    SplitIsFirst(name, "alpha.");
    SplitIsFirst(name, "beta.");
    if pre.Some? {
      NumberBehindExactlyWhen(name, "alpha.", pre.value.ident);
      NumberBehindExactlyWhen(name, "beta.", pre.value.ident);
    }
  }

  lemma ParseCoreExactlyWhen(core: string, patch: byte, pre: Option<PreRelease>)
    ensures ParseCore(core) == Some((patch, pre)) <==> CoreReads(core, patch, pre)
  {
    SplitIsFirst(core, "-");
    var dash := SplitOnce(core, "-");
    if dash.Some? {
      assert FirstSplit(core, "-", dash.value.0, dash.value.1);
      ParseByteExactlyWhen(dash.value.0, patch);
      ParsePreExactlyWhen(dash.value.1, pre);
    } else {
      ParseByteExactlyWhen(core, patch);
      NoPreParses();
    }
  }

  lemma ParsePatchExactlyWhen(s: string, patch: byte, pre: Option<PreRelease>)
    ensures ParsePatch(s) == Some((patch, pre)) <==> PatchReads(s, patch, pre)
  {
    SplitIsFirst(s, "+");
    var plus := SplitOnce(s, "+");
    if plus.Some? {
      assert FirstSplit(s, "+", plus.value.0, plus.value.1);
    }
    ParseCoreExactlyWhen(if plus.Some? then plus.value.0 else s, patch, pre);
  }

  /** Exactly the version texts are read, each as the version it stands for; all others are refused. */
  lemma ParseExactlyWhen(s: string, v: Version)
    ensures Parse(s) == Some(v) <==> Reads(s, v)
  {
    SplitIsFirst(s, ".");
    var dot := SplitOnce(s, ".");
    if dot.Some? {
      assert FirstSplit(s, ".", dot.value.0, dot.value.1);
      ParseByteExactlyWhen(dot.value.0, v.major);
      SplitIsFirst(dot.value.1, ".");
      var dot' := SplitOnce(dot.value.1, ".");
      if dot'.Some? {
        assert FirstSplit(dot.value.1, ".", dot'.value.0, dot'.value.1);
        ParseByteExactlyWhen(dot'.value.0, v.minor);
        ParsePatchExactlyWhen(dot'.value.1, v.patch, v.pre);
      }
    }
  }

  lemma {:induction false} ValueIsNatural(s: string)
    requires AllDigits(s)
    ensures Value(s) >= 0
  {
    if s != "" {
      ValueIsNatural(s[1..]);
      assert DigitValue(s[0]) * Pow10(|s| - 1) >= 0;
    }
  }

  lemma {:induction false} DigitsAreShortest(s: string)
    requires s != "" && AllDigits(s)
    ensures Value(s) >= 0 && |Digits(Value(s))| <= |s|
  {
    var high, last := s[..|s| - 1], s[|s| - 1];
    ValueIsNatural(s);
    ValueWithLast(high, last);
    assert s == high + [last];
    if Value(s) >= 10 {
      assert Value(s) / 10 == Value(high);
      DigitsAreShortest(high);
    }
  }

  lemma NumeralsAreNoShorter(s: string, n: byte)
    requires IsNumeral(s, n)
    ensures |Digits(n)| <= |s|
  {
    if IsDecimal(s, n) {
      DigitsAreShortest(s);
    } else {
      DigitsAreShortest(s[1..]);
    }
  }

  lemma NamesAreNoShorter(name: string, pre: Option<PreRelease>)
    requires NameReads(name, pre)
    ensures |PrintPre(pre)| <= 1 + |name|
  {
    if pre.Some? {
      var word := if pre.value.Alpha? then "alpha." else "beta.";
      var left, right :| FirstSplit(name, word, left, right) && IsNumeral(right, pre.value.ident);
      NumeralsAreNoShorter(right, pre.value.ident);
    }
  }

  lemma CoresAreNoShorter(core: string, patch: byte, pre: Option<PreRelease>)
    requires CoreReads(core, patch, pre)
    ensures |Digits(patch)| + |PrintPre(pre)| <= |core|
  {
    if Occurs("-", core) {
      var number, name :| FirstSplit(core, "-", number, name) && IsNumeral(number, patch) && NameReads(name, pre);
      NumeralsAreNoShorter(number, patch);
      NamesAreNoShorter(name, pre);
    } else {
      NumeralsAreNoShorter(core, patch);
    }
  }

  lemma PatchesAreNoShorter(s: string, patch: byte, pre: Option<PreRelease>)
    requires PatchReads(s, patch, pre)
    ensures |Digits(patch)| + |PrintPre(pre)| <= |s|
  {
    if Occurs("+", s) {
      var core, build :| FirstSplit(s, "+", core, build) && CoreReads(core, patch, pre);
      CoresAreNoShorter(core, patch, pre);
    } else {
      CoresAreNoShorter(s, patch, pre);
    }
  }

  /** A version is displayed by a text that reads as that version, and no shorter one does. */
  lemma PrintIsShortest(v: Version, s: string)
    ensures Reads(Print(v), v)
    ensures Reads(s, v) ==> |Print(v)| <= |s|
  {
    ParseAfterPrint(v, "");
    assert Print(v) + "" == Print(v);
    ParseExactlyWhen(Print(v), v);
    if Reads(s, v) {
      var major, tail :| FirstSplit(s, ".", major, tail) && IsNumeral(major, v.major) && MinorReads(tail, v);
      var minor, rest :|
        FirstSplit(tail, ".", minor, rest) && IsNumeral(minor, v.minor) && PatchReads(rest, v.patch, v.pre);
      NumeralsAreNoShorter(major, v.major);
      NumeralsAreNoShorter(minor, v.minor);
      PatchesAreNoShorter(rest, v.patch, v.pre);
    }
  }
}
