/** The package records of src/bower/PackageFactory.js: a name with its
    current and latest version, the test for an available update, and the
    construction of packages from the keyed listing Bower reports. The
    JavaScript `split(".")` and `parseInt(s, 0)` the update test relies on are
    modelled here as well. */
module PackageFactory {

  import opened Outcomes

  /** `Package`: the constructor stores the three values and the getters
      `name`, `version` and `latestVersion` return them unchanged. */
  datatype Package = Package(name: string, version: string, latestVersion: string)

  // ---------------------------------------------------------------------------
  // String.prototype.split with a one-character separator

  /** The number of times `c` occurs in `s`. */
  function Occurrences(s: string, c: char): nat
  {
    if s == [] then 0 else (if s[0] == c then 1 else 0) + Occurrences(s[1..], c)
  }

  /** `s.split(sep)`: the pieces between separators, from left to right; the
      empty string gives one empty piece. */
  function Split(s: string, sep: char): (r: seq<string>)
    ensures |r| == Occurrences(s, sep) + 1
    decreases |s|
  {
    if s == [] then [""]
    else
      var rest := Split(s[1..], sep);
      if s[0] == sep then [""] + rest else [[s[0]] + rest[0]] + rest[1..]
  }

  /** `parts.join(sep)`. */
  function Join(parts: seq<string>, sep: char): string
    requires |parts| >= 1
    decreases |parts|
  {
    if |parts| == 1 then parts[0] else parts[0] + [sep] + Join(parts[1..], sep)
  }

  /** Joining the pieces again gives the string back. */
  lemma {:induction false} SplitJoin(s: string, sep: char)
    ensures Join(Split(s, sep), sep) == s
    decreases |s|
  {
    if s != [] {
      SplitJoin(s[1..], sep);
      var rest := Split(s[1..], sep);
      if s[0] == sep {
        assert Split(s, sep)[1..] == rest;
      } else {
        var r := Split(s, sep);
        if |rest| == 1 {
          assert r == [[s[0]] + rest[0]];
        } else {
          assert r[1..] == rest[1..];
          assert Join(rest, sep) == rest[0] + [sep] + Join(rest[1..], sep);
          assert Join(r, sep) == [s[0]] + rest[0] + [sep] + Join(rest[1..], sep);
        }
      }
    }
  }

  /** No piece holds the separator. */
  lemma {:induction false} SplitPiecesFree(s: string, sep: char)
    ensures forall i :: 0 <= i < |Split(s, sep)| ==> sep !in Split(s, sep)[i]
    decreases |s|
  {
    if s != [] {
      SplitPiecesFree(s[1..], sep);
      var rest, r := Split(s[1..], sep), Split(s, sep);
      forall i | 0 <= i < |r| ensures sep !in r[i] {
        if s[0] == sep {
          if i > 0 {
            assert r[i] == rest[i - 1];
          }
        } else if i > 0 {
          assert r[i] == rest[i];
        }
      }
    }
  }

  /** One character in front of the rest: a separator starts a new piece,
      anything else joins the first piece. */
  lemma SplitCons(c: char, t: string, sep: char)
    ensures Split([c] + t, sep) ==
              if c == sep then [""] + Split(t, sep) else [[c] + Split(t, sep)[0]] + Split(t, sep)[1..]
  {
    assert ([c] + t)[1..] == t;
  }

  /** Splitting at a separator splits each side on its own. */
  lemma {:induction false} SplitAppend(a: string, b: string, sep: char)
    ensures Split(a + [sep] + b, sep) == Split(a, sep) + Split(b, sep)
    decreases |a|
  {
    if a == [] {
      assert a + [sep] + b == [sep] + b;
      SplitCons(sep, b, sep);
    } else {
      SplitAppend(a[1..], b, sep);
      SplitAppendStep(a[0], a[1..], b, sep);
      assert a == [a[0]] + a[1..];
    }
  }

  /** One step of the induction above: one more character in front. */
  lemma SplitAppendStep(c: char, t: string, b: string, sep: char)
    requires Split(t + [sep] + b, sep) == Split(t, sep) + Split(b, sep)
    ensures Split([c] + t + [sep] + b, sep) == Split([c] + t, sep) + Split(b, sep)
  {
    assert [c] + t + [sep] + b == [c] + (t + [sep] + b);
    SplitCons(c, t + [sep] + b, sep);
    SplitCons(c, t, sep);
  }

  /** A string without the separator is a single piece. */
  lemma {:induction false} SplitWithoutSeparator(s: string, sep: char)
    requires sep !in s
    ensures Split(s, sep) == [s]
    decreases |s|
  {
    if s != [] {
      assert sep !in s[1..];
      SplitWithoutSeparator(s[1..], sep);
      assert [s[0]] + s[1..] == s;
    }
  }

  /** Splitting joined pieces that do not hold the separator gives the pieces back. */
  lemma {:induction false} JoinSplit(parts: seq<string>, sep: char)
    requires |parts| >= 1
    requires forall i :: 0 <= i < |parts| ==> sep !in parts[i]
    ensures Split(Join(parts, sep), sep) == parts
    decreases |parts|
  {
    SplitWithoutSeparator(parts[0], sep);
    if |parts| > 1 {
      JoinSplit(parts[1..], sep);
      SplitAppend(parts[0], Join(parts[1..], sep), sep);
      assert [parts[0]] + parts[1..] == parts;
    }
  }

  // ---------------------------------------------------------------------------
  // parseInt(s, 0)

  /** A JavaScript number that is either an integer or NaN. */
  datatype Num = NaN | Int(value: int)

  /** `a > b` on numbers: false whenever either side is NaN. */
  predicate Greater(a: Num, b: Num)
  {
    a.Int? && b.Int? && a.value > b.value
  }

  /** The characters `parseInt` skips at the front: white space and line terminators. */
  predicate IsJsSpace(c: char)
  {
    c == ' ' || c == '\t' || c == '\n' || c == '\r' || c == '\U{000B}' || c == '\U{000C}'
    || c == '\U{00A0}' || c == '\U{FEFF}' || c == '\U{1680}' || ('\U{2000}' <= c <= '\U{200A}')
    || c == '\U{2028}' || c == '\U{2029}' || c == '\U{202F}' || c == '\U{205F}' || c == '\U{3000}'
  }

  function TrimStart(s: string): (r: string)
    ensures |r| <= |s| && r == s[|s| - |r|..]
    ensures r == [] || !IsJsSpace(r[0])
    decreases |s|
  {
    if s != [] && IsJsSpace(s[0]) then TrimStart(s[1..]) else s
  }

  /** The value of `c` as a digit in base `radix` (10 or 16), or -1. */
  function DigitValue(c: char, radix: nat): int
  {
    if '0' <= c <= '9' then (if (c as int) - ('0' as int) < radix then (c as int) - ('0' as int) else -1)
    else if radix == 16 && 'a' <= c <= 'f' then (c as int) - ('a' as int) + 10
    else if radix == 16 && 'A' <= c <= 'F' then (c as int) - ('A' as int) + 10
    else -1
  }

  predicate IsDigit(c: char, radix: nat)
  {
    DigitValue(c, radix) >= 0
  }

  /** The longest prefix of `s` made of digits of the radix. */
  function LeadingDigits(s: string, radix: nat): (r: string)
    ensures |r| <= |s| && r == s[..|r|]
    ensures forall i :: 0 <= i < |r| ==> IsDigit(r[i], radix)
    ensures |r| == |s| || !IsDigit(s[|r|], radix)
    decreases |s|
  {
    if s != [] && IsDigit(s[0], radix) then [s[0]] + LeadingDigits(s[1..], radix) else []
  }

  /** The value of a string of digits, most significant first. */
  function DigitsValue(ds: string, radix: nat): nat
    requires forall i :: 0 <= i < |ds| ==> IsDigit(ds[i], radix)
    decreases |ds|
  {
    if ds == [] then 0
    else
      var last := ds[|ds| - 1];
      assert IsDigit(last, radix);
      DigitsValue(ds[..|ds| - 1], radix) * radix + DigitValue(last, radix)
  }

  /** `parseInt(s, 0)`: leading white space is skipped, then an optional sign;
      a `0x` or `0X` prefix selects base 16, otherwise base 10; the longest run
      of digits that follows is read, and without any digit the result is NaN.
      Its properties are stated by TrimStart and LeadingDigits above and by
      ParseIntNeedsDigit, ParseDecimalDigits, DecimalRoundTrip and UndefinedIsNaN. */
  function ParseInt(s: string): Num
  {
    ParseSigned(TrimStart(s))
  }

  function ParseSigned(t: string): Num
  {
    if t != [] && t[0] == '-' then Negate(ParseUnsigned(t[1..]))
    else if t != [] && t[0] == '+' then ParseUnsigned(t[1..])
    else ParseUnsigned(t)
  }

  function Negate(x: Num): Num
  {
    match x
    case NaN => NaN
    case Int(v) => Int(-v)
  }

  function ParseUnsigned(u: string): Num
  {
    if IsHexPrefixed(u) then ReadDigits(u[2..], 16) else ReadDigits(u, 10)
  }

  /** `u` starts with `0x` or `0X`. */
  predicate IsHexPrefixed(u: string)
  {
    |u| >= 2 && u[0] == '0' && (u[1] == 'x' || u[1] == 'X')
  }

  /** The value of the digits `u` starts with, or NaN when it starts with none. */
  function ReadDigits(u: string, radix: nat): (r: Num)
    requires radix == 10 || radix == 16
    ensures r.Int? ==> u != [] && IsDigit(u[0], 16)
  {
    var ds := LeadingDigits(u, radix);
    if ds == [] then NaN else Int(DigitsValue(ds, radix))
  }

  /** `parseInt` gives a number only when the text holds a digit: a string
      without one, such as "undefined" or "", gives NaN. The digit is the
      first character after the white space, the sign and the `0x` prefix. */
  lemma ParseIntNeedsDigit(s: string)
    ensures ParseInt(s).Int? ==> exists i :: 0 <= i < |s| && IsDigit(s[i], 16)
  {
    var t := TrimStart(s);
    var u, j := t, |s| - |t|;
    if t != [] && (t[0] == '-' || t[0] == '+') {
      u, j := t[1..], j + 1;
    }
    if |u| >= 2 && u[0] == '0' && (u[1] == 'x' || u[1] == 'X') {
      u, j := u[2..], j + 2;
    }
    if ParseInt(s).Int? {
      assert u != [] && u[0] == s[j];
    }
  }

  /** The decimal digits of `n`, as `String(n)` writes them. */
  function DecimalString(n: nat): (r: string)
    ensures |r| >= 1
    ensures forall i :: 0 <= i < |r| ==> IsDigit(r[i], 10)
  {
    var d := ['0' + (n % 10) as char];
    if n < 10 then d else DecimalString(n / 10) + d
  }

  /** The digits read back give the number. */
  lemma {:induction false} DecimalValue(n: nat)
    ensures DigitsValue(DecimalString(n), 10) == n
  {
    var s := DecimalString(n);
    if n >= 10 {
      DecimalValue(n / 10);
      assert s[..|s| - 1] == DecimalString(n / 10);
    }
  }

  /** The digits of a string that starts with them are exactly those digits
      when the next character is not a digit. */
  lemma {:induction false} LeadingDigitsOfPrefix(ds: string, rest: string, radix: nat)
    requires forall i :: 0 <= i < |ds| ==> IsDigit(ds[i], radix)
    requires rest == [] || !IsDigit(rest[0], radix)
    ensures LeadingDigits(ds + rest, radix) == ds
    decreases |ds|
  {
    if ds != [] {
      LeadingDigitsOfPrefix(ds[1..], rest, radix);
      assert (ds + rest)[1..] == ds[1..] + rest;
    }
  }

  /** `parseInt` reads back a written number followed by anything that is not
      a digit, except that `0` followed by `x` or `X` starts a hexadecimal number. */
  lemma DecimalRoundTrip(n: nat, rest: string)
    requires rest == [] || !IsDigit(rest[0], 10)
    requires n == 0 && rest != [] ==> rest[0] != 'x' && rest[0] != 'X'
    ensures ParseInt(DecimalString(n) + rest) == Int(n)
  {
    ParseDecimalDigits(DecimalString(n), rest);
    DecimalValue(n);
  }

  /** `parseInt` reads a run of decimal digits followed by a non-digit, unless
      the run is a lone `0` followed by `x` or `X`; leading zeros do not make
      the run octal. */
  lemma ParseDecimalDigits(ds: string, rest: string)
    requires ds != [] && forall i :: 0 <= i < |ds| ==> IsDigit(ds[i], 10)
    requires rest == [] || !IsDigit(rest[0], 10)
    requires ds == "0" && rest != [] ==> rest[0] != 'x' && rest[0] != 'X'
    ensures ParseInt(ds + rest) == Int(DigitsValue(ds, 10))
  {
    var s := ds + rest;
    assert s[0] == ds[0] && IsDigit(ds[0], 10);
    ParseFromDigit(s);
    DigitsNotHexPrefixed(ds, rest);
    LeadingDigitsOfPrefix(ds, rest, 10);
  }

  /** Decimal digits start no `0x` prefix, unless a lone `0` meets an `x`. */
  lemma DigitsNotHexPrefixed(ds: string, rest: string)
    requires ds != [] && forall i :: 0 <= i < |ds| ==> IsDigit(ds[i], 10)
    requires ds == "0" && rest != [] ==> rest[0] != 'x' && rest[0] != 'X'
    ensures !IsHexPrefixed(ds + rest)
  {
    var s := ds + rest;
    if |s| >= 2 && s[0] == '0' {
      if |ds| == 1 {
        assert ds == "0" by {
          assert ds == [ds[0]] && "0" == ['0'];
        }
        assert s[1] == rest[0];
      } else {
        assert s[1] == ds[1] && IsDigit(ds[1], 10);
        assert '0' <= s[1] <= '9';
      }
    }
  }

  /** A string that starts with a decimal digit has no white space and no
      sign to skip. */
  lemma ParseFromDigit(s: string)
    requires s != [] && '0' <= s[0] <= '9'
    ensures ParseInt(s) == ParseUnsigned(s)
  {
    assert !IsJsSpace(s[0]);
    assert TrimStart(s) == s;
  }

  /** `parseInt(undefined, 0)` reads the string "undefined": NaN. */
  lemma UndefinedIsNaN()
    ensures ParseInt("undefined") == NaN
  {
    assert TrimStart("undefined") == "undefined";
    assert !IsDigit('u', 10);
  }

  // ---------------------------------------------------------------------------
  // hasUpdates

  /** `parseInt(latest[index], 0)`: an index past the end reads `undefined`,
      which `parseInt` turns into NaN (`UndefinedIsNaN`). */
  function ComponentAt(parts: seq<string>, i: nat): Num
  {
    if i < |parts| then ParseInt(parts[i]) else NaN
  }

  /** Some component of `current` has a numerically greater counterpart in
      `latest`, at the same position. */
  predicate SomeComponentGreater(current: seq<string>, latest: seq<string>)
  {
    exists i :: 0 <= i < |current| && Greater(ComponentAt(latest, i), ParseInt(current[i]))
  }

  /** What `hasUpdates` reports, as written: some component of the current
      version has a greater counterpart in the latest version, wherever it
      stands. */
  predicate HasUpdatesSpec(version: string, latestVersion: string): (r: bool)
    ensures version == latestVersion ==> !r
  {
    var current := Split(version, '.');
    assert forall i :: 0 <= i < |current| ==> !Greater(ComponentAt(current, i), ParseInt(current[i]));
    SomeComponentGreater(current, Split(latestVersion, '.'))
  }

  /** The `some` loop of `hasUpdates`: scans the components of the current
      version from the left, keeping the last comparison, and stops at the
      first component whose counterpart in the latest version is greater. */
  method ScanComponents(current: seq<string>, latest: seq<string>) returns (hasLatest: bool)
    ensures hasLatest == SomeComponentGreater(current, latest)
  {
    hasLatest := false;
    var index := 0;
    while index < |current| && !hasLatest
      invariant 0 <= index <= |current|
      invariant !hasLatest ==> forall j :: 0 <= j < index ==> !Greater(ComponentAt(latest, j), ParseInt(current[j]))
      invariant hasLatest ==> SomeComponentGreater(current, latest)
    {
      var numberValue := ParseInt(current[index]);
      var numberLatest := ComponentAt(latest, index);
      hasLatest := Greater(numberLatest, numberValue);
      if hasLatest {
        assert 0 <= index < |current| && Greater(ComponentAt(latest, index), ParseInt(current[index]));
      }
      index := index + 1;
    }
  }

  /** `hasUpdates`: splits both versions at the dots and scans the components. */
  method HasUpdates(p: Package) returns (hasLatest: bool)
    ensures hasLatest == HasUpdatesSpec(p.version, p.latestVersion)
  {
    var current := Split(p.version, '.');
    var latest := Split(p.latestVersion, '.');
    hasLatest := ScanComponents(current, latest);
  }

  /** A latest-version component past the end of the latest version is
      `undefined`, which never counts as greater. */
  lemma MissingComponentNeverCounts(latestVersion: string, i: nat, current: Num)
    requires i >= |Split(latestVersion, '.')|
    ensures !Greater(ComponentAt(Split(latestVersion, '.'), i), current)
  {
    UndefinedIsNaN();
  }

  /** Components of the latest version beyond the length of the current one
      are never looked at. */
  lemma ExtraLatestComponentsIgnored(version: string, latestVersion: string, extra: string)
    requires |Split(version, '.')| <= |Split(latestVersion, '.')|
    ensures HasUpdatesSpec(version, latestVersion + ['.'] + extra) == HasUpdatesSpec(version, latestVersion)
  {
    SplitAppend(latestVersion, extra, '.');
    var current := Split(version, '.');
    var latest := Split(latestVersion, '.');
    var longer := Split(latestVersion + ['.'] + extra, '.');
    assert forall i :: 0 <= i < |current| ==> longer[i] == latest[i];
    assert forall i :: 0 <= i < |current| ==> ComponentAt(longer, i) == ComponentAt(latest, i);
  }

  // ---------------------------------------------------------------------------
  // The comparison as evidently intended

  /** Version comparison from the left: the first component where one side is
      greater decides; components that cannot be compared (NaN) are skipped. */
  function NewerFrom(current: seq<string>, latest: seq<string>, i: nat): bool
    decreases |current| - i
  {
    if i >= |current| then false
    else
      var a, b := ComponentAt(latest, i), ParseInt(current[i]);
      if Greater(a, b) then true
      else if Greater(b, a) then false
      else NewerFrom(current, latest, i + 1)
  }

  /** The latest version is newer than the current one. Every such update is
      one the source's test reports as well. */
  function IsNewer(version: string, latestVersion: string): (r: bool)
    ensures r ==> HasUpdatesSpec(version, latestVersion)
  {
    var current, latest := Split(version, '.'), Split(latestVersion, '.');
    if NewerFrom(current, latest, 0) then
      assert SomeComponentGreater(current, latest) by {
        var j := NewerFromWitness(current, latest, 0);
      }
      true
    else false
  }

  /** Whenever the left-to-right comparison finds the latest version newer,
      it stopped at a component that is greater: `j` is that component. */
  lemma {:induction false} NewerFromWitness(current: seq<string>, latest: seq<string>, i: nat) returns (j: nat)
    requires NewerFrom(current, latest, i)
    ensures i <= j < |current| && Greater(ComponentAt(latest, j), ParseInt(current[j]))
    decreases |current| - i
  {
    if Greater(ComponentAt(latest, i), ParseInt(current[i])) {
      j := i;
    } else {
      j := NewerFromWitness(current, latest, i + 1);
    }
  }

  /** No version is newer than itself. */
  lemma {:induction false} NewerFromIrreflexive(parts: seq<string>, i: nat)
    ensures !NewerFrom(parts, parts, i)
    decreases |parts| - i
  {
    if i < |parts| {
      NewerFromIrreflexive(parts, i + 1);
    }
  }

  lemma IsNewerIrreflexive(version: string)
    ensures !IsNewer(version, version)
  {
    NewerFromIrreflexive(Split(version, '.'), 0);
  }

  /** Of two versions, at most one is newer than the other. */
  lemma {:induction false} NewerFromAsymmetric(x: seq<string>, y: seq<string>, i: nat)
    ensures !(NewerFrom(x, y, i) && NewerFrom(y, x, i))
    decreases |x| + |y| - 2 * i
  {
    UndefinedIsNaN();
    if i < |x| && i < |y| {
      NewerFromAsymmetric(x, y, i + 1);
    } else if i < |x| {
      TailNotNewer(x, y, i);
    } else if i < |y| {
      TailNotNewer(y, x, i);
    }
  }

  /** Past the end of the other version every comparison is against NaN. */
  lemma {:induction false} TailNotNewer(x: seq<string>, y: seq<string>, i: nat)
    requires i >= |y|
    ensures !NewerFrom(x, y, i)
    decreases |x| - i
  {
    UndefinedIsNaN();
    if i < |x| {
      TailNotNewer(x, y, i + 1);
    }
  }

  lemma IsNewerAsymmetric(a: string, b: string)
    ensures !(IsNewer(a, b) && IsNewer(b, a))
  {
    NewerFromAsymmetric(Split(a, '.'), Split(b, '.'), 0);
  }

  /** A downgrade counts as an update as written: current `2.0.0` against
      latest `1.5.0` reports an update, since `5 > 0` in the second component,
      while the left-to-right comparison does not. */
  lemma DowngradeReportedAsUpdate()
    ensures HasUpdatesSpec("2.0.0", "1.5.0")
    ensures !IsNewer("2.0.0", "1.5.0")
  {
    var current, latest := ["2", "0", "0"], ["1", "5", "0"];
    assert Join(current, '.') == "2.0.0";
    assert Join(latest, '.') == "1.5.0";
    JoinSplit(current, '.');
    JoinSplit(latest, '.');
    SingleDigits();
    assert Greater(ComponentAt(latest, 1), ParseInt(current[1]));
    assert Greater(ParseInt(current[0]), ComponentAt(latest, 0));
  }

  /** The digits the example above compares. */
  lemma SingleDigits()
    ensures ParseInt("0") == Int(0) && ParseInt("1") == Int(1)
    ensures ParseInt("2") == Int(2) && ParseInt("5") == Int(5)
  {
    SingleDigitParses('0');
    SingleDigitParses('1');
    SingleDigitParses('2');
    SingleDigitParses('5');
  }

  /** A version component made of one decimal digit reads as that digit. */
  lemma SingleDigitParses(c: char)
    requires '0' <= c <= '9'
    ensures ParseInt([c]) == Int((c as int) - ('0' as int))
  {
    assert TrimStart([c]) == [c];
    assert ParseUnsigned([c]) == ReadDigits([c], 10);
    assert LeadingDigits([c], 10) == [c];
    assert DigitsValue([c], 10) == (c as int) - ('0' as int) by {
      assert [c][..0] == [];
    }
  }

  // ---------------------------------------------------------------------------
  // create

  /** What Bower reports for one package, as far as `create` reads it: the
      `pkgMeta` and `update` objects, each possibly absent. */
  datatype Meta = Meta(version: string)
  datatype Update = Update(latest: string)
  datatype RawEntry = RawEntry(pkgMeta: Option<Meta>, update: Option<Update>)

  /** Every entry carries both objects `create` reads. */
  predicate Complete(data: seq<(string, RawEntry)>)
  {
    forall i :: 0 <= i < |data| ==> data[i].1.pkgMeta.Some? && data[i].1.update.Some?
  }

  /** `create`: one package per key of the listing, in key order, named after
      the key, with the version from `pkgMeta` and the latest version from
      `update`. Reading `version` or `latest` of an absent object throws a
      TypeError, so the whole call fails when any entry lacks one. The listing
      is an object, so its keys are distinct. */
  method Create(data: seq<(string, RawEntry)>) returns (r: Result<seq<Package>>)
    requires forall i, j :: 0 <= i < j < |data| ==> data[i].0 != data[j].0
    ensures r.Success? <==> Complete(data)
    ensures r.Failure? ==> r.error == TypeError
    ensures r.Success? ==> |r.value| == |data|
    ensures r.Success? ==> forall i :: 0 <= i < |data| ==>
              r.value[i] == Package(data[i].0, data[i].1.pkgMeta.value.version, data[i].1.update.value.latest)
    ensures r.Success? ==> forall i, j :: 0 <= i < j < |r.value| ==> r.value[i].name != r.value[j].name
  {
    var pkgs: seq<Package> := [];
    var i := 0;
    while i < |data|
      invariant 0 <= i <= |data|
      invariant Complete(data[..i])
      invariant |pkgs| == i
      invariant forall k :: 0 <= k < i ==>
                  pkgs[k] == Package(data[k].0, data[k].1.pkgMeta.value.version, data[k].1.update.value.latest)
    {
      var (name, entry) := data[i];
      if entry.pkgMeta.None? || entry.update.None? {
        assert !Complete(data);
        return Failure(TypeError);
      }
      pkgs := pkgs + [Package(name, entry.pkgMeta.value.version, entry.update.value.latest)];
      i := i + 1;
    }
    assert data[..i] == data;
    r := Success(pkgs);
  }
}
