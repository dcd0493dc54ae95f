/** Which release a moving alias names, and why aliases never move backwards. */
module Aliases {
  import opened Wrappers
  import opened Text

  datatype Version = Version(major: nat, minor: nat, patch: nat)

  /** A release as the listing yields it. */
  datatype Release = Release(component: string, version: string, prerelease: bool)

  datatype AliasError = UnsupportedVersion | NotCanonical | UnknownCapability | RegistryConflict

  // Versions

  function DigitChar(d: nat): char
    requires d < 10
  {
    '0' + d as char
  }

  function Decimal(n: nat): (text: string)
    ensures text != ""
  {
    if n < 10 then [DigitChar(n)] else Decimal(n / 10) + [DigitChar(n % 10)]
  }

  predicate IsDigit(c: char) {
    '0' <= c <= '9'
  }

  /** A decimal number without leading zeros. */
  predicate IsNumber(text: string) {
    && text != ""
    && (forall i :: 0 <= i < |text| ==> IsDigit(text[i]))
    && (text[0] == '0' ==> |text| == 1)
  }

  function DigitValue(c: char): nat
    requires IsDigit(c)
  {
    c as nat - '0' as nat
  }

  function Value(text: string): nat
    requires forall i :: 0 <= i < |text| ==> IsDigit(text[i])
  {
    if text == "" then 0 else 10 * Value(text[..|text| - 1]) + DigitValue(text[|text| - 1])
  }

  /** Three canonical numbers separated by dots, and nothing else. */
  function ParseStable(text: string): Option<Version> {
    match CutAtDot(text)
    case None => None
    case Some((major, rest)) =>
      match CutAtDot(rest)
      case None => None
      case Some((minor, patch)) =>
        if IsNumber(major) && IsNumber(minor) && IsNumber(patch)
        then Some(Version(Value(major), Value(minor), Value(patch))) else None
  }

  function Print(v: Version): string {
    Decimal(v.major) + "." + Decimal(v.minor) + "." + Decimal(v.patch)
  }

  lemma {:induction false} ValueOfDecimal(n: nat)
    ensures IsNumber(Decimal(n)) && '.' !in Decimal(n) && Value(Decimal(n)) == n
    ensures n > 0 ==> Decimal(n)[0] != '0'
  {
    if n >= 10 {
      ValueOfDecimal(n / 10);
      assert Decimal(n)[..|Decimal(n)| - 1] == Decimal(n / 10);
    } else {
      assert Decimal(n)[..0] == "";
    }
  }

  lemma {:induction false} DecimalOfValue(text: string)
    requires IsNumber(text)
    ensures Decimal(Value(text)) == text
    ensures text[0] != '0' ==> Value(text) > 0
  {
    var n := |text| - 1;
    if n == 0 {
      assert text[..0] == "";
    } else {
      DecimalOfValue(text[..n]);
      assert text == text[..n] + [text[n]];
    }
  }

  /** A text that parses is the printed form of what it parses to. */
  lemma ParsedIsPrinted(text: string)
    requires ParseStable(text).Some?
    ensures text == Print(ParseStable(text).value)
  {
    hide Decimal, Value, IsNumber, CutAtDot;
    var (major, rest) := CutAtDot(text).value;
    var (minor, patch) := CutAtDot(rest).value;
    DecimalOfValue(major);
    DecimalOfValue(minor);
    DecimalOfValue(patch);
    assert text == major + "." + rest && rest == minor + "." + patch;
  }

  /** A printed version parses to that version. */
  lemma PrintedParses(v: Version)
    ensures ParseStable(Print(v)) == Some(v)
  {
    hide Decimal, Value, IsNumber, CutAtDot;
    ValueOfDecimal(v.major);
    ValueOfDecimal(v.minor);
    ValueOfDecimal(v.patch);
    var rest := Decimal(v.minor) + "." + Decimal(v.patch);
    assert Print(v) == Decimal(v.major) + "." + rest;
    CutJoined(Decimal(v.major), rest);
    CutJoined(Decimal(v.minor), Decimal(v.patch));
  }

  /** Stable versions and their texts determine each other. */
  lemma StableTextsAreCanonical(text: string, v: Version)
    ensures ParseStable(text) == Some(v) <==> text == Print(v)
  {
    hide ParseStable, Print;
    PrintedParses(v);
    if ParseStable(text).Some? {
      ParsedIsPrinted(text);
    }
  }

  /** Tuples compare from the left. */
  predicate Newer(a: Version, b: Version) {
    a.major > b.major || (a.major == b.major && (a.minor > b.minor || (a.minor == b.minor && a.patch > b.patch)))
  }

  function Components(v: Version): (components: seq<nat>)
    ensures |components| == 3
  {
    [v.major, v.minor, v.patch]
  }

  /**
    A version is newer exactly if it is greater in the first component in which the two differ; of
    two that differ one is.
   */
  lemma NewerExactly(a: Version, b: Version)
    ensures Newer(a, b) <==> exists i :: FirstGreater(Components(a), Components(b), i)
    ensures a != b <==> Newer(a, b) || Newer(b, a)
  {
    var x, y := Components(a), Components(b);
    if Newer(a, b) {
      assert FirstGreater(x, y, if a.major > b.major then 0 else if a.minor > b.minor then 1 else 2);
    }
    if exists i :: FirstGreater(x, y, i) {
      var i :| FirstGreater(x, y, i);
      assert i == 0 || i == 1 || i == 2;
      assert i > 0 ==> x[0] == y[0];
      assert i > 1 ==> x[1] == y[1];
    }
  }

  ghost predicate FirstGreater(x: seq<nat>, y: seq<nat>, i: int) {
    0 <= i < |x| && i < |y| && x[i] > y[i] && forall j :: 0 <= j < i ==> x[j] == y[j]
  }

  /** The version of a stable release; nothing for a prerelease; an error for a text that is neither. */
  function StableVersion(release: Release): Result<Option<Version>, AliasError> {
    if |release.version| > 128 || '+' in release.version then Err(UnsupportedVersion)
    else if release.prerelease || '-' in release.version then Ok(None)
    else match ParseStable(release.version)
      case None => Err(NotCanonical)
      case Some(v) => Ok(Some(v))
  }

  // Aliases

  function AliasesOf(release: Release, kind: string): Result<seq<string>, AliasError> {
    match StableVersion(release)
    case Err(error) => Err(error)
    case Ok(None) => Ok([])
    case Ok(Some(v)) =>
      if kind == "image" then Ok(["latest", Decimal(v.major), Decimal(v.major) + "." + Decimal(v.minor)])
      else if kind == "package" then
        Ok(["latest", "major-" + Decimal(v.major), "minor-" + Decimal(v.major) + "." + Decimal(v.minor)])
      else Err(UnknownCapability)
  }

  predicate Bears(release: Release, kind: string, name: string) {
    AliasesOf(release, kind).Ok? && name in AliasesOf(release, kind).value
  }

  /** A release of the same component bears the alias with a newer version. */
  predicate Outranks(other: Release, release: Release, v: Version, kind: string, name: string) {
    && other.component == release.component && Bears(other, kind, name)
    && StableVersion(other).value.Some? && Newer(StableVersion(other).value.value, v)
  }

  /** The search for a newer bearer, which stops at the first one and fails on an unreadable release it comes to. */
  function AnyOutranks(history: seq<Release>, release: Release, v: Version, kind: string,
                       name: string): Result<bool, AliasError> {
    if history == [] then Ok(false)
    else
      var other := history[0];
      if other.component != release.component then AnyOutranks(history[1..], release, v, kind, name)
      else match AliasesOf(other, kind)
        case Err(error) => Err(error)
        case Ok(_) =>
          if Outranks(other, release, v, kind, name) then Ok(true)
          else AnyOutranks(history[1..], release, v, kind, name)
  }

  function Unoutranked(names: seq<string>, history: seq<Release>, release: Release, v: Version,
                       kind: string): Result<seq<string>, AliasError>
    decreases |names|
  {
    if names == [] then Ok([])
    else match AnyOutranks(history, release, v, kind, names[0])
      case Err(error) => Err(error)
      case Ok(outranked) =>
        match Unoutranked(names[1..], history, release, v, kind)
        case Err(error) => Err(error)
        case Ok(rest) => Ok((if outranked then [] else [names[0]]) + rest)
  }

  /** The aliases a release may take now. */
  function CurrentAliases(release: Release, history: seq<Release>, kind: string): Result<seq<string>, AliasError> {
    match AliasesOf(release, kind)
    case Err(error) => Err(error)
    case Ok(names) =>
      if StableVersion(release).value.None? then Ok([])
      else Unoutranked(names, history, release, StableVersion(release).value.value, kind)
  }

  lemma {:induction false} AnyOutranksIsExists(history: seq<Release>, release: Release, v: Version, kind: string,
                                               name: string)
    ensures var r := AnyOutranks(history, release, v, kind, name);
            && (r == Ok(true) ==> exists i :: 0 <= i < |history| && Outranks(history[i], release, v, kind, name))
            && (r == Ok(false) ==> forall i :: 0 <= i < |history| ==> !Outranks(history[i], release, v, kind, name))
            && (r.Err? ==>
                  exists i :: 0 <= i < |history| && history[i].component == release.component
                              && AliasesOf(history[i], kind).Err?)
    decreases |history|
  {
    hide AliasesOf, StableVersion;
    if history != [] {
      AnyOutranksIsExists(history[1..], release, v, kind, name);
      assert history == [history[0]] + history[1..];
      assert forall i :: 0 <= i < |history[1..]| ==> history[1..][i] == history[i + 1];
    }
  }

  lemma {:induction false} UnoutrankedFilters(names: seq<string>, history: seq<Release>, release: Release, v: Version,
                                              kind: string, name: string)
    requires Unoutranked(names, history, release, v, kind).Ok?
    ensures name in Unoutranked(names, history, release, v, kind).value
       <==> name in names && !exists i :: 0 <= i < |history| && Outranks(history[i], release, v, kind, name)
    decreases |names|
  {
    hide Outranks, AnyOutranks;
    if names != [] {
      AnyOutranksIsExists(history, release, v, kind, names[0]);
      UnoutrankedFilters(names[1..], history, release, v, kind, name);
      assert names == [names[0]] + names[1..];
    }
  }

  /**
    A release is granted an alias exactly when it bears it and no release of its component that
    bears it is newer; a prerelease is granted none.
   */
  lemma GrantedExactly(release: Release, history: seq<Release>, kind: string, name: string)
    requires CurrentAliases(release, history, kind).Ok?
    ensures StableVersion(release).Ok?
    ensures StableVersion(release).value.None? ==> CurrentAliases(release, history, kind).value == []
    ensures StableVersion(release).value.Some? ==>
      (name in CurrentAliases(release, history, kind).value <==>
        Bears(release, kind, name)
        && !exists i :: 0 <= i < |history|
                        && Outranks(history[i], release, StableVersion(release).value.value, kind, name))
  {
    if StableVersion(release).value.Some? {
      UnoutrankedFilters(AliasesOf(release, kind).value, history, release, StableVersion(release).value.value, kind,
                         name);
    }
  }

  /** Two releases of one component granted the same alias from one history that has both are the same version. */
  lemma OneOwner(a: Release, b: Release, history: seq<Release>, kind: string, name: string)
    requires a in history && b in history && a.component == b.component
    requires CurrentAliases(a, history, kind).Ok? && name in CurrentAliases(a, history, kind).value
    requires CurrentAliases(b, history, kind).Ok? && name in CurrentAliases(b, history, kind).value
    ensures a.version == b.version
  {
    GrantedExactly(a, history, kind, name);
    GrantedExactly(b, history, kind, name);
    hide CurrentAliases, ParseStable, Print;
    var i :| 0 <= i < |history| && history[i] == a;
    var j :| 0 <= j < |history| && history[j] == b;
    var v, w := StableVersion(a).value.value, StableVersion(b).value.value;
    assert !Outranks(history[i], b, w, kind, name) && !Outranks(history[j], a, v, kind, name);
    assert v == w;
    StableTextsAreCanonical(a.version, v);
    StableTextsAreCanonical(b.version, v);
  }

  // Some releases in full

  lemma ExampleDecimals()
    ensures Decimal(1) == "1" && Decimal(2) == "2" && Decimal(3) == "3" && Decimal(10) == "10"
  {
    assert Decimal(1) == "1" && Decimal(2) == "2" && Decimal(3) == "3";
    assert Decimal(10) == Decimal(1) + ['0'];
  }

  lemma ExamplePrint()
    ensures Print(Version(10, 2, 3)) == "10.2.3"
  {
    ExampleDecimals();
    hide Decimal;
    assert "10" + "." + "2" + "." + "3" == "10.2.3";
  }

  /**
    The names of a stable version's aliases, for images and for packages; a prerelease has none,
    and build metadata is refused.
   */
  lemma ExampleAliases(component: string)
    ensures StableVersion(Release(component, "10.2.3", false)) == Ok(Some(Version(10, 2, 3)))
    ensures AliasesOf(Release(component, "10.2.3", false), "image") == Ok(["latest", "10", "10.2"])
    ensures AliasesOf(Release(component, "10.2.3", false), "package") == Ok(["latest", "major-10", "minor-10.2"])
    ensures AliasesOf(Release(component, "10.2.3-rc", false), "package") == Ok([])
    ensures AliasesOf(Release(component, "10.2.3+1", false), "package") == Err(UnsupportedVersion)
  {
    ExampleStable(component);
    ExampleNames(Release(component, "10.2.3", false));
    ExampleOthers(component);
  }

  /** Every printed version of at most 128 characters is read as that stable version. */
  lemma PrintedIsStable(component: string, v: Version)
    requires |Print(v)| <= 128
    ensures StableVersion(Release(component, Print(v), false)) == Ok(Some(v))
  {
    PrintedParses(v);
    PrintIsPlain(v);
    hide ParseStable, Print;
  }

  lemma PrintIsPlain(v: Version)
    ensures '+' !in Print(v) && '-' !in Print(v)
  {
    ValueOfDecimal(v.major);
    ValueOfDecimal(v.minor);
    ValueOfDecimal(v.patch);
    NumberIsPlain(Decimal(v.major));
    NumberIsPlain(Decimal(v.minor));
    NumberIsPlain(Decimal(v.patch));
    hide Decimal, IsNumber, Value;
  }

  lemma NumberIsPlain(text: string)
    requires IsNumber(text)
    ensures '+' !in text && '-' !in text
  {
  }

  lemma ExampleStable(component: string)
    ensures StableVersion(Release(component, "10.2.3", false)) == Ok(Some(Version(10, 2, 3)))
  {
    ExamplePrint();
    hide StableVersion, Print;
    PrintedIsStable(component, Version(10, 2, 3));
  }

  lemma ExampleNames(release: Release)
    requires StableVersion(release) == Ok(Some(Version(10, 2, 3)))
    ensures AliasesOf(release, "image") == Ok(["latest", "10", "10.2"])
    ensures AliasesOf(release, "package") == Ok(["latest", "major-10", "minor-10.2"])
  {
    ExampleDecimals();
    hide Decimal, StableVersion;
    assert "10" + "." + "2" == "10.2";
    assert "major-" + "10" == "major-10";
    assert "minor-" + "10" + "." + "2" == "minor-10.2";
  }

  lemma ExampleOthers(component: string)
    ensures AliasesOf(Release(component, "10.2.3-rc", false), "package") == Ok([])
    ensures AliasesOf(Release(component, "10.2.3+1", false), "package") == Err(UnsupportedVersion)
  {
    hide ParseStable;
    assert "10.2.3-rc"[6] == '-' && "10.2.3+1"[6] == '+';
  }

  // Runs that rely on the history

  /** What each alias of each component names. */
  type Tags = map<(string, string), Version>

  /** One publication: the history it lists and the releases of it that it publishes. */
  datatype Publication = Publication(history: seq<Release>, selected: seq<Release>, writes: nat)

  function Grant(tags: Tags, release: Release, names: seq<string>): Tags
    requires names != [] ==> StableVersion(release).Ok? && StableVersion(release).value.Some?
    decreases |names|
  {
    if names == [] then tags
    else Grant(tags[(release.component, names[0]) := StableVersion(release).value.value], release, names[1..])
  }

  /**
    Publishing releases one after the other. An unreadable history ends the publication where it is
    met, and an exception of the registry ends it after `writes` tags have been written.
   */
  function PublishAll(tags: Tags, selected: seq<Release>, history: seq<Release>, writes: nat, kind: string): Tags
    decreases |selected|
  {
    if selected == [] then tags
    else match CurrentAliases(selected[0], history, kind)
      case Err(_) => tags
      case Ok(names) =>
        if writes < |names| then Grant(tags, selected[0], names[..writes])
        else PublishAll(Grant(tags, selected[0], names), selected[1..], history, writes - |names|, kind)
  }

  /** Granting moves exactly the named aliases of the release's component, and moves them to its version. */
  lemma {:induction false} GrantExactly(tags: Tags, release: Release, names: seq<string>, k: (string, string))
    requires StableVersion(release).Ok? && StableVersion(release).value.Some?
    ensures var after := Grant(tags, release, names);
            if k.0 == release.component && k.1 in names
            then k in after && after[k] == StableVersion(release).value.value
            else (k in after <==> k in tags) && (k in tags ==> after[k] == tags[k])
    decreases |names|
  {
    hide StableVersion;
    if names != [] {
      GrantExactly(tags[(release.component, names[0]) := StableVersion(release).value.value], release, names[1..], k);
      assert k.1 in names <==> k.1 == names[0] || k.1 in names[1..];
    }
  }

  /** Publishing one release without an exception moves exactly the aliases it is granted, and to its version. */
  lemma PublishedExactly(tags: Tags, release: Release, history: seq<Release>, writes: nat, kind: string,
                         k: (string, string))
    requires CurrentAliases(release, history, kind).Ok? && |CurrentAliases(release, history, kind).value| <= writes
    ensures var after, names :=
      PublishAll(tags, [release], history, writes, kind), CurrentAliases(release, history, kind).value;
            if k.0 == release.component && k.1 in names
            then k in after && StableVersion(release) == Ok(Some(after[k]))
            else (k in after <==> k in tags) && (k in tags ==> after[k] == tags[k])
  {
    var names := CurrentAliases(release, history, kind).value;
    assert [release][1..] == [];
    if names != [] {
      GrantedExactly(release, history, kind, names[0]);
      hide CurrentAliases, StableVersion;
      GrantExactly(tags, release, names, k);
    }
  }

  function PublishRuns(tags: Tags, runs: seq<Publication>, kind: string): Tags
    decreases |runs|
  {
    if runs == [] then tags
    else PublishRuns(PublishAll(tags, runs[0].selected, runs[0].history, runs[0].writes, kind), runs[1..], kind)
  }

  ghost predicate NotLower(before: Tags, after: Tags) {
    forall k :: k in before ==> k in after && !Newer(before[k], after[k])
  }

  /** Every tag was taken by a release the history has. */
  ghost predicate Witnessed(tags: Tags, history: seq<Release>, kind: string) {
    forall k :: k in tags ==> TakenBy(tags, history, kind, k)
  }

  ghost predicate TakenBy(tags: Tags, history: seq<Release>, kind: string, k: (string, string))
    requires k in tags
  {
    exists i :: 0 <= i < |history| && history[i].component == k.0 && Bears(history[i], kind, k.1)
      && StableVersion(history[i]) == Ok(Some(tags[k]))
  }

  /** What is not outranked is not older than what the history has given its alias to. */
  lemma NoneNewer(tags: Tags, release: Release, name: string, history: seq<Release>, kind: string)
    requires StableVersion(release).Ok? && StableVersion(release).value.Some?
    requires (release.component, name) in tags && TakenBy(tags, history, kind, (release.component, name))
    requires forall i :: 0 <= i < |history| ==>
      !Outranks(history[i], release, StableVersion(release).value.value, kind, name)
    ensures !Newer(tags[(release.component, name)], StableVersion(release).value.value)
  {
    hide Bears, StableVersion;
  }

  lemma {:induction false} GrantRaises(tags: Tags, release: Release, names: seq<string>, history: seq<Release>,
                                       kind: string)
    requires release in history && StableVersion(release).Ok? && StableVersion(release).value.Some?
    requires Witnessed(tags, history, kind)
    requires forall n :: n in names ==> Bears(release, kind, n)
    requires forall n, i :: n in names && 0 <= i < |history| ==>
      !Outranks(history[i], release, StableVersion(release).value.value, kind, n)
    ensures NotLower(tags, Grant(tags, release, names)) && Witnessed(Grant(tags, release, names), history, kind)
    decreases |names|
  {
    hide Bears, StableVersion;
    if names != [] {
      var v := StableVersion(release).value.value;
      var k := (release.component, names[0]);
      var next := tags[k := v];
      forall q | q in next ensures TakenBy(next, history, kind, q) {
        if q == k {
          var i :| 0 <= i < |history| && history[i] == release;
        } else {
          assert TakenBy(tags, history, kind, q);
        }
      }
      if k in tags {
        assert names[0] in names;
        NoneNewer(tags, release, names[0], history, kind);
      }
      assert forall n :: n in names[1..] ==> n in names;
      GrantRaises(next, release, names[1..], history, kind);
    }
  }

  lemma {:induction false} PublishRaises(tags: Tags, selected: seq<Release>, history: seq<Release>, writes: nat,
                                         kind: string)
    requires Witnessed(tags, history, kind) && forall r :: r in selected ==> r in history
    ensures NotLower(tags, PublishAll(tags, selected, history, writes, kind))
    ensures Witnessed(PublishAll(tags, selected, history, writes, kind), history, kind)
    decreases |selected|
  {
    hide CurrentAliases, Bears, Outranks, StableVersion;
    if selected != [] && CurrentAliases(selected[0], history, kind).Ok? {
      var release, names := selected[0], CurrentAliases(selected[0], history, kind).value;
      var granted := if writes < |names| then names[..writes] else names;
      GrantedExactly(release, history, kind, "");
      if StableVersion(release).value.Some? {
        forall n | n in names
          ensures Bears(release, kind, n)
          ensures forall i :: 0 <= i < |history| ==>
            !Outranks(history[i], release, StableVersion(release).value.value, kind, n)
        {
          GrantedExactly(release, history, kind, n);
        }
        assert forall n :: n in granted ==> n in names;
        GrantRaises(tags, release, granted, history, kind);
      }
      if writes >= |names| {
        PublishRaises(Grant(tags, release, names), selected[1..], history, writes - |names|, kind);
      }
    }
  }

  /** Every publication lists at least what the one before it listed, and publishes releases it lists. */
  ghost predicate Growing(runs: seq<Publication>) {
    && (forall i, r :: 0 <= i < |runs| && r in runs[i].selected ==> r in runs[i].history)
    && (forall i, j, r :: 0 <= i < j < |runs| && r in runs[i].history ==> r in runs[j].history)
  }

  /** Over any sequence of serialised publications with a growing history, no alias ever moves to an older version. */
  lemma {:induction false} AliasesNeverFall(tags: Tags, runs: seq<Publication>, kind: string)
    requires Growing(runs) && (runs != [] ==> Witnessed(tags, runs[0].history, kind))
    ensures NotLower(tags, PublishRuns(tags, runs, kind))
    decreases |runs|
  {
    hide Bears, StableVersion;
    if runs != [] {
      var next := PublishAll(tags, runs[0].selected, runs[0].history, runs[0].writes, kind);
      PublishRaises(tags, runs[0].selected, runs[0].history, runs[0].writes, kind);
      if |runs| > 1 {
        forall k | k in next ensures TakenBy(next, runs[1].history, kind, k) {
          assert TakenBy(next, runs[0].history, kind, k);
          var i :| 0 <= i < |runs[0].history| && runs[0].history[i].component == k.0
                   && Bears(runs[0].history[i], kind, k.1) && StableVersion(runs[0].history[i]) == Ok(Some(next[k]));
          assert runs[0].history[i] in runs[1].history;
        }
      }
      AliasesNeverFall(next, runs[1..], kind);
    }
  }

  // Publishing packages, which also looks at the tag it finds

  /**
    How replacing one registry tag ends: done and read back, refused before any change, or changed
    but not confirmed.
   */
  datatype Replacement = Verified | RefusedBefore | Unconfirmed

  /** What a registry tag says: nothing known of it, not a stable version, or a stable version. */
  function Observed(tags: map<string, string>, name: string): Result<Option<Version>, AliasError> {
    if name in tags then StableVersion(Release("", tags[name], false)) else Ok(None)
  }

  ghost predicate StableTagsNotLower(before: map<string, string>, after: map<string, string>) {
    forall n :: n in before && Observed(before, n).Ok? && Observed(before, n).value.Some? ==>
      n in after && Observed(after, n).Ok? && Observed(after, n).value.Some?
      && !Newer(Observed(before, n).value.value, Observed(after, n).value.value)
  }

  /** The tags after advancing aliases, and why advancing stopped early if it did. */
  datatype Advance = Advance(tags: map<string, string>, error: Option<AliasError>)

  function AdvanceNames(tags: map<string, string>, release: Release, names: seq<string>,
                        replacements: string -> Replacement): Advance
    requires names != [] ==> StableVersion(release).Ok? && StableVersion(release).value.Some?
    decreases |names|
  {
    if names == [] then Advance(tags, None)
    else
      var before := Observed(tags, names[0]);
      if before.Err? then Advance(tags, Some(before.error))
      else if before.value.Some? && Newer(before.value.value, StableVersion(release).value.value)
      then AdvanceNames(tags, release, names[1..], replacements)
      else match replacements(names[0])
        case RefusedBefore => Advance(tags, Some(RegistryConflict))
        case Unconfirmed => Advance(tags[names[0] := release.version], Some(RegistryConflict))
        case Verified => AdvanceNames(tags[names[0] := release.version], release, names[1..], replacements)
  }

  /** One package publication's writes to the tags of the package. */
  function AdvanceAliases(tags: map<string, string>, release: Release, history: seq<Release>,
                          replacements: string -> Replacement): Advance {
    match CurrentAliases(release, history, "package")
    case Err(error) => Advance(tags, Some(error))
    case Ok(names) => AdvanceNames(tags, release, names, replacements)
  }

  /** A tag holds this release's version or a newer stable one. */
  ghost predicate UpToDate(tags: map<string, string>, name: string, release: Release) {
    && StableVersion(release).Ok? && StableVersion(release).value.Some?
    && name in tags && Observed(tags, name).Ok? && Observed(tags, name).value.Some?
    && !Newer(StableVersion(release).value.value, Observed(tags, name).value.value)
  }

  /** Writing a stable version over a tag that is not newer keeps the tags from falling. */
  lemma ReplacingRaises(tags: map<string, string>, name: string, release: Release)
    requires StableVersion(release).Ok? && StableVersion(release).value.Some?
    requires Observed(tags, name).Ok?
    requires Observed(tags, name).value.Some? ==>
      !Newer(Observed(tags, name).value.value, StableVersion(release).value.value)
    ensures StableTagsNotLower(tags, tags[name := release.version])
    ensures UpToDate(tags[name := release.version], name, release)
  {
    var after := tags[name := release.version];
    assert StableVersion(Release("", release.version, false)) == StableVersion(release);
    assert Observed(after, name) == StableVersion(release);
    hide StableVersion;
    forall n | n in tags && n != name ensures Observed(after, n) == Observed(tags, n) {
    }
  }

  lemma NotLowerTransitive(a: map<string, string>, b: map<string, string>, c: map<string, string>)
    requires StableTagsNotLower(a, b) && StableTagsNotLower(b, c)
    ensures StableTagsNotLower(a, c)
  {
    hide StableVersion;
  }

  /** Advancing never lowers a stable tag, however it ends, and leaves every alias up to date if it succeeds. */
  lemma {:induction false} AdvanceRaises(tags: map<string, string>, release: Release, names: seq<string>,
                                         replacements: string -> Replacement)
    requires StableVersion(release).Ok? && StableVersion(release).value.Some?
    ensures var after := AdvanceNames(tags, release, names, replacements);
            && StableTagsNotLower(tags, after.tags)
            && (after.error.None? ==> forall n :: n in names ==> UpToDate(after.tags, n, release))
            && (forall n :: n !in names ==>
                 (n in after.tags <==> n in tags) && (n in tags ==> after.tags[n] == tags[n]))
    decreases |names|
  {
    hide StableVersion, Observed;
    if names != [] && Observed(tags, names[0]).Ok? {
      var name := names[0];
      var found := Observed(tags, name).value;
      var skip := found.Some? && Newer(found.value, StableVersion(release).value.value);
      var next := if skip then tags else tags[name := release.version];
      if !skip {
        ReplacingRaises(tags, name, release);
      }
      AdvanceRaises(next, release, names[1..], replacements);
      var rest := AdvanceNames(next, release, names[1..], replacements);
      NotLowerTransitive(tags, next, rest.tags);
      assert names == [name] + names[1..];
      ObservedIn(tags, name);
      assert UpToDate(next, name, release);
      StaysUpToDate(next, rest.tags, name, release);
    }
  }

  lemma ObservedIn(tags: map<string, string>, name: string)
    ensures Observed(tags, name).Ok? && Observed(tags, name).value.Some? ==> name in tags
  {
  }

  lemma StaysUpToDate(tags: map<string, string>, after: map<string, string>, name: string, release: Release)
    requires UpToDate(tags, name, release) && StableTagsNotLower(tags, after)
    ensures UpToDate(after, name, release)
  {
    hide StableVersion;
  }

  /** A publication as the package path sees it; its history may be incomplete. */
  datatype PackageRun = PackageRun(release: Release, history: seq<Release>, replacements: string -> Replacement)

  function PackageRuns(tags: map<string, string>, runs: seq<PackageRun>): map<string, string>
    decreases |runs|
  {
    if runs == [] then tags
    else PackageRuns(AdvanceAliases(tags, runs[0].release, runs[0].history, runs[0].replacements).tags, runs[1..])
  }

  lemma AdvanceNeverLowers(tags: map<string, string>, run: PackageRun)
    ensures var after := AdvanceAliases(tags, run.release, run.history, run.replacements);
            && StableTagsNotLower(tags, after.tags)
            && (after.error.None? ==>
                  CurrentAliases(run.release, run.history, "package").Ok?
                  && forall n :: n in CurrentAliases(run.release, run.history, "package").value ==>
                       UpToDate(after.tags, n, run.release))
  {
    hide AdvanceNames;
    var current := CurrentAliases(run.release, run.history, "package");
    if current.Ok? && StableVersion(run.release).value.Some? {
      AdvanceRaises(tags, run.release, current.value, run.replacements);
    }
    if current.Ok? {
      GrantedExactly(run.release, run.history, "package", "");
      NoNames(tags, run.release, run.replacements);
    }
  }

  lemma NoNames(tags: map<string, string>, release: Release, replacements: string -> Replacement)
    ensures AdvanceNames(tags, release, [], replacements) == Advance(tags, None)
  {
  }

  /** Over any sequence of package publications, with histories however incomplete, no stable tag ever falls. */
  lemma {:induction false} PackageTagsNeverFall(tags: map<string, string>, runs: seq<PackageRun>)
    ensures StableTagsNotLower(tags, PackageRuns(tags, runs))
    decreases |runs|
  {
    hide StableVersion, AdvanceAliases;
    if runs != [] {
      var next := AdvanceAliases(tags, runs[0].release, runs[0].history, runs[0].replacements).tags;
      AdvanceNeverLowers(tags, runs[0]);
      PackageTagsNeverFall(next, runs[1..]);
      NotLowerTransitive(tags, next, PackageRuns(next, runs[1..]));
    }
  }

  class PackageTags {
    /** The distribution tags of one package, by alias. */
    var tags: map<string, string>

    /** The loop over the granted aliases; an exception ends it. */
    method Publish(release: Release, history: seq<Release>, replacements: string -> Replacement)
      returns (error: Option<AliasError>)
      modifies this
      ensures Advance(tags, error) == AdvanceAliases(old(tags), release, history, replacements)
      ensures StableTagsNotLower(old(tags), tags)
    {
      var current := CurrentAliases(release, history, "package");
      AdvanceNeverLowers(tags, PackageRun(release, history, replacements));
      if current.Err? {
        return Some(current.error);
      }
      GrantedExactly(release, history, "package", "");
      hide StableVersion, CurrentAliases, Newer, Observed;
      for i := 0 to |current.value|
        invariant AdvanceNames(old(tags), release, current.value, replacements)
               == AdvanceNames(tags, release, current.value[i..], replacements)
      {
        var name := current.value[i];
        var previous := Observed(tags, name);
        if previous.Err? {
          return Some(previous.error);
        }
        if previous.value.Some? && Newer(previous.value.value, StableVersion(release).value.value) {
          continue;
        }
        if replacements(name).RefusedBefore? {
          return Some(RegistryConflict);
        }
        tags := tags[name := release.version];
        if replacements(name).Unconfirmed? {
          return Some(RegistryConflict);
        }
      }
      return None;
    }
  }
}
