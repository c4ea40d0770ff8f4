/**
 * Strict SemVer 2.0.0 (items 2, 9 and 10 of the specification): the grammar, the
 * parser, and the stamp derived for development builds.
 */
module SemVer {
  import opened Text

  // ---- Grammar ----

  predicate IsLetter(c: char) { 'a' <= c <= 'z' || 'A' <= c <= 'Z' }

  predicate IdentChar(c: char) { IsDigit(c) || IsLetter(c) || c == '-' }

  predicate AllDigits(s: string) { forall i :: 0 <= i < |s| ==> IsDigit(s[i]) }

  // Identifiers of build metadata.
  predicate BuildIdentifier(s: string) {
    s != "" && forall i :: 0 <= i < |s| ==> IdentChar(s[i])
  }

  // Digits without a leading zero.
  predicate NumericIdentifier(s: string) {
    s != "" && AllDigits(s) && (s[0] == '0' ==> |s| == 1)
  }

  predicate PreIdentifier(s: string) {
    BuildIdentifier(s) && (AllDigits(s) ==> NumericIdentifier(s))
  }

  // Pre-release identifiers are kept apart, build metadata in one piece; empty means absent.
  datatype Parts = Parts(major: string, minor: string, patch: string, pre: seq<string>, build: string)

  predicate DottedIdentifiers(s: string) {
    forall id :: id in Split(s, '.') ==> BuildIdentifier(id)
  }

  predicate WellFormed(p: Parts) {
    && NumericIdentifier(p.major) && NumericIdentifier(p.minor) && NumericIdentifier(p.patch)
    && (forall id :: id in p.pre ==> PreIdentifier(id))
    && (p.build != "" ==> DottedIdentifiers(p.build))
  }

  function Core(p: Parts): string {
    Join([p.major, p.minor, p.patch], '.')
  }

  function WithPre(p: Parts): string {
    if p.pre == [] then Core(p) else Core(p) + "-" + Join(p.pre, '.')
  }

  // The string a well-formed version is written as.
  function Render(p: Parts): string {
    if p.build == "" then WithPre(p) else WithPre(p) + "+" + p.build
  }

  // ---- Parser ----

  function ParseSemVer(v: string): Option<Parts> {
    var (withPre, build) := Cut(v, '+');
    var (core, pre) := Cut(withPre, '-');
    var numbers := Split(core, '.');
    if |numbers| != 3 then None
    else
      var p := Parts(numbers[0], numbers[1], numbers[2],
                     if pre.Some? then Split(pre.value, '.') else [],
                     if build.Some? then build.value else "");
      if WellFormed(p) && build != Some("") then Some(p) else None
  }

  predicate IsValidSemVer(v: string) {
    ParseSemVer(v).Some?
  }

  // Joining and splitting stay within the characters of the pieces and the separator.
  lemma {:induction false} JoinChars(pieces: seq<string>, c: char)
    requires c != '.' && forall piece :: piece in pieces ==> c !in piece
    ensures c !in Join(pieces, '.')
  {
    if |pieces| > 1 {
      JoinChars(pieces[1..], c);
    }
  }

  lemma IdentifierHasNo(s: string, c: char)
    requires BuildIdentifier(s) && !IdentChar(c)
    ensures c !in s
  {
  }

  lemma RenderPieces(p: Parts)
    requires WellFormed(p)
    ensures '-' !in Core(p) && '+' !in Core(p) && '+' !in WithPre(p)
    ensures Split(Core(p), '.') == [p.major, p.minor, p.patch]
    ensures p.pre != [] ==> Split(Join(p.pre, '.'), '.') == p.pre
  {
    var numbers := [p.major, p.minor, p.patch];
    JoinChars(numbers, '-');
    JoinChars(numbers, '+');
    SplitOfJoin(numbers, '.');
    if p.pre != [] {
      forall id | id in p.pre ensures '+' !in id && '.' !in id {
        IdentifierHasNo(id, '+');
        IdentifierHasNo(id, '.');
      }
      JoinChars(p.pre, '+');
      SplitOfJoin(p.pre, '.');
    }
  }

  // Writing a well-formed version and parsing it gives it back.
  lemma ParseOfRender(p: Parts)
    requires WellFormed(p)
    ensures ParseSemVer(Render(p)) == Some(p)
  {
    RenderPieces(p);
    CutOf(WithPre(p), '+', p.build);
    CutOf(Core(p), '-', Join(p.pre, '.'));
    assert WithPre(p) + "+" + p.build == WithPre(p) + ['+'] + p.build;
    assert Core(p) + "-" + Join(p.pre, '.') == Core(p) + ['-'] + Join(p.pre, '.');
  }

  // A parse that succeeds splits the source into well-formed parts and loses nothing.
  lemma RenderOfParse(v: string)
    requires ParseSemVer(v).Some?
    ensures WellFormed(ParseSemVer(v).value) && Render(ParseSemVer(v).value) == v
  {
    var p := ParseSemVer(v).value;
    var (withPre, build) := Cut(v, '+');
    var (core, pre) := Cut(withPre, '-');
    CutParts(v, '+');
    CutParts(withPre, '-');
    JoinOfSplit(core, '.');
    assert Split(core, '.') == [p.major, p.minor, p.patch];
    if pre.Some? {
      JoinOfSplit(pre.value, '.');
    }
  }

  // A string is valid exactly when it is some well-formed version written out, and then
  // its parts are those of that version: the grammar is unambiguous.
  lemma ParseIff(v: string, p: Parts)
    ensures ParseSemVer(v) == Some(p) <==> WellFormed(p) && Render(p) == v
  {
    if ParseSemVer(v) == Some(p) {
      RenderOfParse(v);
    }
    if WellFormed(p) && Render(p) == v {
      ParseOfRender(p);
    }
  }

  // ---- Placeholders and the derived stamp ----

  // Lower case, as far as it reaches the letters compared with: the Kelvin sign is the
  // one other character whose lower case is an ASCII letter of these words.
  function Lower(c: char): char {
    if 'A' <= c <= 'Z' then c - 'A' + 'a' else if c == '\U{212A}' then 'k' else c
  }

  predicate LowersTo(s: string, word: string) {
    |s| == |word| && forall i :: 0 <= i < |s| ==> Lower(s[i]) == word[i]
  }

  predicate IsPlaceholder(v: string) {
    v == "" || LowersTo(v, "dev") || LowersTo(v, "unknown")
  }

  predicate Alphanumeric(c: char) { IsDigit(c) || IsLetter(c) }

  function KeepAlphanumeric(s: string): (r: string)
    ensures forall i :: 0 <= i < |r| ==> Alphanumeric(r[i])
  {
    if s == "" then ""
    else KeepAlphanumeric(s[..|s| - 1]) + if Alphanumeric(s[|s| - 1]) then [s[|s| - 1]] else ""
  }

  const MAX_COMMIT_LEN := 12

  function ShortCommit(commit: string): (r: string)
    ensures |r| <= MAX_COMMIT_LEN && forall i :: 0 <= i < |r| ==> Alphanumeric(r[i])
  {
    var c := TrimSpace(commit);
    if c == "" || LowersTo(c, "unknown") then ""
    else
      var kept := KeepAlphanumeric(Cut(c, '-').0);
      if |kept| > MAX_COMMIT_LEN then kept[..MAX_COMMIT_LEN] else kept
  }

  method SanitizeCommit(commit: string) returns (r: string)
    ensures r == ShortCommit(commit)
  {
    var c := TrimSpace(commit);
    if c == "" || LowersTo(c, "unknown") {
      return "";
    }
    c := Cut(c, '-').0;
    r := "";
    for i := 0 to |c|
      invariant r == KeepAlphanumeric(c[..i])
    {
      assert c[..i + 1][..i] == c[..i];
      if Alphanumeric(c[i]) {
        r := r + [c[i]];
      }
    }
    assert c[..|c|] == c;
    if |r| > MAX_COMMIT_LEN {
      r := r[..MAX_COMMIT_LEN];
    }
  }

  function DropSeparators(s: string): string {
    if s == "" then ""
    else (if s[0] == '-' || s[0] == ':' then "" else [s[0]]) + DropSeparators(s[1..])
  }

  function SanitizeBuildTime(buildTime: string): string {
    var ts := TrimSpace(buildTime);
    if ts == "" || LowersTo(ts, "unknown") then ""
    else if ts[|ts| - 1] == 'Z' then DropSeparators(ts[..|ts| - 1]) + "Z"
    else DropSeparators(ts)
  }

  // The fragments, commit first; joined they are legal metadata exactly when what is
  // left of the build time is.
  method BuildMetadata(commit: string, buildTime: string) returns (meta: seq<string>)
    ensures meta == Metadata(commit, buildTime)
    ensures var build, ts := Join(meta, '.'), SanitizeBuildTime(buildTime);
            build == "" || DottedIdentifiers(build) <==> ts == "" || DottedIdentifiers(ts)
  {
    MetadataValidIff(commit, buildTime);
    meta := [];
    var short := SanitizeCommit(commit);
    if short != "" {
      meta := meta + ["dev." + short];
    }
    var ts := SanitizeBuildTime(buildTime);
    if ts != "" {
      meta := meta + [ts];
    }
  }

  function Metadata(commit: string, buildTime: string): seq<string> {
    (if ShortCommit(commit) == "" then [] else ["dev." + ShortCommit(commit)])
    + if SanitizeBuildTime(buildTime) == "" then [] else [SanitizeBuildTime(buildTime)]
  }

  const SEMVER_COMPATIBLE := "0.1.0"

  function EffectiveFrom(declared: string, commit: string, buildTime: string): string {
    if !IsPlaceholder(declared) then declared
    else
      var meta := Metadata(commit, buildTime);
      if meta == [] then SEMVER_COMPATIBLE else SEMVER_COMPATIBLE + "+" + Join(meta, '.')
  }

  function EffectiveVersion(version: string, declared: string, commit: string, buildTime: string): string {
    if IsValidSemVer(version) then version
    else if !IsPlaceholder(version) then version
    else EffectiveFrom(declared, commit, buildTime)
  }

  // ---- When the stamp is valid ----

  lemma RenderCompatible(build: string)
    ensures Render(Parts("0", "1", "0", [], build)) ==
              if build == "" then SEMVER_COMPATIBLE else SEMVER_COMPATIBLE + "+" + build
  {
    var tail := ["1", "0"];
    assert ["0", "1", "0"][1..] == tail && tail[1..] == ["0"];
    assert Join(tail, '.') == "1.0";
    assert Join(["0", "1", "0"], '.') == "0.1.0";
  }

  // A stamp on the compatible base is valid exactly when its metadata is.
  lemma StampValidIff(build: string)
    ensures IsValidSemVer(if build == "" then SEMVER_COMPATIBLE else SEMVER_COMPATIBLE + "+" + build) <==>
              build == "" || DottedIdentifiers(build)
  {
    var v := if build == "" then SEMVER_COMPATIBLE else SEMVER_COMPATIBLE + "+" + build;
    RenderCompatible(build);
    if build == "" || DottedIdentifiers(build) {
      ParseOfRender(Parts("0", "1", "0", [], build));
    }
    if IsValidSemVer(v) && build != "" {
      CutOf(SEMVER_COMPATIBLE, '+', build);
      assert v == SEMVER_COMPATIBLE + ['+'] + build;
      assert WellFormed(ParseSemVer(v).value);
    }
  }

  lemma DottedPrefix(id: string, rest: string)
    requires BuildIdentifier(id)
    ensures DottedIdentifiers(id)
    ensures DottedIdentifiers(id + "." + rest) <==> DottedIdentifiers(rest)
  {
    IdentifierHasNo(id, '.');
    SplitOfPrefix(id, "", '.');
    assert id + "" == id;
    var tail := "." + rest;
    SplitOfPrefix(id, tail, '.');
    assert tail[1..] == rest;
    assert Split(tail, '.') == [""] + Split(rest, '.');
    assert id + "." + rest == id + tail;
    assert Split(id + tail, '.') == [id] + Split(rest, '.');
  }

  lemma MetadataValidIff(commit: string, buildTime: string)
    ensures var build := Join(Metadata(commit, buildTime), '.');
            var ts := SanitizeBuildTime(buildTime);
            && (build == "" || DottedIdentifiers(build) <==> ts == "" || DottedIdentifiers(ts))
            && (build == "" <==> Metadata(commit, buildTime) == [])
  {
    var short, ts := ShortCommit(commit), SanitizeBuildTime(buildTime);
    if short != "" {
      assert BuildIdentifier(short);
      var meta := Metadata(commit, buildTime);
      if ts == "" {
        assert meta == ["dev." + short];
        DevDotted(short);
      } else {
        assert meta == ["dev." + short, ts] && meta[1..] == [ts];
        DevStampDotted(short, ts);
      }
    }
  }

  lemma DevDotted(short: string)
    requires BuildIdentifier(short)
    ensures DottedIdentifiers("dev." + short)
  {
    DottedPrefix("dev", short);
    DottedPrefix(short, "");
    assert "dev." + short == "dev" + "." + short;
  }

  lemma DevStampDotted(short: string, ts: string)
    requires BuildIdentifier(short)
    ensures DottedIdentifiers("dev." + short + ['.'] + ts) <==> DottedIdentifiers(ts)
  {
    DottedPrefix("dev", short + "." + ts);
    DottedPrefix(short, ts);
    assert "dev." + short + ['.'] + ts == "dev" + "." + (short + "." + ts);
  }

  // A valid version has a dot, a placeholder has none.
  lemma PlaceholderNotValid(v: string)
    requires IsPlaceholder(v)
    ensures !IsValidSemVer(v)
  {
    assert '.' !in v by {
      if LowersTo(v, "dev") || LowersTo(v, "unknown") {
        forall i | 0 <= i < |v| ensures v[i] != '.' { assert Lower(v[i]) != '.'; }
      }
    }
    var (withPre, _) := Cut(v, '+');
    var (core, _) := Cut(withPre, '-');
    CutParts(v, '+');
    CutParts(withPre, '-');
    SplitOfPrefix(core, "", '.');
    assert core + "" == core;
  }

  // What the effective version is: the first of the two that is no placeholder, as it
  // stands, or a stamp made of the commit and the build time, in this order.
  lemma EffectiveIs(version: string, declared: string, commit: string, buildTime: string)
    ensures var effective := EffectiveVersion(version, declared, commit, buildTime);
            var short, ts := ShortCommit(commit), SanitizeBuildTime(buildTime);
            if !IsPlaceholder(version) then effective == version
            else if !IsPlaceholder(declared) then effective == declared
            else if short == "" && ts == "" then effective == "0.1.0"
            else if ts == "" then effective == "0.1.0+dev." + short
            else if short == "" then effective == "0.1.0+" + ts
            else effective == "0.1.0+dev." + short + "." + ts
  {
    if IsPlaceholder(version) {
      PlaceholderNotValid(version);
      StampIs(commit, buildTime);
    }
  }

  lemma StampIs(commit: string, buildTime: string)
    ensures var build := Join(Metadata(commit, buildTime), '.');
            var short, ts := ShortCommit(commit), SanitizeBuildTime(buildTime);
            && (Metadata(commit, buildTime) == [] <==> short == "" && ts == "")
            && (short != "" && ts == "" ==> SEMVER_COMPATIBLE + "+" + build == "0.1.0+dev." + short)
            && (short == "" && ts != "" ==> SEMVER_COMPATIBLE + "+" + build == "0.1.0+" + ts)
            && (short != "" && ts != "" ==> SEMVER_COMPATIBLE + "+" + build == "0.1.0+dev." + short + "." + ts)
  {
    var short, ts := ShortCommit(commit), SanitizeBuildTime(buildTime);
    var meta := Metadata(commit, buildTime);
    if short != "" && ts != "" {
      assert meta == ["dev." + short, ts] && meta[1..] == [ts];
      assert Join(meta, '.') == "dev." + short + ['.'] + ts;
    }
  }

  lemma {:induction false} KeepAll(s: string)
    requires forall i :: 0 <= i < |s| ==> Alphanumeric(s[i])
    ensures KeepAlphanumeric(s) == s
  {
    if s != "" {
      var n := |s| - 1;
      KeepAll(s[..n]);
      assert s == s[..n] + [s[n]];
    }
  }

  // A commit hash keeps its first twelve characters, and what a hyphen adds is dropped.
  lemma CommitShortened(hash: string, rest: string)
    requires hash != "" && (forall i :: 0 <= i < |hash| ==> Alphanumeric(hash[i])) && !LowersTo(hash, "unknown")
    requires rest == "" || !IsSpace(rest[|rest| - 1])
    ensures ShortCommit(hash) == hash[..if |hash| > 12 then 12 else |hash|]
    ensures ShortCommit(hash + "-" + rest) == ShortCommit(hash)
  {
    PlainCommit(hash);
    DirtyCommit(hash, rest);
  }

  lemma PlainCommit(hash: string)
    requires hash != "" && (forall i :: 0 <= i < |hash| ==> Alphanumeric(hash[i])) && !LowersTo(hash, "unknown")
    ensures TrimSpace(hash) == hash && KeepAlphanumeric(hash) == hash && Cut(hash, '-').0 == hash
    ensures ShortCommit(hash) == hash[..if |hash| > 12 then 12 else |hash|]
  {
    KeepAll(hash);
    NeitherSpaceNorHyphen(hash);
    TrimFixedIff(hash);
    SplitlessCut(hash);
    WholeOrFirstTwelve(hash);
  }

  lemma NeitherSpaceNorHyphen(s: string)
    requires forall i :: 0 <= i < |s| ==> Alphanumeric(s[i])
    ensures '-' !in s && forall i :: 0 <= i < |s| ==> !IsSpace(s[i])
  {
  }

  lemma WholeOrFirstTwelve(s: string)
    ensures (if |s| > 12 then s[..12] else s) == s[..if |s| > 12 then 12 else |s|]
  {
  }

  lemma DirtyCommit(hash: string, rest: string)
    requires hash != "" && (forall i :: 0 <= i < |hash| ==> Alphanumeric(hash[i]))
    requires rest == "" || !IsSpace(rest[|rest| - 1])
    ensures var kept := KeepAlphanumeric(hash);
            ShortCommit(hash + "-" + rest) == if |kept| > 12 then kept[..12] else kept
  {
    var dirty := hash + "-" + rest;
    NeitherSpaceNorHyphen(hash);
    assert dirty == hash + ['-'] + rest && dirty[|hash|] == '-' && dirty[0] == hash[0];
    assert rest != "" ==> dirty[|dirty| - 1] == rest[|rest| - 1];
    TrimFixedIff(dirty);
    CutOf(hash, '-', rest);
    HyphenNotUnknown(dirty, |hash|);
  }

  lemma HyphenNotUnknown(s: string, i: nat)
    requires i < |s| && s[i] == '-'
    ensures !LowersTo(s, "unknown")
  {
    assert forall k :: 0 <= k < 7 ==> "unknown"[k] != '-';
    assert Lower(s[i]) == '-';
  }

  lemma {:induction false} SplitlessCut(s: string)
    requires '-' !in s
    ensures Cut(s, '-') == (s, None)
  {
    if s != "" {
      SplitlessCut(s[1..]);
      assert s == [s[0]] + s[1..];
    }
  }

  // A build time loses its hyphens and colons and nothing else.
  lemma BuildTimeCleaned(buildTime: string)
    ensures var ts := TrimSpace(buildTime);
            SanitizeBuildTime(buildTime) == if LowersTo(ts, "unknown") then "" else DropSeparators(ts)
  {
    var ts := TrimSpace(buildTime);
    if ts != "" && ts[|ts| - 1] == 'Z' {
      DropSeparatorsLast(ts[..|ts| - 1], 'Z');
      assert ts == ts[..|ts| - 1] + ['Z'];
    }
  }

  lemma DropSeparatorsLast(s: string, c: char)
    requires c != '-' && c != ':'
    ensures DropSeparators(s + [c]) == DropSeparators(s) + [c]
  {
    DropSeparatorsConcat(s, [c]);
    DropOne(c, "");
    assert [c] + "" == [c];
  }

  lemma {:induction false} DropSeparatorsConcat(a: string, b: string)
    ensures DropSeparators(a + b) == DropSeparators(a) + DropSeparators(b)
  {
    if a == "" {
      assert a + b == b;
    } else {
      var tail := a[1..];
      DropSeparatorsConcat(tail, b);
      DropOne(a[0], tail);
      DropOne(a[0], tail + b);
      assert [a[0]] + tail == a && [a[0]] + (tail + b) == a + b;
    }
  }

  lemma DropOne(c: char, s: string)
    ensures DropSeparators([c] + s) == (if c == '-' || c == ':' then "" else [c]) + DropSeparators(s)
  {
    assert ([c] + s)[1..] == s;
  }

  // The whole rule: a malformed value is never laundered into a valid one, and a derived
  // stamp is valid exactly when the build time sanitises to nothing or to dot-separated
  // identifiers. The commit never matters.
  lemma EffectiveValidIff(version: string, declared: string, commit: string, buildTime: string)
    ensures IsValidSemVer(EffectiveVersion(version, declared, commit, buildTime)) <==>
              if !IsPlaceholder(version) then IsValidSemVer(version)
              else if !IsPlaceholder(declared) then IsValidSemVer(declared)
              else
                var ts := SanitizeBuildTime(buildTime);
                ts == "" || DottedIdentifiers(ts)
  {
    if IsPlaceholder(version) {
      PlaceholderNotValid(version);
      if IsPlaceholder(declared) {
        var build := Join(Metadata(commit, buildTime), '.');
        MetadataValidIff(commit, buildTime);
        StampValidIff(build);
      }
    }
  }

  // ---- Build times ----

  predicate PlainTimeChar(c: char) { Alphanumeric(c) || c == '-' || c == ':' }

  lemma {:induction false} DropSeparatorsPlain(s: string)
    requires forall c :: c in s ==> PlainTimeChar(c)
    ensures forall c :: c in DropSeparators(s) ==> Alphanumeric(c)
  {
    if s != "" {
      assert s[0] in s;
      DropSeparatorsPlain(s[1..]);
    }
  }

  // Letters, digits, hyphens and colons always make a valid stamp.
  lemma PlainBuildTimeAlwaysValid(version: string, declared: string, commit: string, buildTime: string)
    requires IsPlaceholder(version) && IsPlaceholder(declared)
    requires forall c :: c in buildTime ==> PlainTimeChar(c)
    ensures IsValidSemVer(EffectiveVersion(version, declared, commit, buildTime))
  {
    var ts := TrimSpace(buildTime);
    TrimWithin(buildTime);
    TrimWithin(TrimLeft(buildTime));
    DropSeparatorsPlain(ts);
    if ts != "" { DropSeparatorsPlain(ts[..|ts| - 1]); }
    var clean := SanitizeBuildTime(buildTime);
    assert forall c :: c in clean ==> Alphanumeric(c);
    if clean != "" {
      assert BuildIdentifier(clean) by {
        forall i | 0 <= i < |clean| ensures IdentChar(clean[i]) { assert clean[i] in clean; }
      }
      DottedPrefix(clean, "");
    }
    EffectiveValidIff(version, declared, commit, buildTime);
  }

  lemma {:induction false} DropSeparatorsKeeps(s: string, c: char)
    requires c in s && c != '-' && c != ':'
    ensures c in DropSeparators(s)
  {
    if s[0] != c {
      assert s == [s[0]] + s[1..];
      DropSeparatorsKeeps(s[1..], c);
    }
  }

  lemma {:induction false} SplitKeeps(s: string, c: char) returns (piece: string)
    requires c in s && c != '.'
    ensures piece in Split(s, '.') && c in piece
  {
    var rest := Split(s[1..], '.');
    if s[0] == c {
      piece := [s[0]] + rest[0];
    } else {
      assert s == [s[0]] + s[1..];
      var found := SplitKeeps(s[1..], c);
      var k :| 0 <= k < |rest| && rest[k] == found;
      if s[0] == '.' {
        piece := found;
        assert Split(s, '.')[k + 1] == piece;
      } else if k == 0 {
        piece := [s[0]] + found;
        assert Split(s, '.')[0] == piece;
      } else {
        piece := found;
        assert Split(s, '.')[k] == piece;
      }
    }
  }

  // A time zone offset written with `+`, as RFC 3339 allows, is not sanitised: every
  // such build time makes the stamp invalid.
  lemma OffsetBuildTimeNeverValid(version: string, declared: string, commit: string, buildTime: string)
    requires IsPlaceholder(version) && IsPlaceholder(declared)
    requires '+' in buildTime
    ensures !IsValidSemVer(EffectiveVersion(version, declared, commit, buildTime))
  {
    PlusSurvives(buildTime);
    PlusNotDotted(SanitizeBuildTime(buildTime));
    EffectiveValidIff(version, declared, commit, buildTime);
  }

  lemma PlusSurvives(buildTime: string)
    requires '+' in buildTime
    ensures '+' in SanitizeBuildTime(buildTime)
  {
    var ts := TrimSpace(buildTime);
    TrimKeeps(buildTime, '+');
    TrimKeeps(TrimLeft(buildTime), '+');
    assert !LowersTo(ts, "unknown") by {
      var i :| 0 <= i < |ts| && ts[i] == '+';
      assert Lower(ts[i]) == '+';
    }
    if ts[|ts| - 1] == 'Z' {
      assert ts == ts[..|ts| - 1] + ['Z'];
      DropSeparatorsKeeps(ts[..|ts| - 1], '+');
    } else {
      DropSeparatorsKeeps(ts, '+');
    }
  }

  lemma PlusNotDotted(clean: string)
    requires '+' in clean
    ensures !DottedIdentifiers(clean)
  {
    var piece := SplitKeeps(clean, '+');
    assert !BuildIdentifier(piece) by {
      var i :| 0 <= i < |piece| && piece[i] == '+';
      assert !IdentChar(piece[i]);
    }
  }
}
