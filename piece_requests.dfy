/**
 * The version-string rules of the piece request schemas.
 *
 * EXACT_VERSION_PATTERN is the anchored regular expression  ^[0-9]+\.[0-9]+\.[0-9]+$
 * and VERSION_PATTERN is  ^([~^])?[0-9]+\.[0-9]+\.[0-9]+$ . Both are modelled by one
 * deterministic automaton that differs only in its start state; `$` without the
 * multiline flag matches only at the very end of the input, so a string is accepted
 * exactly when the automaton is in state InPatch after the last character.
 */
module PieceRequests {
  import opened Pieces

  predicate IsDigit(c: char) { '0' <= c <= '9' }

  /** Every character is a decimal digit (the empty string included). */
  predicate AllDigits(s: string) { forall i :: 0 <= i < |s| ==> IsDigit(s[i]) }

  /** The character class [0-9]+ : a non-empty run of digits. */
  predicate IsDigitRun(s: string) { |s| > 0 && AllDigits(s) }

  /** The optional range prefix [~^]. */
  predicate IsRangePrefix(c: char) { c == '~' || c == '^' }

  /** MAJOR.MINOR.PATCH, stated without any automaton. */
  ghost predicate IsExactVersion(s: string) {
    exists major, minor, patch ::
      IsDigitRun(major) && IsDigitRun(minor) && IsDigitRun(patch) && s == major + "." + minor + "." + patch
  }

  /** An exact version, optionally preceded by one '~' or '^'. */
  ghost predicate IsVersion(s: string) {
    IsExactVersion(s) || (|s| > 0 && IsRangePrefix(s[0]) && IsExactVersion(s[1..]))
  }

  /** Number of '.' characters in s. */
  function DotCount(s: string): nat {
    if s == [] then 0 else (if s[0] == '.' then 1 else 0) + DotCount(s[1..])
  }

  // ---------------------------------------------------------------------------
  // The matcher
  // ---------------------------------------------------------------------------

  datatype MatchState =
    | OptionalPrefix  // start of VERSION_PATTERN: an optional [~^] may come first
    | ExpectMajor     // start of EXACT_VERSION_PATTERN: at least one digit needed
    | InMajor
    | ExpectMinor
    | InMinor
    | ExpectPatch
    | InPatch         // the only accepting state
    | Dead            // no continuation can match

  /** One character of input. The start state is never re-entered; a character outside [0-9.~^] kills every match. */
  function Step(st: MatchState, c: char): (next: MatchState)
    ensures next != OptionalPrefix
    ensures !IsDigit(c) && c != '.' && !IsRangePrefix(c) ==> next == Dead
    ensures next == InPatch ==> IsDigit(c)
  {
    match st
    case OptionalPrefix => if IsRangePrefix(c) then ExpectMajor else if IsDigit(c) then InMajor else Dead
    case ExpectMajor => if IsDigit(c) then InMajor else Dead
    case InMajor => if IsDigit(c) then InMajor else if c == '.' then ExpectMinor else Dead
    case ExpectMinor => if IsDigit(c) then InMinor else Dead
    case InMinor => if IsDigit(c) then InMinor else if c == '.' then ExpectPatch else Dead
    case ExpectPatch => if IsDigit(c) then InPatch else Dead
    case InPatch => if IsDigit(c) then InPatch else Dead
    case Dead => Dead
  }

  /** The state after reading all of s; once a character has been read, the start state is gone. */
  function Run(st: MatchState, s: string): (final: MatchState)
    ensures s != [] ==> final != OptionalPrefix
    decreases |s|
  {
    if s == [] then st else Run(Step(st, s[0]), s[1..])
  }

  /** EXACT_VERSION_PATTERN.test(s): an accepted string is non-empty and starts with a digit. */
  predicate MatchesExactVersion(s: string): (ok: bool)
    ensures ok ==> s != [] && IsDigit(s[0])
  {
    if s == [] then false else RunDead(s[1..]); Run(ExpectMajor, s) == InPatch
  }

  /** VERSION_PATTERN.test(s): an accepted string is non-empty and starts with a digit or a range prefix. */
  predicate MatchesVersion(s: string): (ok: bool)
    ensures ok ==> s != [] && (IsDigit(s[0]) || IsRangePrefix(s[0]))
  {
    if s == [] then false else RunDead(s[1..]); Run(OptionalPrefix, s) == InPatch
  }

  // ---------------------------------------------------------------------------
  // Facts about the automaton
  // ---------------------------------------------------------------------------

  lemma {:induction false} RunDead(s: string)
    ensures Run(Dead, s) == Dead
  {
    if s != [] { RunDead(s[1..]); }
  }

  lemma {:induction false} RunAppend(st: MatchState, a: string, b: string)
    ensures Run(st, a + b) == Run(Run(st, a), b)
    decreases |a|
  {
    if a == [] {
      assert a + b == b;
    } else {
      assert (a + b)[0] == a[0];
      assert (a + b)[1..] == a[1..] + b;
      RunAppend(Step(st, a[0]), a[1..], b);
    }
  }

  /** Inside a component, further digits keep the automaton where it is. */
  lemma {:induction false} RunStaysInComponent(st: MatchState, s: string)
    requires st == InMajor || st == InMinor || st == InPatch
    requires AllDigits(s)
    ensures Run(st, s) == st
  {
    if s != [] {
      assert AllDigits(s[1..]) by { forall i | 0 <= i < |s[1..]| ensures IsDigit(s[1..][i]) { assert s[1..][i] == s[i + 1]; } }
      RunStaysInComponent(st, s[1..]);
    }
  }

  /** A digit run read from ExpectMajor ends in InMajor (and likewise for minor and patch). */
  lemma RunDigitRun(st: MatchState, s: string)
    requires st == ExpectMajor || st == ExpectMinor || st == ExpectPatch
    requires IsDigitRun(s)
    ensures Run(st, s) == (if st == ExpectMajor then InMajor else if st == ExpectMinor then InMinor else InPatch)
  {
    assert AllDigits(s[1..]) by { forall i | 0 <= i < |s[1..]| ensures IsDigit(s[1..][i]) { assert s[1..][i] == s[i + 1]; } }
    RunStaysInComponent(Step(st, s[0]), s[1..]);
  }

  /** Every MAJOR.MINOR.PATCH string matches the exact pattern. */
  lemma ExactVersionAccepted(major: string, minor: string, patch: string)
    requires IsDigitRun(major) && IsDigitRun(minor) && IsDigitRun(patch)
    ensures MatchesExactVersion(major + "." + minor + "." + patch)
  {
    RunAppend(ExpectMajor, major + "." + minor + ".", patch);
    RunAppend(ExpectMajor, major + "." + minor, ".");
    RunAppend(ExpectMajor, major + ".", minor);
    RunAppend(ExpectMajor, major, ".");
    RunDigitRun(ExpectMajor, major);
    RunDigitRun(ExpectMinor, minor);
    RunDigitRun(ExpectPatch, patch);
  }

  lemma {:induction false} PatchTail(s: string)
    requires Run(InPatch, s) == InPatch
    ensures AllDigits(s)
  {
    if s != [] {
      if !IsDigit(s[0]) { RunDead(s[1..]); }
      PatchTail(s[1..]);
      assert forall i :: 1 <= i < |s| ==> s[i] == s[1..][i - 1];
    }
  }

  lemma {:induction false} MinorTail(s: string) returns (minor: string, patch: string)
    requires Run(InMinor, s) == InPatch
    ensures AllDigits(minor) && IsDigitRun(patch) && s == minor + "." + patch
  {
    assert s != [];
    var c, t := s[0], s[1..];
    assert s == [c] + t;
    if IsDigit(c) {
      var m, p := MinorTail(t);
      minor, patch := [c] + m, p;
      assert AllDigits(minor) by {
        forall i | 0 <= i < |minor| ensures IsDigit(minor[i]) { if i > 0 { assert minor[i] == m[i - 1]; } }
      }
    } else if c == '.' {
      assert Run(ExpectPatch, t) == InPatch;
      assert t != [];
      if !IsDigit(t[0]) { RunDead(t[1..]); }
      PatchTail(t[1..]);
      assert forall i :: 1 <= i < |t| ==> t[i] == t[1..][i - 1];
      minor, patch := "", t;
    } else {
      RunDead(t);
      assert false;
    }
  }

  lemma {:induction false} MajorTail(s: string) returns (major: string, minor: string, patch: string)
    requires Run(InMajor, s) == InPatch
    ensures AllDigits(major) && IsDigitRun(minor) && IsDigitRun(patch)
    ensures s == major + "." + minor + "." + patch
  {
    assert s != [];
    var c, t := s[0], s[1..];
    assert s == [c] + t;
    if IsDigit(c) {
      var a, b, p := MajorTail(t);
      major, minor, patch := [c] + a, b, p;
      assert AllDigits(major) by {
        forall i | 0 <= i < |major| ensures IsDigit(major[i]) { if i > 0 { assert major[i] == a[i - 1]; } }
      }
    } else if c == '.' {
      assert Run(ExpectMinor, t) == InPatch;
      assert t != [];
      if !IsDigit(t[0]) { RunDead(t[1..]); }
      var m, p := MinorTail(t[1..]);
      major, minor, patch := "", [t[0]] + m, p;
      assert t == [t[0]] + t[1..];
      assert AllDigits(minor) by {
        forall i | 0 <= i < |minor| ensures IsDigit(minor[i]) { if i > 0 { assert minor[i] == m[i - 1]; } }
      }
    } else {
      RunDead(t);
      assert false;
    }
  }

  /** EXACT_VERSION_PATTERN accepts precisely the MAJOR.MINOR.PATCH strings. */
  lemma ExactVersionCharacterization(s: string)
    ensures MatchesExactVersion(s) <==> IsExactVersion(s)
  {
    if MatchesExactVersion(s) {
      assert s != [];
      var a, b, c := MajorTail(s[1..]);
      var major := [s[0]] + a;
      assert s == [s[0]] + s[1..];
      assert IsDigitRun(major) by {
        forall i | 0 <= i < |major| ensures IsDigit(major[i]) { if i > 0 { assert major[i] == a[i - 1]; } }
      }
      assert s == major + "." + b + "." + c;
    }
    if IsExactVersion(s) {
      var major, minor, patch :| IsDigitRun(major) && IsDigitRun(minor) && IsDigitRun(patch)
        && s == major + "." + minor + "." + patch;
      ExactVersionAccepted(major, minor, patch);
    }
  }

  /** Whatever past the start state has not died has seen only digits and dots. */
  lemma {:induction false} OnlyDigitsAndDots(st: MatchState, s: string)
    requires st != OptionalPrefix && st != Dead
    requires Run(st, s) != Dead
    ensures forall i :: 0 <= i < |s| ==> IsDigit(s[i]) || s[i] == '.'
    decreases |s|
  {
    if s != [] {
      if !IsDigit(s[0]) && s[0] != '.' { assert Step(st, s[0]) == Dead; RunDead(s[1..]); }
      if Step(st, s[0]) == Dead { RunDead(s[1..]); }
      OnlyDigitsAndDots(Step(st, s[0]), s[1..]);
      assert forall i :: 1 <= i < |s| ==> s[i] == s[1..][i - 1];
    }
  }

  /** Dots still needed from a state before the automaton can accept. */
  function DotsToGo(st: MatchState): nat {
    match st
    case ExpectMajor | InMajor => 2
    case ExpectMinor | InMinor => 1
    case _ => 0
  }

  lemma {:induction false} DotsCounted(st: MatchState, s: string)
    requires st != OptionalPrefix
    requires Run(st, s) == InPatch
    ensures DotCount(s) == DotsToGo(st)
    decreases |s|
  {
    if s == [] {
    } else {
      if Step(st, s[0]) == Dead { RunDead(s[1..]); }
      DotsCounted(Step(st, s[0]), s[1..]);
    }
  }

  /** In an accepted string every dot is followed by a digit. */
  lemma {:induction false} DotsFollowedByDigit(st: MatchState, s: string)
    requires st != OptionalPrefix
    requires Run(st, s) == InPatch
    ensures forall i :: 0 <= i < |s| && s[i] == '.' ==> i + 1 < |s| && IsDigit(s[i + 1])
    decreases |s|
  {
    if s != [] {
      var next := Step(st, s[0]);
      if next == Dead { RunDead(s[1..]); }
      if s[0] == '.' {
        assert next == ExpectMinor || next == ExpectPatch;
        assert s[1..] != [];
        if !IsDigit(s[1]) { assert Step(next, s[1]) == Dead; assert s[1..][1..] == s[2..]; RunDead(s[2..]); }
      }
      DotsFollowedByDigit(next, s[1..]);
      assert forall i :: 1 <= i < |s| ==> s[i] == s[1..][i - 1];
    }
  }

  /**
   * What an exact version rules out: a leading prefix or blank (the first character is a
   * digit), a trailing blank or dot (so is the last), any character that is neither digit nor
   * dot, an empty component (every dot is followed by a digit), and any number of components
   * other than three (there are exactly two dots).
   */
  lemma ExactVersionShape(s: string)
    requires MatchesExactVersion(s)
    ensures |s| >= 5
    ensures IsDigit(s[0]) && IsDigit(s[|s| - 1])
    ensures forall i :: 0 <= i < |s| ==> IsDigit(s[i]) || s[i] == '.'
    ensures forall i :: 0 <= i < |s| && s[i] == '.' ==> i + 1 < |s| && IsDigit(s[i + 1])
    ensures DotCount(s) == 2
  {
    OnlyDigitsAndDots(ExpectMajor, s);
    DotsFollowedByDigit(ExpectMajor, s);
    DotsCounted(ExpectMajor, s);
    ExactVersionCharacterization(s);
    var major, minor, patch :| IsDigitRun(major) && IsDigitRun(minor) && IsDigitRun(patch)
      && s == major + "." + minor + "." + patch;
    assert s[0] == major[0];
    assert s[|s| - 1] == patch[|patch| - 1];
  }

  /** A string whose first character is not a digit (a range prefix, 'v', a blank) is never exact. */
  lemma ExactVersionRejectsNonDigitStart(s: string)
    requires |s| > 0 && !IsDigit(s[0])
    ensures !MatchesExactVersion(s)
  {
    RunDead(s[1..]);
  }

  /** VERSION_PATTERN is EXACT_VERSION_PATTERN with at most one optional '~' or '^' in front. */
  lemma VersionCharacterization(s: string)
    ensures MatchesVersion(s) <==>
              MatchesExactVersion(s) || (|s| > 0 && IsRangePrefix(s[0]) && MatchesExactVersion(s[1..]))
  {
    if s != [] {
      if IsRangePrefix(s[0]) {
        ExactVersionRejectsNonDigitStart(s);
        assert Run(OptionalPrefix, s) == Run(ExpectMajor, s[1..]);
      } else if !IsDigit(s[0]) {
        RunDead(s[1..]);
      }
    }
  }

  /** The same, in terms of concatenation: s is exact, or "~" or "^" followed by an exact version. */
  lemma VersionIsOptionalPrefixPlusExact(s: string)
    ensures MatchesVersion(s) <==>
              MatchesExactVersion(s) || exists e :: MatchesExactVersion(e) && (s == "~" + e || s == "^" + e)
  {
    VersionCharacterization(s);
    if |s| > 0 && IsRangePrefix(s[0]) && MatchesExactVersion(s[1..]) {
      assert s == [s[0]] + s[1..];
    }
    if exists e :: MatchesExactVersion(e) && (s == "~" + e || s == "^" + e) {
      var e :| MatchesExactVersion(e) && (s == "~" + e || s == "^" + e);
      assert s[1..] == e;
    }
  }

  /** VERSION_PATTERN accepts exactly the strings IsVersion describes. */
  lemma VersionMeaning(s: string)
    ensures MatchesVersion(s) <==> IsVersion(s)
  {
    VersionCharacterization(s);
    ExactVersionCharacterization(s);
    if |s| > 0 { ExactVersionCharacterization(s[1..]); }
  }

  /** Every exact version is also a valid version. */
  lemma ExactVersionIsVersion(s: string)
    requires MatchesExactVersion(s)
    ensures MatchesVersion(s)
  {
    VersionCharacterization(s);
  }

  /** At most one prefix character: "~^1.2.3" and "^^1.2.3" are rejected. */
  lemma VersionRejectsDoublePrefix(s: string)
    requires |s| >= 2 && IsRangePrefix(s[0]) && IsRangePrefix(s[1])
    ensures !MatchesVersion(s)
  {
    assert s[1..][0] == s[1];
    ExactVersionRejectsNonDigitStart(s[1..]);
    VersionCharacterization(s);
    ExactVersionRejectsNonDigitStart(s);
  }

  /** The inclusion of exact versions in versions is strict. */
  lemma RangeVersionIsNotExact()
    ensures MatchesVersion("^1.2.3") && !MatchesExactVersion("^1.2.3")
    ensures MatchesVersion("~1.2.3") && !MatchesExactVersion("~1.2.3")
  {
    ExactVersionAccepted("1", "2", "3");
    assert "^1.2.3"[1..] == "1" + "." + "2" + "." + "3";
    assert "~1.2.3"[1..] == "1" + "." + "2" + "." + "3";
    VersionCharacterization("^1.2.3");
    VersionCharacterization("~1.2.3");
    ExactVersionRejectsNonDigitStart("^1.2.3");
    ExactVersionRejectsNonDigitStart("~1.2.3");
  }

  // ---------------------------------------------------------------------------
  // Request schemas and the version rule each one applies
  // ---------------------------------------------------------------------------

  /** Type.RegEx(EXACT_VERSION_PATTERN) and Type.RegEx(VERSION_PATTERN). */
  datatype VersionSchema = ExactVersionType | VersionType

  predicate Admits(schema: VersionSchema, s: string) {
    match schema
    case ExactVersionType => MatchesExactVersion(s)
    case VersionType => MatchesVersion(s)
  }

  /** Type.Optional(schema): an absent field is always admitted. */
  predicate AdmitsOptional(schema: VersionSchema, v: Option<string>) {
    v.None? || Admits(schema, v.value)
  }

  datatype PieceScope = PROJECT | PLATFORM

  datatype ListPiecesRequestQuery = ListPiecesRequestQuery(release: Option<string>, includeHidden: Option<bool>)

  datatype GetPieceRequestQuery = GetPieceRequestQuery(version: Option<string>)

  datatype PieceOptionRequest = PieceOptionRequest(
    packageType: PackageType, pieceType: PieceType, pieceName: string, pieceVersion: string,
    stepName: string, propertyName: string, flowId: string, flowVersionId: string)

  /** The two variants of the union, told apart by their packageType literal. */
  datatype AddPieceRequestBody =
    | PrivatePieceBody(scope: PieceScope, pieceName: string, pieceVersion: string)
    | NpmPieceBody(scope: PieceScope, pieceName: string, pieceVersion: string)

  /** ListPiecesRequestQuery: `release`, when present, must be an exact version. */
  predicate ValidListPiecesRequestQuery(q: ListPiecesRequestQuery): (ok: bool)
    ensures ok <==> q.release.None? || IsExactVersion(q.release.value)
  {
    if q.release.Some? then ExactVersionCharacterization(q.release.value); AdmitsOptional(ExactVersionType, q.release)
    else AdmitsOptional(ExactVersionType, q.release)
  }

  /** GetPieceRequestQuery: `version`, when present, may be exact or carry a range prefix. */
  predicate ValidGetPieceRequestQuery(q: GetPieceRequestQuery): (ok: bool)
    ensures ok <==> q.version.None? || IsVersion(q.version.value)
  {
    if q.version.Some? then VersionMeaning(q.version.value); AdmitsOptional(VersionType, q.version)
    else AdmitsOptional(VersionType, q.version)
  }

  /** PieceOptionRequest: `pieceVersion` may be exact or carry a range prefix. */
  predicate ValidPieceOptionRequest(r: PieceOptionRequest): (ok: bool)
    ensures ok <==> IsVersion(r.pieceVersion)
  {
    VersionMeaning(r.pieceVersion);
    Admits(VersionType, r.pieceVersion)
  }

  /** AddPieceRequestBody: both variants demand an exact `pieceVersion`. */
  predicate ValidAddPieceRequestBody(b: AddPieceRequestBody): (ok: bool)
    ensures ok <==> IsExactVersion(b.pieceVersion)
  {
    ExactVersionCharacterization(b.pieceVersion);
    match b
    case PrivatePieceBody(_, _, v) => Admits(ExactVersionType, v)
    case NpmPieceBody(_, _, v) => Admits(ExactVersionType, v)
  }

  /**
   * Registering a piece, private or from the registry, demands an exact version; anything
   * registrable is also accepted where a version or a range is allowed (options, get-piece).
   */
  lemma RegistrationDemandsExactVersion(b: AddPieceRequestBody, r: PieceOptionRequest, q: GetPieceRequestQuery)
    requires r.pieceVersion == b.pieceVersion && q.version == Some(b.pieceVersion)
    ensures ValidAddPieceRequestBody(b) <==> IsExactVersion(b.pieceVersion)
    ensures ValidAddPieceRequestBody(b) ==> ValidPieceOptionRequest(r) && ValidGetPieceRequestQuery(q)
  {
    ExactVersionCharacterization(b.pieceVersion);
    if ValidAddPieceRequestBody(b) { ExactVersionIsVersion(b.pieceVersion); }
  }

  /** A '^' range is fine in an options request but refused when registering or listing. */
  lemma OptionRequestsAcceptRanges(scope: PieceScope, r: PieceOptionRequest)
    requires r.pieceVersion == "^1.2.3"
    ensures ValidPieceOptionRequest(r)
    ensures ValidGetPieceRequestQuery(GetPieceRequestQuery(Some("^1.2.3")))
    ensures !ValidAddPieceRequestBody(PrivatePieceBody(scope, r.pieceName, r.pieceVersion))
    ensures !ValidAddPieceRequestBody(NpmPieceBody(scope, r.pieceName, r.pieceVersion))
    ensures !ValidListPiecesRequestQuery(ListPiecesRequestQuery(Some("^1.2.3"), None))
  {
    RangeVersionIsNotExact();
  }
}
