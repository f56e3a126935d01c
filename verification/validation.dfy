/**
  The validators the command-line flow runs on its inputs before it rewrites
  the manifest. Each yields either success or the message shown to the user.
  The latest published version of the dependency, which the program obtains
  from the package registry, is an input here, already coerced.
 */
module Validation {
  import opened Wrappers
  import opened Semver
  import opened PackageManifest

  /** `true`, or the message to show. */
  datatype Outcome = Pass | Fail(message: string)

  function MissingDependencyMessage(name: string): string {
    "The dependency " + name + " doesn't exist."
  }

  function InvalidVersionMessage(version: string): string {
    "The version " + version + " is not valid."
  }

  function NotNewerMessage(version: string): string {
    "The version " + version + " is lower or equal the previous version."
  }

  function OutOfRangeMessage(version: string): string {
    "The version " + version + " is not correct"
  }

  /** `validateValue`: a prompt answer is accepted exactly when it is not empty. */
  function ValidateValue(value: string): (ok: bool)
    ensures ok <==> |value| > 0
  {
    value != ""
  }

  /** `validateDependency`: passes exactly when some group holds a non-empty
      entry for name, and otherwise names the missing dependency. */
  function ValidateDependency(name: string, m: Manifest): (r: Outcome)
    ensures r.Pass? <==> exists g :: Holds(m, g, name)
    ensures r.Fail? ==> r.message == MissingDependencyMessage(name)
  {
    if GetDependencyVersion(m, name).None? then Fail(MissingDependencyMessage(name)) else Pass
  }

  /** The coerced version currently recorded for name, if it has one. */
  function PreviousVersion(m: Manifest, name: string): (r: Option<Version>)
    ensures r.Some? ==> ValidateDependency(name, m).Pass?
    ensures (forall g :: !Holds(m, g, name)) ==> r.None?
  {
    match GetDependencyVersion(m, name)
    case None => None
    case Some(range) => Coerce(range)
  }

  /** `validateVersion`: the proposed text must coerce to a version, which must
      be strictly newer than the recorded one and no newer than the latest
      published one. Invalid text is reported before anything else is looked
      at: text without a digit, or with a part written with a leading zero.
      The recorded version is needed only once the text is valid. */
  function ValidateVersion(version: string, name: string, m: Manifest, latest: Version): (r: Outcome)
    requires Coerce(version).Some? ==> PreviousVersion(m, name).Some?
    ensures Coerce(version).None? ==> r == Fail(InvalidVersionMessage(version))
    ensures !HasDigit(version) ==> r == Fail(InvalidVersionMessage(version))
    ensures Coerce(version).Some? ==>
      var proposed := Coerce(version).value;
      var previous := PreviousVersion(m, name).value;
      && (LessOrEqual(proposed, previous) ==> r == Fail(NotNewerMessage(version)))
      && (Less(previous, proposed) && Less(latest, proposed) ==> r == Fail(OutOfRangeMessage(version)))
    ensures r.Pass? <==>
      && Coerce(version).Some?
      && Less(PreviousVersion(m, name).value, Coerce(version).value)
      && LessOrEqual(Coerce(version).value, latest)
  {
    var proposed := Coerce(version);
    if proposed.None? then Fail(InvalidVersionMessage(version))
    else
      var previous := PreviousVersion(m, name).value;
      if Lte(proposed.value, previous) then Fail(NotNewerMessage(version))
      else if !SatisfiesHyphenRange(proposed.value, previous, latest) then Fail(OutOfRangeMessage(version))
      // the final `!!version` is true here: text that coerced is not empty
      else Pass
  }

  /** The flow of the `make-pr` command once both checks pass: the accepted
      text is coerced, its printed form is written as a caret range, and the
      manifest then records exactly the accepted version, so proposing the
      same text again is refused as not newer. */
  lemma AcceptedVersionIsRecorded(version: string, name: string, m: Manifest, latest: Version)
    requires Coerce(version).Some? ==> PreviousVersion(m, name).Some?
    requires ValidateVersion(version, name, m, latest).Pass?
    ensures exists g :: Holds(m, g, name)
    ensures GetDependencyVersion(UpdateDependencyVersion(m, name, Format(Coerce(version).value)), name)
         == Some("^" + Format(Coerce(version).value))
    ensures PreviousVersion(UpdateDependencyVersion(m, name, Format(Coerce(version).value)), name)
         == Coerce(version)
    ensures ValidateVersion(version, name, UpdateDependencyVersion(m, name, Format(Coerce(version).value)), latest)
         == Fail(NotNewerMessage(version))
  {
    var v := Coerce(version).value;
    assert GetDependencyVersion(m, name).Some?;
    LookupAfterUpdate(m, name, Format(v));
    CoerceCaretFormat(v);
  }

  /** Passing the existence check does not make the version check callable:
      a dependency recorded as `latest` exists, yet has no coerced version,
      so any valid proposal reaches a comparison with an absent version. */
  lemma ExistingDependencyMayLackVersion()
    ensures var m := Manifest(map[Dependencies := map["left-pad" := "latest"]], map[]);
      && ValidateDependency("left-pad", m) == Pass
      && PreviousVersion(m, "left-pad") == None
  {
    var m := Manifest(map[Dependencies := map["left-pad" := "latest"]], map[]);
    assert Holds(m, Dependencies, "left-pad");
    assert IsFirstHolding(m, "left-pad", 0);
    assert !HasDigit("latest");
  }

  /** A manifest whose runtime group records `left-pad` at `^1.0.0`. */
  const LeftPad: Manifest := Manifest(map[Dependencies := map["left-pad" := "^1.0.0"]], map[])

  /** The recorded `^1.0.0` coerces to 1.0.0. */
  lemma LeftPadPrevious()
    ensures PreviousVersion(LeftPad, "left-pad") == Some(Version(1, 0, 0))
  {
    assert Holds(LeftPad, Dependencies, "left-pad");
    assert IsFirstHolding(LeftPad, "left-pad", 0);
    assert Format(Version(1, 0, 0)) == "1.0.0";
    CoerceCaretFormat(Version(1, 0, 0));
  }

  /** Against LeftPad with `latest` published, a proposed text that coerces
      to v is judged by where v falls relative to 1.0.0 and `latest`. */
  lemma LeftPadVerdict(text: string, v: Version, latest: Version)
    requires Coerce(text) == Some(v)
    ensures PreviousVersion(LeftPad, "left-pad") == Some(Version(1, 0, 0))
    ensures ValidateVersion(text, "left-pad", LeftPad, latest)
         == if LessOrEqual(v, Version(1, 0, 0)) then Fail(NotNewerMessage(text))
            else if Less(latest, v) then Fail(OutOfRangeMessage(text))
            else Pass
  {
    LeftPadPrevious();
  }

  // The version texts of the scenarios below coerce to the versions they print.

  lemma CoerceTextNotAVersion()
    ensures Coerce("not-a-version") == None
  {
    assert !HasDigit("not-a-version");
  }

  lemma CoerceText090()
    ensures Coerce("0.9.0") == Some(Version(0, 9, 0))
  {
    assert Format(Version(0, 9, 0)) == "0.9.0";
    CoerceFormat(Version(0, 9, 0));
  }

  lemma CoerceText100()
    ensures Coerce("1.0.0") == Some(Version(1, 0, 0))
  {
    assert Format(Version(1, 0, 0)) == "1.0.0";
    CoerceFormat(Version(1, 0, 0));
  }

  lemma CoerceText120()
    ensures Coerce("1.2.0") == Some(Version(1, 2, 0))
  {
    assert Format(Version(1, 2, 0)) == "1.2.0";
    CoerceFormat(Version(1, 2, 0));
  }

  lemma CoerceText130()
    ensures Coerce("1.3.0") == Some(Version(1, 3, 0))
  {
    assert Format(Version(1, 3, 0)) == "1.3.0";
    CoerceFormat(Version(1, 3, 0));
  }

  lemma CoerceText200()
    ensures Coerce("2.0.0") == Some(Version(2, 0, 0))
  {
    assert Format(Version(2, 0, 0)) == "2.0.0";
    CoerceFormat(Version(2, 0, 0));
  }

  /** With 1.3.0 published, 1.2.0 is accepted. */
  lemma LeftPadAccepted()
    ensures PreviousVersion(LeftPad, "left-pad") == Some(Version(1, 0, 0))
    ensures ValidateDependency("left-pad", LeftPad) == Pass
    ensures ValidateVersion("1.2.0", "left-pad", LeftPad, Version(1, 3, 0)) == Pass
  {
    LeftPadPrevious();
    assert Holds(LeftPad, Dependencies, "left-pad");
    CoerceText120();
    LeftPadVerdict("1.2.0", Version(1, 2, 0), Version(1, 3, 0));
  }

  /** The accepted 1.2.0 is written as `^1.2.0` and nothing else changes. */
  lemma LeftPadUpdated()
    ensures UpdateDependencyVersion(LeftPad, "left-pad", "1.2.0")
         == Manifest(map[Dependencies := map["left-pad" := "^1.2.0"]], map[])
  {
    assert Holds(LeftPad, Dependencies, "left-pad");
    assert FirstHolding(LeftPad, "left-pad", 0) == Some(0);
    assert "^" + "1.2.0" == "^1.2.0";
    var deps := LeftPad.groups[Dependencies]["left-pad" := "^1.2.0"];
    assert deps == map["left-pad" := "^1.2.0"];
    assert LeftPad.groups[Dependencies := deps] == map[Dependencies := deps];
  }

  /** The latest published version itself is accepted. */
  lemma LeftPadLatestAccepted()
    ensures PreviousVersion(LeftPad, "left-pad") == Some(Version(1, 0, 0))
    ensures ValidateVersion("1.3.0", "left-pad", LeftPad, Version(1, 3, 0)) == Pass
  {
    LeftPadPrevious();
    CoerceText130();
    LeftPadVerdict("1.3.0", Version(1, 3, 0), Version(1, 3, 0));
  }

  /** 0.9.0 is not newer than the recorded 1.0.0. */
  lemma LeftPadOlderRejected()
    ensures PreviousVersion(LeftPad, "left-pad") == Some(Version(1, 0, 0))
    ensures ValidateVersion("0.9.0", "left-pad", LeftPad, Version(1, 3, 0)) == Fail(NotNewerMessage("0.9.0"))
  {
    LeftPadPrevious();
    CoerceText090();
    LeftPadVerdict("0.9.0", Version(0, 9, 0), Version(1, 3, 0));
  }

  /** The recorded 1.0.0 itself is not newer. */
  lemma LeftPadSameRejected()
    ensures PreviousVersion(LeftPad, "left-pad") == Some(Version(1, 0, 0))
    ensures ValidateVersion("1.0.0", "left-pad", LeftPad, Version(1, 3, 0)) == Fail(NotNewerMessage("1.0.0"))
  {
    LeftPadPrevious();
    CoerceText100();
    LeftPadVerdict("1.0.0", Version(1, 0, 0), Version(1, 3, 0));
  }

  /** 2.0.0 is past the latest published 1.3.0. */
  lemma LeftPadTooNewRejected()
    ensures PreviousVersion(LeftPad, "left-pad") == Some(Version(1, 0, 0))
    ensures ValidateVersion("2.0.0", "left-pad", LeftPad, Version(1, 3, 0)) == Fail(OutOfRangeMessage("2.0.0"))
  {
    LeftPadPrevious();
    CoerceText200();
    LeftPadVerdict("2.0.0", Version(2, 0, 0), Version(1, 3, 0));
  }

  /** Text without digits is invalid. */
  lemma LeftPadInvalidInputs()
    ensures PreviousVersion(LeftPad, "left-pad") == Some(Version(1, 0, 0))
    ensures ValidateVersion("not-a-version", "left-pad", LeftPad, Version(1, 3, 0))
         == Fail(InvalidVersionMessage("not-a-version"))
  {
    LeftPadPrevious();
    CoerceTextNotAVersion();
  }

  /** A name no group holds is reported missing, before any version logic. */
  lemma LeftPadMissingDependency()
    ensures ValidateDependency("right-pad", LeftPad) == Fail(MissingDependencyMessage("right-pad"))
  {
    assert forall g :: !Holds(LeftPad, g, "right-pad");
  }

  /** A minor part written `02` makes the text invalid, although it has digits. */
  lemma LeftPadLeadingZeroRejected()
    ensures PreviousVersion(LeftPad, "left-pad") == Some(Version(1, 0, 0))
    ensures ValidateVersion("1.02", "left-pad", LeftPad, Version(1, 3, 0))
         == Fail(InvalidVersionMessage("1.02"))
  {
    LeftPadPrevious();
    CoerceRejectsLeadingZeroMinor();
  }
}
