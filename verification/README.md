# Dependency-version validation for the Bitbucket pull-request tool

The tool opens a pull request that bumps one dependency in a repository's
`package.json`. Its only decision-making logic is a small, stateless layer
over the manifest and a version check. This project models that layer in
Dafny and proves what it promises.

- `semver.dfy` (module `Semver`) holds release versions as `major.minor.patch` triples.
  They are ordered by the precedence of section 11 of Semantic Versioning 2.0.0.
  The module also holds the comparisons the version check uses (`lte`, and `satisfies` with a hyphen range).
  It also models coercion of free text to a version: skip to the first digit, then read
  `major[.minor[.patch]]`, with missing parts written `0`. The rebuilt `major.minor.patch`
  is then parsed strictly, so a part written with a leading zero (`1.02`, `01`) makes the text invalid.
- `manifest.dfy` (module `PackageManifest`) holds the manifest.
  A manifest is whichever of the four dependency groups it has, each a map from name to version range, plus its other top-level fields.
  The module defines the priority-ordered lookup (`getDependencyVersion`) and the copy-on-write rewrite (`updateDependencyVersion`).
- `validation.dfy` (module `Validation`) holds the three validators.
  `ValidateValue` returns a boolean, as the program's `!!value` does.
  `ValidateDependency` and `ValidateVersion` return `Pass` or `Fail(message)`, with the program's exact message texts.
  The module also holds the flow of the `make-pr` command once validation passes, and a few worked scenarios.
- `wrappers.dfy` holds the `Option` type.

An entry counts as present only if its group exists, the group holds the name
as its own key, and the value is a non-empty string. This is the program's
`file[dep]?.[dependency]` test for names that are own keys of the parsed
manifest: an empty string is falsy.

The latest published version comes from a registry process in the program. Here it is a
parameter `latest: Version`, already coerced. The program's non-null assertion on the
recorded version (`prevVersion!`) becomes the precondition of `ValidateVersion`.
That precondition applies only when the proposed text is valid, because invalid
text is rejected before the recorded version is used. `ExistingDependencyMayLackVersion`
shows that this precondition is not implied by `validateDependency` passing: a
dependency recorded as `latest` exists but has no coerced version.

The program fetches the latest published version before the "not newer" comparison.
When the registry process runs, its answer cannot change the "not valid" or "lower or equal" outcomes, so the model takes the version as a parameter.
The version itself still decides between success and "not correct".

Behaviour of the program that the model keeps:
- Coercion drops any pre-release or build part, so versions here are plain triples.
- A name may appear in several groups. The first group in the order runtime, development, peer, optional wins.

## Model

| member | source | states |
|---|---|---|
| Semver.LessIsStrictTotalOrder | src/validation.ts:66-72 | the version precedence used by both comparisons is irreflexive, transitive, asymmetric and total |
| Semver.Compare | src/validation.ts:66 | the library's field-by-field three-way comparison is negative, zero or positive exactly when the first version precedes, equals or follows the second in semantic-version precedence |
| Semver.Lte | src/validation.ts:66 | `semver.lte` holds exactly when the first version precedes or equals the second |
| Semver.SatisfiesHyphenRange | src/validation.ts:70 | the hyphen range `lo - hi` admits exactly the versions v with lo <= v <= hi, inclusive at both ends |
| Semver.Coerce | src/validation.ts:59-60 | text without a digit never coerces (so it is "not valid"), and text that coerces is never empty |
| Semver.CoerceRejectsLeadingZeroMajor | src/validation.ts:59-60 | `01` does not coerce: a major part written with a leading zero fails the strict parse of the rebuilt version |
| Semver.CoerceRejectsLeadingZeroMinor | src/validation.ts:59-60 | `1.02` does not coerce: a minor part written with a leading zero fails the strict parse |
| Semver.CoerceRejectsLeadingZeroPatch | src/validation.ts:59-60 | `2.0.01` does not coerce: a patch part written with a leading zero fails the strict parse |
| Semver.CoerceRejectsLeadingZeroMajorPart | src/validation.ts:59-60 | any text whose first digit is a `0` followed by another digit does not coerce, whatever comes before or after |
| Semver.ReadTripleOf | src/validation.ts:59-60 | three digit runs without leading zeros, joined by dots, are read back as exactly their three numbers |
| Semver.CoerceFormat | src/validation.ts:66-70 | re-reading the printed `.version` of a coerced version (as `lte` and `satisfies` do) gives back the same version |
| Semver.CoerceSkipsNonDigitPrefix | src/validation.ts:64 | characters before the first digit (such as a caret or tilde of a recorded range) do not change what a text coerces to |
| Semver.CoerceCaretFormat | src/validation.ts:25 | a caret range written for a version coerces back to exactly that version |
| PackageManifest.OrderListsEachGroupOnce | src/validation.ts:6-11 | the search order names all four dependency groups, each exactly once |
| PackageManifest.FirstHolding | src/validation.ts:14-15 | the search returns the earliest position in the order whose group holds a non-empty entry for the name, and absent only when no group from the start position on holds one |
| PackageManifest.NotFoundMeansNowhere | src/validation.ts:13-19 | a search that finds nothing means no group of the manifest holds the name |
| PackageManifest.GetDependencyVersion | src/validation.ts:13-19 | lookup is absent exactly when no group holds a non-empty entry, and otherwise returns the entry of the first such group in priority order, so later groups never matter |
| PackageManifest.UpdateDependencyVersion | src/validation.ts:21-30 | the copy rewrites only the first holding group's entry to "^" + version. Every other group, key and later duplicate is unchanged, and so are the other fields. With no holding group the result equals the input |
| PackageManifest.FirstHoldingDependsOnHolds | src/validation.ts:14-15 | two manifests whose groups hold the name alike are searched alike |
| PackageManifest.LookupDependsOnEntries | src/validation.ts:13-19 | lookup of a name depends on nothing but that name's entries in the four groups |
| PackageManifest.LookupAfterUpdate | src/validation.ts:21-30 | after updating a dependency that exists, looking it up yields exactly "^" + version |
| PackageManifest.UpdateKeepsOtherLookups | src/validation.ts:23-27 | an update leaves the lookup of every other dependency name unchanged |
| PackageManifest.LastUpdateWins | src/validation.ts:23-27 | updating the same dependency twice equals updating it once with the second version, so an update is idempotent |
| Validation.ValidateValue | src/validation.ts:32 | a prompt answer is accepted exactly when it is non-empty |
| Validation.ValidateDependency | src/validation.ts:52-56 | passes exactly when some group holds a non-empty entry for the name, and otherwise fails with "The dependency <name> doesn't exist." |
| Validation.PreviousVersion | src/validation.ts:64 | the recorded version is the coerced lookup result: a dependency that has one passes the existence check, and a name no group holds has none |
| Validation.ValidateVersion | src/validation.ts:58-75 | text that does not coerce (no digit, or a part with a leading zero) fails "not valid" whatever the manifest and latest version. Otherwise a proposal not above the recorded version fails "lower or equal", and one above both the recorded and the latest version fails "not correct". The result is success exactly when recorded < proposed <= latest |
| Validation.AcceptedVersionIsRecorded | src/index.ts:148-162 | once a version is accepted and its coerced form written, the dependency exists, looks up as "^" + that form, coerces to the accepted version, and the same proposal is then refused as not newer |
| Validation.ExistingDependencyMayLackVersion | src/validation.ts:52-66 | a dependency recorded as `latest` passes the existence check yet has no coerced version for the comparison to use |
| Validation.LeftPadPrevious | src/validation.ts:64 | the recorded `^1.0.0` of the sample manifest coerces to 1.0.0 |
| Validation.LeftPadVerdict | src/validation.ts:58-75 | against the sample manifest, any proposed text that coerces to a version v is refused as not newer up to 1.0.0, refused as not correct above the latest, and accepted in between |
| Validation.LeftPadAccepted | src/validation.ts:52-75 | `left-pad` exists and 1.2.0 is accepted with 1.3.0 published |
| Validation.LeftPadUpdated | src/validation.ts:21-30 | updating `left-pad` to 1.2.0 yields a manifest that records exactly `^1.2.0` |
| Validation.LeftPadLatestAccepted | src/validation.ts:70-74 | proposing exactly the latest published version 1.3.0 is accepted |
| Validation.LeftPadOlderRejected | src/validation.ts:66-68 | 0.9.0 is refused as lower or equal to the recorded 1.0.0 |
| Validation.LeftPadSameRejected | src/validation.ts:66-68 | 1.0.0, equal to the recorded version, is refused as lower or equal |
| Validation.LeftPadTooNewRejected | src/validation.ts:70-72 | 2.0.0, above the latest published 1.3.0, is refused as not correct |
| Validation.LeftPadLeadingZeroRejected | src/validation.ts:59-60 | `1.02` is refused as not valid, although it contains digits |
| Validation.LeftPadInvalidInputs | src/validation.ts:58-60 | `not-a-version` is refused as not valid |
| Validation.LeftPadMissingDependency | src/validation.ts:52-55 | `right-pad`, which no group holds, is reported as missing |

## Left out

- `validateWorkspace` and `validateSlug` (src/validation.ts:34-50): their result is whether a remote API call succeeds.
- src/bitbucket.ts: network wrappers over the Bitbucket REST client, with no logic of their own.
- src/index.ts, apart from the validate-then-update flow: option parsing, prompts, spinners, console styling, authentication and process exit.
- The `npm view` registry process (src/validation.ts:62): the latest published version is a parameter.
  A registry answer that does not coerce produces the range "`<prev>` - undefined" in the program. The model does not cover that case.
  If the process cannot be started (no `npm` on the path, or `npm.cmd` not found without a shell on Windows), its output is null and the program throws for every valid text before any comparison. The model assumes the process runs.
- Names that a JavaScript object inherits from `Object.prototype` are not modelled.
  For an inherited name whose value is a function (`constructor`, `toString`, ...), the program's lookup finds that function, which is truthy, and the update writes a new own entry into the first group present.
  For `__proto__` the lookup finds `Object.prototype`, which is truthy, and the update calls its setter, which ignores a string, so the copy comes back unchanged.
  The model treats only own keys as present, so it reports such a name as missing.
- Semver.Coerce does not apply the library's 16-digit limit per component or its `Number.MAX_SAFE_INTEGER` bound, which such inputs never reach in practice.
  It also does not model `coerce` of a non-string value. The library's regular expression is replaced by a left-to-right scan that finds the same match when parts have at most 16 digits.
- Pre-release and build parts are absent, because coercion drops them before any comparison.
- `structuredClone` and `JSON.stringify` are not modelled: Dafny values are immutable, so an update cannot modify its input.
  The values of non-dependency top-level fields are kept as opaque JSON text.
  A dependency group that is present but is not an object of strings is not modelled.
