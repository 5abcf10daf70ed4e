# Bwi4J identifier linter: a Dafny model

Bwi4J is a build-time rule that fails when a declared class, method or field
name contains a blacklisted term. A rule is built fluently:
`BwiRule.elements().inThesePackages(..).mustNotContainTheseTerms(..)`.
Its `check()` then walks every class of every configured package. It checks
the class's simple name first, then its declared methods, then its declared
fields. Anything annotated `@BwiIgnore` is skipped. The walk stops at the
first violation with a `BwiException`.

This project models that core as pure functions over strings and sequences:

| file | module | models |
|---|---|---|
| `outcome.dfy` | `Outcomes` | `BwiException` as `Outcome.Fail(message)`; returning normally is `Pass` |
| `term_type.dfy` | `TermTypes` | the `TermType` enum and its labels |
| `java_strings.dfy` | `JavaStrings` | `String.toLowerCase()`, `strip()` and `contains()` on the ASCII range |
| `term_checker.dfy` | `TermChecker` | `DefaultTermChecker.checkName` |
| `package_scanner.dfy` | `PackageScanner` | `DefaultPackageScanner.checkClass/checkMethods/checkFields` |
| `bwi_rule.dfy` | `BwiRule` | term normalisation, the builder, and the traversal done by `check()` |
| `scenarios.dfy` | `Scenarios` | usage scenarios of the rule, stated as lemmas over the model |

Class discovery is an input here. `discover: string -> ScanResult` gives, for
each package, either the classes the classpath scan reports (in its order) or
the message of the exception the scan threw. Each reported class either loads
(`Loaded(ClassInfo)`) or fails to load with a message (`LoadFailed`). A loaded
class is its simple name, its `@BwiIgnore` flag, and its declared methods and
fields as `(name, ignored)` pairs in reflection order.

Both configuration fields are `HashSet`s, so their iteration order is
unspecified:
- `CheckNameOver` models the loop in `checkName` over any enumeration of the
  terms. `CheckNameAnyOrder` proves that the outcome, message included, is
  the same for every enumeration.
- `Check` takes the package enumeration `order` as a parameter. Its
  `requires` says only that `order` lists exactly the configured packages.
  Its contract, and `CheckOrderIndependent`, show that pass or fail does not
  depend on that order. Which violation gets reported can depend on it, as in
  the source.

`checkName` compares the stored terms as they are. Only
`mustNotContainTheseTerms` normalises terms, so an upper-case term placed in a
`DefaultTermChecker` directly never matches (`UpperTermNeverMatches`).

## Model

| member | source | states |
|---|---|---|
| `TermTypes.Label` | src/main/java/org/bwi4j/model/TermType.java:4-13 | every category has a non-empty display label |
| `TermTypes.LabelTexts` | src/main/java/org/bwi4j/model/TermType.java:4 | the labels are exactly `Class`, `Method` and `Field` |
| `TermTypes.LabelDeterminesType` | src/main/java/org/bwi4j/model/TermType.java:4 | the three labels `Class`, `Method`, `Field` already differ in their first letter, so a label identifies its category |
| `JavaStrings.ToLower` | src/main/java/org/bwi4j/implementation/DefaultTermChecker.java:45 | lower-casing keeps the length, maps every character by ASCII lower-casing, and leaves no upper-case letter |
| `JavaStrings.Strip` | src/main/java/org/bwi4j/BwiRule.java:62 | the stripped term is a contiguous slice of the input, everything cut on either side is whitespace, and the slice has no whitespace at either end |
| `JavaStrings.StripFixpoint` | src/main/java/org/bwi4j/BwiRule.java:62 | stripping a string with no surrounding whitespace returns it unchanged |
| `JavaStrings.StripAllWhitespace` | src/main/java/org/bwi4j/BwiRule.java:62 | a whitespace-only string strips to the empty string |
| `JavaStrings.Contains` | src/main/java/org/bwi4j/implementation/DefaultTermChecker.java:45 | the left-to-right search answers true exactly when the term occurs at some position of the name (the empty term occurs everywhere) |
| `JavaStrings.UpperNeverInLower` | src/main/java/org/bwi4j/implementation/DefaultTermChecker.java:45 | a term with an upper-case letter never occurs in a lower-cased name |
| `TermChecker.Violation` | src/main/java/org/bwi4j/implementation/DefaultTermChecker.java:46 | the violation message starts with the category label and ends with the original, not lower-cased, name, with the fixed text ` name contains blacklisted term: ` between them |
| `TermChecker.CheckNameOver` | src/main/java/org/bwi4j/implementation/DefaultTermChecker.java:43-49 | the loop over the terms passes exactly when no visited term occurs in the lower-cased name; a failure always carries the message built from the label and the name |
| `TermChecker.CheckName` | src/main/java/org/bwi4j/implementation/DefaultTermChecker.java:43-49 | `checkName` fails exactly when some stored term occurs in the lower-cased name, always with `<label> name contains blacklisted term: <name>`, and never fails for an empty blacklist |
| `TermChecker.CheckNameAnyOrder` | src/main/java/org/bwi4j/implementation/DefaultTermChecker.java:44-46 | every enumeration order of the term set gives the same outcome, message included, because the message does not name the matching term |
| `TermChecker.ViolationInjective` | src/main/java/org/bwi4j/implementation/DefaultTermChecker.java:46 | equal violation messages come from the same category and the same original name |
| `TermChecker.EmptyTermRejectsEverything` | src/main/java/org/bwi4j/implementation/DefaultTermChecker.java:45 | with the empty string among the terms, every name of every category fails |
| `TermChecker.UpperTermNeverMatches` | src/main/java/org/bwi4j/implementation/DefaultTermChecker.java:45 | only the name is lower-cased, so adding a stored term that has an upper-case letter never changes the outcome |
| `TermChecker.CheckNameCaseInsensitive` | src/main/java/org/bwi4j/implementation/DefaultTermChecker.java:45 | a name fails exactly when its lower-cased form fails |
| `TermChecker.SubstringNotWholeWord` | src/main/java/org/bwi4j/implementation/DefaultTermChecker.java:45 | matching is containment: the term `test` rejects the method name `reTesting` |
| `PackageScanner.CheckClass` | src/main/java/org/bwi4j/implementation/DefaultPackageScanner.java:47-49 | the class check fails exactly when the simple name is blacklisted, and then with the `Class` message for that name |
| `PackageScanner.CheckMembers` | src/main/java/org/bwi4j/implementation/DefaultPackageScanner.java:53-59 | the member loop passes exactly when no non-ignored member has a blacklisted name (so an empty or all-ignored list passes); a failure reports the first such member in declaration order |
| `PackageScanner.CheckMethods` | src/main/java/org/bwi4j/implementation/DefaultPackageScanner.java:52-60 | passes exactly when no non-ignored declared method violates; a failure reports, with the `Method` label, the first non-ignored declared method whose name is blacklisted |
| `PackageScanner.CheckFields` | src/main/java/org/bwi4j/implementation/DefaultPackageScanner.java:63-71 | passes exactly when no non-ignored declared field violates; a failure reports, with the `Field` label, the first non-ignored declared field whose name is blacklisted |
| `PackageScanner.CheckMembersAppend` | src/main/java/org/bwi4j/implementation/DefaultPackageScanner.java:53-59 | fail-fast: once a prefix fails, members appended after it change nothing; a clean prefix hands over to the rest |
| `PackageScanner.IgnoredMemberIrrelevant` | src/main/java/org/bwi4j/implementation/DefaultPackageScanner.java:54-57 | renaming an ignored member to anything leaves the outcome unchanged |
| `BwiRule.Normalise` | src/main/java/org/bwi4j/BwiRule.java:62 | a normalised term has no upper-case letter and no surrounding whitespace |
| `BwiRule.NormaliseTrims` | src/main/java/org/bwi4j/BwiRule.java:62 | a normalised term is the lower-cased term with only surrounding whitespace removed |
| `BwiRule.NormaliseFixpoint` | src/main/java/org/bwi4j/BwiRule.java:62 | a term that is already normalised is its own normal form |
| `BwiRule.NormaliseIdempotent` | src/main/java/org/bwi4j/BwiRule.java:62 | normalising twice is normalising once |
| `BwiRule.WhitespaceNormalisesToEmpty` | src/main/java/org/bwi4j/BwiRule.java:62 | a whitespace-only term normalises to the empty term |
| `BwiRule.Elements` | src/main/java/org/bwi4j/BwiRule.java:51-53 | a new rule has no packages and no terms |
| `BwiRule.NormaliseAll` | src/main/java/org/bwi4j/BwiRule.java:61-63 | every collected term is the normal form of some supplied term |
| `BwiRule.NormaliseAllCollects` | src/main/java/org/bwi4j/BwiRule.java:61-63 | the normal form of every supplied term is collected |
| `BwiRule.InThesePackages` | src/main/java/org/bwi4j/BwiRule.java:55-58 | adds the given package names to the stored ones and leaves the terms alone |
| `BwiRule.MustNotContainTheseTerms` | src/main/java/org/bwi4j/BwiRule.java:60-66 | keeps the stored terms and adds exactly the normal forms of the supplied ones; the packages are untouched and every stored term stays normalised |
| `BwiRule.InThesePackagesIdempotent` | src/main/java/org/bwi4j/BwiRule.java:55-57 | repeating `inThesePackages` with the same arguments changes nothing |
| `BwiRule.InThesePackagesAccumulates` | src/main/java/org/bwi4j/BwiRule.java:55-57 | successive `inThesePackages` calls equal one call with both argument lists, in either order |
| `BwiRule.MustNotContainIdempotent` | src/main/java/org/bwi4j/BwiRule.java:60-65 | repeating `mustNotContainTheseTerms` with the same arguments changes nothing |
| `BwiRule.MustNotContainAccumulates` | src/main/java/org/bwi4j/BwiRule.java:60-65 | successive `mustNotContainTheseTerms` calls equal one call with both argument lists, in either order |
| `BwiRule.ResupplyStoredTerms` | src/main/java/org/bwi4j/BwiRule.java:60-64 | supplying terms that are already stored leaves the rule unchanged |
| `BwiRule.SuppliedTermsMatch` | src/main/java/org/bwi4j/BwiRule.java:60-64 | after adding terms, a name fails exactly when it failed before or the lower-cased, stripped form of some supplied term occurs in the lower-cased name |
| `BwiRule.WhitespaceTermRejectsAll` | src/main/java/org/bwi4j/BwiRule.java:60-64 | a supplied whitespace-only term makes every name of every category fail |
| `BwiRule.ScanClass` | src/main/java/org/bwi4j/BwiRule.java:86-88 | a non-ignored class passes exactly when its name and all its non-ignored members are clean; a blacklisted class name is reported even when members violate too, a violating method is reported before any field, and with a clean name and clean methods the outcome is that of the field check |
| `BwiRule.ScanClassReports` | src/main/java/org/bwi4j/BwiRule.java:86-88 | a failing class scan carries the violation message of a blacklisted name of that class: its simple name as `Class`, or a non-ignored method or field under its own category |
| `BwiRule.ScanEntry` | src/main/java/org/bwi4j/BwiRule.java:80-88 | a loaded class passes when it is ignored or clean, and otherwise ends with the outcome of its class scan, message unchanged; a class that cannot be loaded fails with the loader's message even if it is ignored, because loading comes before the annotation test |
| `BwiRule.ScanEntries` | src/main/java/org/bwi4j/BwiRule.java:79-89 | the class loop passes exactly when every entry passes; a failure is the outcome of the first failing entry, unchanged |
| `BwiRule.ScanEntriesReports` | src/main/java/org/bwi4j/BwiRule.java:79-89 | a failing class loop ends either with the message of a class that could not be loaded or with the class scan outcome of a non-ignored class from the list |
| `BwiRule.ScanEntriesAppend` | src/main/java/org/bwi4j/BwiRule.java:79-89 | fail-fast over concatenated class lists |
| `BwiRule.IgnoredClassSkipped` | src/main/java/org/bwi4j/BwiRule.java:81-84 | removing an ignored class from the discovered classes never changes the outcome, whatever its names |
| `BwiRule.ScanPackage` | src/main/java/org/bwi4j/BwiRule.java:74-94 | a package passes exactly when its scan succeeds and every class passes; a package with no classes passes; a scan failure, and any failure of the class loop, is rethrown with the same message |
| `BwiRule.EmptyPackageContinues` | src/main/java/org/bwi4j/BwiRule.java:76-77 | a package with no classes is skipped and the loop continues with the next package |
| `BwiRule.CheckPackages` | src/main/java/org/bwi4j/BwiRule.java:71-95 | the package loop passes exactly when every visited package is clean; a failure is the outcome of the first failing package, message unchanged |
| `BwiRule.Check` | src/main/java/org/bwi4j/BwiRule.java:68-96 | `check()` passes exactly when every configured package is clean; a failure is the failure of the first package in the enumeration order that is not clean, with its message unchanged |
| `BwiRule.CheckReports` | src/main/java/org/bwi4j/BwiRule.java:71-95 | when `check()` fails, its message is unchanged from the source of the failure in a configured package: the failed scan's message, an unloadable class's message, or the class scan outcome of a non-ignored class found there |
| `BwiRule.CheckOrderIndependent` | src/main/java/org/bwi4j/BwiRule.java:71 | whether `check()` passes does not depend on the order in which the package set is enumerated |
| `Scenarios.TempRuleTerms` | src/main/java/org/bwi4j/BwiRule.java:60-64 | the supplied term `Temp` is stored as `temp` |
| `Scenarios.TempServiceScan` | src/main/java/org/bwi4j/implementation/DefaultPackageScanner.java:47-49 | the class scan of `TempService` under the stored term `temp` stops at the class name with the `Class` message |
| `Scenarios.ScenarioClassName` | src/main/java/org/bwi4j/implementation/DefaultPackageScanner.java:47-49 | a class `TempService` under the term `Temp` fails with `Class name contains blacklisted term: TempService` |
| `Scenarios.ScenarioMethod` | src/main/java/org/bwi4j/implementation/DefaultPackageScanner.java:53-59 | a clean class with the non-ignored method `computeTempValue` fails with the `Method` message for that name |
| `Scenarios.ScenarioIgnoredMethod` | src/main/java/org/bwi4j/implementation/DefaultPackageScanner.java:54-57 | the same method marked ignored lets `check()` pass |
| `Scenarios.NoTermsOnlyDiscoveryFails` | src/main/java/org/bwi4j/implementation/DefaultTermChecker.java:44 | with no terms configured, `check()` fails only when a scan throws or a class cannot be loaded |
| `Scenarios.ScenarioEmptyThenField` | src/main/java/org/bwi4j/BwiRule.java:76-79 | an empty first package is passed over and the violating field `tempCache` in the second package is reported |
| `Scenarios.ScenarioFieldThenEmpty` | src/main/java/org/bwi4j/BwiRule.java:71-95 | with the packages enumerated the other way round, the same field violation is reported |

## Left out

- Class discovery: the ClassGraph scan, the `ScanResult` resource and its release, and `loadClass()` are foreign library calls. Their results are the input `discover`, and their exceptions are the `ScanFailed` and `LoadFailed` cases.
- Java reflection (`getSimpleName`, `getDeclaredMethods`, `getDeclaredFields`, `isAnnotationPresent`) is replaced by record fields and boolean ignored flags. Member order is whatever sequence the input gives, since the JVM does not specify it.
- `@BwiIgnore` (org/bwi4j/annotation/BwiIgnore.java) and the `TermChecker` interface (org/bwi4j/TermChecker.java) are not part of this model. The annotation is only a flag here, and the interface has no behaviour.
- The `PackageScanner` interface (src/main/java/org/bwi4j/PackageScanner.java:5-11) declares the three scanner operations and has no behaviour of its own.
- Logging (the FINE, INFO, WARNING and SEVERE traces) is observability only and is not modelled.
- `JavaStrings.ToLower`: does not model Unicode or locale-dependent case mapping (for example the Turkish dotless i). Only `A`..`Z` are lower-cased.
- `JavaStrings.Strip`: does not model non-ASCII whitespace. Only the ASCII characters for which `Character.isWhitespace` holds are stripped.
- Exception cause chaining is not modelled. Only the message is kept: the cause that `getCause()` returns (src/main/java/org/bwi4j/BwiRule.java:93) is dropped, so a discovery error whose text looks like a violation message is indistinguishable from a violation. Java's `getMessage()` may return null; that case is not modelled.
- Null arguments are not modelled, since `seq<string>` holds no null. A null term makes `mustNotContainTheseTerms` throw at `term.toLowerCase()` (src/main/java/org/bwi4j/BwiRule.java:62) and store nothing. A null package array makes `inThesePackages` throw at `Arrays.asList` (src/main/java/org/bwi4j/BwiRule.java:56). A null package name is stored and reaches the scan at src/main/java/org/bwi4j/BwiRule.java:74.
- Builder aliasing: `inThesePackages` and `mustNotContainTheseTerms` update the rule in place and return `this` (src/main/java/org/bwi4j/BwiRule.java:56-57, 64-65). Here the builder is an immutable value, so two rules derived from one builder sharing their configuration, and a call whose result is discarded still configuring the rule, are not modelled.
- Reflection failures such as a `NoClassDefFoundError` from `getDeclaredMethods` or `getDeclaredFields` (src/main/java/org/bwi4j/implementation/DefaultPackageScanner.java:53, 64), and any other `java.lang.Error`, escape the `catch (Exception e)` of `check()` (src/main/java/org/bwi4j/BwiRule.java:91) unwrapped and are not modelled.
