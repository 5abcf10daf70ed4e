/** Usage scenarios of the rule, stated over the model: a
    configuration built through the fluent calls, a discovery result, and the
    outcome `check()` reaches. */
module Scenarios {
  import opened Outcomes
  import opened TermTypes
  import opened JavaStrings
  import opened TermChecker
  import opened PackageScanner
  import opened BwiRule

  /** `elements().inThesePackages(pkgs).mustNotContainTheseTerms("Temp")`. */
  function TempRule(pkgs: seq<string>): Rule {
    MustNotContainTheseTerms(InThesePackages(Elements(), pkgs), ["Temp"])
  }

  /** Discovery that finds `classes` in `com.acme` and nothing elsewhere. */
  function AcmeHolds(classes: seq<ClassEntry>): string -> ScanResult {
    p => if p == "com.acme" then Scanned(classes) else Scanned([])
  }

  /** The supplied term "Temp" normalises to "temp". */
  lemma NormaliseTemp()
    ensures Normalise("Temp") == "temp"
  {
    assert ToLower("Temp") == "temp";
    StripFixpoint("temp");
  }

  /** The packages of the rule are stored as given. */
  lemma TempRulePackages(pkgs: seq<string>)
    ensures forall p :: p in TempRule(pkgs).packages <==> p in pkgs
  {
  }

  /** The rule stores exactly the normal form of "Temp". */
  lemma TempRuleNormalForms(pkgs: seq<string>)
    ensures TempRule(pkgs).terms == {Normalise("Temp")}
  {
    var r0 := InThesePackages(Elements(), pkgs);
    assert r0.terms == {};
    MustNotContainStores(r0, ["Temp"]);
    NormaliseAllSingleton("Temp");
  }

  /** The configured term "Temp" is stored as "temp", and the packages are
      stored as given. */
  lemma TempRuleTerms(pkgs: seq<string>)
    ensures TempRule(pkgs).terms == {"temp"}
    ensures forall p :: p in TempRule(pkgs).packages <==> p in pkgs
  {
    TempRulePackages(pkgs);
    TempRuleNormalForms(pkgs);
    NormaliseTemp();
  }

  /** A class called `TempService` with no members. */
  function TempService(): ClassInfo {
    ClassInfo("TempService", false, [], [])
  }

  /** Its simple name contains "temp", so the class scan stops there with a
      `Class` message. */
  lemma TempServiceScan()
    ensures ScanClass({"temp"}, TempService()) == Fail(Violation(Class, "TempService"))
  {
    var l := ToLower("TempService");
    assert l[0..4] == "temp";
    assert OccursAt("temp", l, 0);
    assert Blacklisted({"temp"}, "TempService");
  }

  /** A class called `TempService` fails the check on its class name. */
  lemma ScenarioClassName()
    ensures Check(TempRule(["com.acme"]), ["com.acme"], AcmeHolds([Loaded(TempService())]))
            == Fail(Violation(Class, "TempService"))
  {
    TempRuleTerms(["com.acme"]);
    TempServiceScan();
    ScanEntriesSingle({"temp"}, Loaded(TempService()));
    CheckPackagesSingle({"temp"}, "com.acme", AcmeHolds([Loaded(TempService())]));
  }

  /** The class of the next two scenarios: a clean name and one method whose
      name contains "Temp". */
  function Payment(methodIgnored: bool): ClassInfo {
    ClassInfo("PaymentService", false, [Member("computeTempValue", methodIgnored)], [])
  }

  lemma PaymentNameClean()
    ensures !Blacklisted({"temp"}, "PaymentService")
  {
    var s := ToLower("PaymentService");
    assert s == "paymentservice";
    forall i | 0 <= i <= |s| - 4
      ensures !OccursAt("temp", s, i)
    {
      assert s[i] != 't' || s[i + 1] != 'e';
    }
  }

  lemma CacheNameClean()
    ensures !Blacklisted({"temp"}, "Cache")
  {
    var s := ToLower("Cache");
    assert s == "cache";
    forall i | 0 <= i <= |s| - 4
      ensures !OccursAt("temp", s, i)
    {
      assert s[i] != 't';
    }
  }

  /** The method name `computeTempValue` violates, so the class scan stops
      there with a `Method` message. */
  lemma PaymentScan()
    ensures ScanClass({"temp"}, Payment(false)) == Fail(Violation(Method, "computeTempValue"))
  {
    var c := Payment(false);
    PaymentNameClean();
    var l := ToLower("computeTempValue");
    assert l[7..11] == "temp";
    assert OccursAt("temp", l, 7);
    assert MemberViolates({"temp"}, c.methods[0]);
    assert CheckMembers({"temp"}, Method, c.methods) == Fail(Violation(Method, "computeTempValue"));
  }

  /** A non-exempt method `computeTempValue` fails the check as a method. */
  lemma ScenarioMethod()
    ensures Check(TempRule(["com.acme"]), ["com.acme"], AcmeHolds([Loaded(Payment(false))]))
            == Fail(Violation(Method, "computeTempValue"))
  {
    TempRuleTerms(["com.acme"]);
    PaymentScan();
    ScanEntriesSingle({"temp"}, Loaded(Payment(false)));
    CheckPackagesSingle({"temp"}, "com.acme", AcmeHolds([Loaded(Payment(false))]));
  }

  /** The same method marked `@BwiIgnore` lets the check pass. */
  lemma ScenarioIgnoredMethod()
    ensures Check(TempRule(["com.acme"]), ["com.acme"], AcmeHolds([Loaded(Payment(true))])) == Pass
  {
    TempRuleTerms(["com.acme"]);
    var c := Payment(true);
    PaymentNameClean();
    assert ClassClean({"temp"}, c);
    ScanEntriesSingle({"temp"}, Loaded(c));
    CheckPackagesSingle({"temp"}, "com.acme", AcmeHolds([Loaded(c)]));
  }

  /** With no terms configured nothing can violate: the check fails only
      when a scan throws or a class cannot be loaded. */
  lemma {:induction false} NoTermsOnlyDiscoveryFails(rule: Rule, order: seq<string>, discover: string -> ScanResult)
    requires rule.terms == {}
    requires forall p :: p in order <==> p in rule.packages
    ensures Check(rule, order, discover).Pass? <==>
              forall p :: p in rule.packages ==>
                discover(p).Scanned? && forall i :: 0 <= i < |discover(p).classes| ==> discover(p).classes[i].Loaded?
  {
    forall c: ClassInfo
      ensures ClassClean({}, c)
    {
    }
  }

  /** The class of the last scenario: a clean name and a field whose name
      starts with "temp". */
  function CacheHolder(): ClassInfo {
    ClassInfo("Cache", false, [], [Member("tempCache", false)])
  }

  lemma CacheHolderScan()
    ensures ScanClass({"temp"}, CacheHolder()) == Fail(Violation(Field, "tempCache"))
  {
    var c := CacheHolder();
    CacheNameClean();
    var l := ToLower("tempCache");
    assert l[0..4] == "temp";
    assert OccursAt("temp", l, 0);
    assert MemberViolates({"temp"}, c.fields[0]);
    assert CheckMembers({"temp"}, Field, c.fields) == Fail(Violation(Field, "tempCache"));
  }

  /** Discovery for the last scenario: `com.acme` holds the cache class. */
  function CacheDiscovery(): string -> ScanResult {
    AcmeHolds([Loaded(CacheHolder())])
  }

  lemma CacheDiscoveryFails()
    ensures CheckPackages({"temp"}, ["com.acme"], CacheDiscovery()) == Fail(Violation(Field, "tempCache"))
  {
    CacheHolderScan();
    ScanEntriesSingle({"temp"}, Loaded(CacheHolder()));
    CheckPackagesSingle({"temp"}, "com.acme", CacheDiscovery());
  }

  /** Two packages, the first empty: the check goes on to the second and
      reports the violating field found there. */
  lemma ScenarioEmptyThenField()
    ensures Check(TempRule(["com.empty", "com.acme"]), ["com.empty", "com.acme"], CacheDiscovery())
            == Fail(Violation(Field, "tempCache"))
  {
    TempRuleTerms(["com.empty", "com.acme"]);
    var order := ["com.empty", "com.acme"];
    assert CacheDiscovery()(order[0]) == Scanned([]);
    EmptyPackageContinues({"temp"}, order, CacheDiscovery());
    assert order[1..] == ["com.acme"];
    CacheDiscoveryFails();
  }

  /** The package set is a hash set, so `com.acme` may just as well come
      first: the same field violation is reported, and the empty package is
      never reached. */
  lemma ScenarioFieldThenEmpty()
    ensures Check(TempRule(["com.empty", "com.acme"]), ["com.acme", "com.empty"], CacheDiscovery())
            == Fail(Violation(Field, "tempCache"))
  {
    TempRuleTerms(["com.empty", "com.acme"]);
    var order := ["com.acme", "com.empty"];
    CacheHolderScan();
    ScanEntriesSingle({"temp"}, Loaded(CacheHolder()));
    assert ScanPackage({"temp"}, CacheDiscovery()(order[0])) == Fail(Violation(Field, "tempCache"));
  }
}
