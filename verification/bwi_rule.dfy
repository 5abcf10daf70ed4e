/** `BwiRule`: the fluent rule builder and the `check()` traversal.  Class
    discovery (a classpath scan per package, then loading each class) is an
    input: `discover` maps a package name to what the scan of that package
    yields. */
module BwiRule {
  import opened Outcomes
  import opened TermTypes
  import opened JavaStrings
  import opened TermChecker
  import opened PackageScanner

  // ---------------------------------------------------------------------
  // Term normalisation

  /** The form every stored term has: no upper-case letter and no whitespace
      at either end. */
  predicate IsNormalised(t: string) {
    !HasUpper(t) && IsStripped(t)
  }

  /** `term.toLowerCase().strip()`. */
  function Normalise(t: string): (r: string)
    ensures IsNormalised(r)
  {
    var l := ToLower(t);
    var r := Strip(l);
    assert !HasUpper(r) by {
      var i :| OccursAt(r, l, i);
      NoUpperInSlice(l, i, i + |r|);
    }
    r
  }

  /** What normalisation keeps: the lower-cased term minus the whitespace
      around it, all of which is cut. */
  lemma NormaliseTrims(t: string)
    ensures exists i :: OccursAt(Normalise(t), ToLower(t), i)
                        && AllWhitespace(ToLower(t)[..i]) && AllWhitespace(ToLower(t)[i + |Normalise(t)|..])
  {
    assert Normalise(t) == Strip(ToLower(t));
  }

  /** A normalised term is its own normal form. */
  lemma NormaliseFixpoint(t: string)
    requires IsNormalised(t)
    ensures Normalise(t) == t
  {
    ToLowerFixpoint(t);
    StripFixpoint(t);
  }

  lemma NormaliseIdempotent(t: string)
    ensures Normalise(Normalise(t)) == Normalise(t)
  {
    NormaliseFixpoint(Normalise(t));
  }

  /** A term made only of whitespace normalises to the empty term. */
  lemma WhitespaceNormalisesToEmpty(t: string)
    requires AllWhitespace(t)
    ensures Normalise(t) == ""
  {
    var l := ToLower(t);
    forall k | 0 <= k < |l|
      ensures IsWhitespace(l[k])
    {
      LowerCharWhitespace(t[k]);
    }
    StripAllWhitespace(l);
  }

  // ---------------------------------------------------------------------
  // The builder

  /** The configuration a rule accumulates: the packages to scan and the
      normalised blacklisted terms, both hash sets. */
  datatype Rule = Rule(packages: set<string>, terms: set<string>)

  /** Every stored term has been normalised. */
  ghost predicate WellFormed(rule: Rule) {
    forall t :: t in rule.terms ==> IsNormalised(t)
  }

  /** `elements()`: a rule with nothing configured. */
  function Elements(): (r: Rule)
    ensures r.packages == {} && r.terms == {}
    ensures WellFormed(r)
  {
    Rule({}, {})
  }

  /** `inThesePackages(..)`: adds the given package names, as given. */
  function InThesePackages(rule: Rule, pkgs: seq<string>): (r: Rule)
    ensures r.terms == rule.terms
    ensures forall p :: p in r.packages <==> p in rule.packages || p in pkgs
  {
    rule.(packages := rule.packages + set p | p in pkgs)
  }

  /** `mustNotContainTheseTerms(..)`: adds the normal form of each given
      term.  The terms already stored stay, every new term is the normal
      form of a supplied one, and the rule stays well formed. */
  function MustNotContainTheseTerms(rule: Rule, ts: seq<string>): (r: Rule)
    ensures r.packages == rule.packages
    ensures forall t :: t in r.terms <==>
              t in rule.terms || exists u :: u in ts && t == Normalise(u)
    ensures WellFormed(rule) ==> WellFormed(r)
  {
    rule.(terms := rule.terms + NormaliseAll(ts))
  }

  /** The normal forms of the supplied terms, as the stream in
      `mustNotContainTheseTerms` collects them. */
  function NormaliseAll(ts: seq<string>): (r: set<string>)
    ensures forall t :: t in r ==> exists u :: u in ts && t == Normalise(u)
  {
    set u | u in ts :: Normalise(u)
  }

  /** No supplied term is lost: the normal form of each one is collected. */
  lemma NormaliseAllCollects(ts: seq<string>)
    ensures forall u :: u in ts ==> Normalise(u) in NormaliseAll(ts)
  {
  }

  /** A single supplied term contributes exactly its normal form. */
  lemma NormaliseAllSingleton(t: string)
    ensures NormaliseAll([t]) == {Normalise(t)}
  {
    assert t in [t];
  }

  /** The stored terms after `mustNotContainTheseTerms`, as one set. */
  lemma MustNotContainStores(rule: Rule, ts: seq<string>)
    ensures MustNotContainTheseTerms(rule, ts).terms == rule.terms + NormaliseAll(ts)
  {
  }

  /** Repeating `inThesePackages` with the same arguments changes nothing. */
  lemma InThesePackagesIdempotent(rule: Rule, pkgs: seq<string>)
    ensures InThesePackages(InThesePackages(rule, pkgs), pkgs) == InThesePackages(rule, pkgs)
  {
  }

  /** Successive `inThesePackages` calls accumulate, in either order. */
  lemma InThesePackagesAccumulates(rule: Rule, a: seq<string>, b: seq<string>)
    ensures InThesePackages(InThesePackages(rule, a), b) == InThesePackages(rule, a + b)
    ensures InThesePackages(InThesePackages(rule, a), b) == InThesePackages(InThesePackages(rule, b), a)
  {
  }

  /** Repeating `mustNotContainTheseTerms` with the same arguments changes
      nothing. */
  lemma MustNotContainIdempotent(rule: Rule, ts: seq<string>)
    ensures MustNotContainTheseTerms(MustNotContainTheseTerms(rule, ts), ts) == MustNotContainTheseTerms(rule, ts)
  {
  }

  /** Successive `mustNotContainTheseTerms` calls accumulate, in either
      order. */
  lemma MustNotContainAccumulates(rule: Rule, a: seq<string>, b: seq<string>)
    ensures MustNotContainTheseTerms(MustNotContainTheseTerms(rule, a), b) == MustNotContainTheseTerms(rule, a + b)
    ensures MustNotContainTheseTerms(MustNotContainTheseTerms(rule, a), b)
            == MustNotContainTheseTerms(MustNotContainTheseTerms(rule, b), a)
  {
    assert NormaliseAll(a + b) == NormaliseAll(a) + NormaliseAll(b);
  }

  /** Supplying terms that are already stored changes nothing, because
      they are already normalised. */
  lemma ResupplyStoredTerms(rule: Rule, ts: seq<string>)
    requires WellFormed(rule)
    requires forall i :: 0 <= i < |ts| ==> ts[i] in rule.terms
    ensures MustNotContainTheseTerms(rule, ts) == rule
  {
    forall i | 0 <= i < |ts|
      ensures Normalise(ts[i]) in rule.terms
    {
      NormaliseFixpoint(ts[i]);
    }
  }

  /** End to end: after `mustNotContainTheseTerms(ts)`, a name fails exactly
      when it failed before or the normal form of some supplied term occurs
      in the lower-cased name. */
  lemma SuppliedTermsMatch(rule: Rule, ts: seq<string>, kind: TermType, name: string)
    ensures CheckName(MustNotContainTheseTerms(rule, ts).terms, kind, name).Fail? <==>
              CheckName(rule.terms, kind, name).Fail?
              || exists u :: u in ts && IsSubstring(Normalise(u), ToLower(name))
  {
    var r := MustNotContainTheseTerms(rule, ts);
    if Blacklisted(r.terms, name) && !Blacklisted(rule.terms, name) {
      var t :| t in r.terms && IsSubstring(t, ToLower(name));
      var u :| u in ts && t == Normalise(u);
    }
    if exists u :: u in ts && IsSubstring(Normalise(u), ToLower(name)) {
      var u :| u in ts && IsSubstring(Normalise(u), ToLower(name));
      assert Normalise(u) in r.terms;
    }
  }

  /** A supplied term made only of whitespace is stored as the empty term,
      after which every name of every category is a violation. */
  lemma WhitespaceTermRejectsAll(rule: Rule, ts: seq<string>, i: nat, kind: TermType, name: string)
    requires i < |ts| && AllWhitespace(ts[i])
    ensures CheckName(MustNotContainTheseTerms(rule, ts).terms, kind, name) == Fail(Violation(kind, name))
  {
    WhitespaceNormalisesToEmpty(ts[i]);
    EmptyTermRejectsEverything(MustNotContainTheseTerms(rule, ts).terms, kind, name);
  }

  // ---------------------------------------------------------------------
  // check()

  /** One class reported by the scan: either it loads, or `loadClass()`
      throws with a message. */
  datatype ClassEntry = Loaded(info: ClassInfo) | LoadFailed(message: string)

  /** The scan of one package: the classes it found, in the order reported,
      or the message of the exception the scan itself threw. */
  datatype ScanResult = Scanned(classes: seq<ClassEntry>) | ScanFailed(message: string)

  /** Reference meaning of a clean class: neither its simple name nor any
      non-exempt method or field name is blacklisted. */
  ghost predicate ClassClean(terms: set<string>, c: ClassInfo) {
    && !Blacklisted(terms, c.simpleName)
    && (forall i :: 0 <= i < |c.methods| ==> !MemberViolates(terms, c.methods[i]))
    && (forall i :: 0 <= i < |c.fields| ==> !MemberViolates(terms, c.fields[i]))
  }

  /** A class entry passes when it loads and is either exempt or clean. */
  ghost predicate EntryClean(terms: set<string>, e: ClassEntry) {
    e.Loaded? && (e.info.ignored || ClassClean(terms, e.info))
  }

  /** A package passes when its scan succeeds and every entry passes. */
  ghost predicate PackageClean(terms: set<string>, s: ScanResult) {
    s.Scanned? && forall i :: 0 <= i < |s.classes| ==> EntryClean(terms, s.classes[i])
  }

  /** The three scanner calls for one non-exempt class: class name, then
      methods, then fields, stopping at the first violation.  A blacklisted
      class name is what gets reported even when members violate too, a
      violating method is reported before any field, and only with a clean
      name and clean methods does the field check decide. */
  function ScanClass(terms: set<string>, c: ClassInfo): (r: Outcome)
    ensures r.Pass? <==> ClassClean(terms, c)
    ensures Blacklisted(terms, c.simpleName) ==> r == Fail(Violation(Class, c.simpleName))
    ensures !Blacklisted(terms, c.simpleName) && (exists i :: 0 <= i < |c.methods| && MemberViolates(terms, c.methods[i]))
            ==> r == CheckMethods(terms, c)
    ensures !Blacklisted(terms, c.simpleName) && (forall i :: 0 <= i < |c.methods| ==> !MemberViolates(terms, c.methods[i]))
            ==> r == CheckFields(terms, c)
  {
    CheckClass(terms, c).AndThen(CheckMethods(terms, c)).AndThen(CheckFields(terms, c))
  }

  /** A failing class scan reports a blacklisted name of the class itself:
      its simple name as a `Class`, or a non-exempt method or field under
      its own category. */
  lemma ScanClassReports(terms: set<string>, c: ClassInfo)
    ensures ScanClass(terms, c).Fail? ==>
      || (Blacklisted(terms, c.simpleName) && ScanClass(terms, c) == Fail(Violation(Class, c.simpleName)))
      || (exists i :: 0 <= i < |c.methods| && MemberViolates(terms, c.methods[i])
                      && ScanClass(terms, c) == Fail(Violation(Method, c.methods[i].name)))
      || (exists i :: 0 <= i < |c.fields| && MemberViolates(terms, c.fields[i])
                      && ScanClass(terms, c) == Fail(Violation(Field, c.fields[i].name)))
  {
  }

  /** The body of the loop over discovered classes.  The class is loaded
      before its exemption is looked at, so a class that fails to load fails
      the check with the loader's message even if it is exempt; an exempt
      class that loads passes whatever its names. */
  function ScanEntry(terms: set<string>, e: ClassEntry): (r: Outcome)
    ensures r.Pass? <==> EntryClean(terms, e)
    ensures e.LoadFailed? ==> r == Fail(e.message)
    ensures e.Loaded? && e.info.ignored ==> r == Pass
    ensures e.Loaded? && !e.info.ignored ==> r == ScanClass(terms, e.info)
  {
    match e
    case LoadFailed(msg) => Fail(msg)
    case Loaded(c) => if c.ignored then Pass else ScanClass(terms, c)
  }

  /** The loop over the classes of one package: fails exactly when some
      entry fails, and then with the outcome of the first failing entry. */
  function ScanEntries(terms: set<string>, es: seq<ClassEntry>): (r: Outcome)
    ensures r.Pass? <==> forall i :: 0 <= i < |es| ==> EntryClean(terms, es[i])
    ensures r.Fail? ==>
      exists i :: 0 <= i < |es| && !EntryClean(terms, es[i]) && r == ScanEntry(terms, es[i])
                  && forall j :: 0 <= j < i ==> EntryClean(terms, es[j])
  {
    if es == [] then Pass
    else
      var first := ScanEntry(terms, es[0]);
      if first.Fail? then first
      else
        var r := ScanEntries(terms, es[1..]);
        assert forall i :: 1 <= i < |es| ==> es[i] == es[1..][i - 1];
        assert r.Fail? ==> exists i :: 0 <= i < |es| && !EntryClean(terms, es[i]) && r == ScanEntry(terms, es[i])
                                       && forall j :: 0 <= j < i ==> EntryClean(terms, es[j]) by {
          if r.Fail? {
            var i :| 0 <= i < |es[1..]| && !EntryClean(terms, es[1..][i]) && r == ScanEntry(terms, es[1..][i])
                     && forall j :: 0 <= j < i ==> EntryClean(terms, es[1..][j]);
            assert !EntryClean(terms, es[i + 1]);
          }
        }
        r
  }

  /** A failing class loop fails either with the message of a class that
      could not be loaded or with the class scan of a non-exempt class. */
  lemma ScanEntriesReports(terms: set<string>, es: seq<ClassEntry>)
    ensures ScanEntries(terms, es).Fail? ==>
      exists i :: 0 <= i < |es|
                  && ((es[i].LoadFailed? && ScanEntries(terms, es) == Fail(es[i].message))
                      || (es[i].Loaded? && !es[i].info.ignored && ScanEntries(terms, es) == ScanClass(terms, es[i].info)))
  {
  }

  /** The scan of one package inside its try block.  A package with no
      classes only logs a warning and passes; an exception from the scan or
      from the checks is rethrown as a `BwiException` with the same message. */
  function ScanPackage(terms: set<string>, s: ScanResult): (r: Outcome)
    ensures r.Pass? <==> PackageClean(terms, s)
    ensures s == Scanned([]) ==> r == Pass
    ensures s.ScanFailed? ==> r == Fail(s.message)
    ensures s.Scanned? ==> r == ScanEntries(terms, s.classes)
  {
    match s
    case ScanFailed(msg) => Fail(msg)
    case Scanned(classes) =>
      if classes == [] then Pass else ScanEntries(terms, classes)
  }

  /** The loop over the configured packages, visited in the order `order`:
      fails exactly when some package fails, and then with the outcome of
      the first failing package. */
  function CheckPackages(terms: set<string>, order: seq<string>, discover: string -> ScanResult): (r: Outcome)
    ensures r.Pass? <==> forall i :: 0 <= i < |order| ==> PackageClean(terms, discover(order[i]))
    ensures r.Fail? ==>
      exists i :: 0 <= i < |order| && r == ScanPackage(terms, discover(order[i]))
                  && forall j :: 0 <= j < i ==> PackageClean(terms, discover(order[j]))
  {
    if order == [] then Pass
    else
      var first := ScanPackage(terms, discover(order[0]));
      if first.Fail? then first
      else
        var r := CheckPackages(terms, order[1..], discover);
        assert forall i :: 1 <= i < |order| ==> order[i] == order[1..][i - 1];
        assert r.Fail? ==> exists i :: 0 <= i < |order| && r == ScanPackage(terms, discover(order[i]))
                                       && forall j :: 0 <= j < i ==> PackageClean(terms, discover(order[j])) by {
          if r.Fail? {
            var i :| 0 <= i < |order[1..]| && r == ScanPackage(terms, discover(order[1..][i]))
                     && forall j :: 0 <= j < i ==> PackageClean(terms, discover(order[1..][j]));
            assert r == ScanPackage(terms, discover(order[i + 1]));
          }
        }
        r
  }

  /** `check()`, with `order` the order in which the package hash set is
      enumerated.  It passes exactly when every configured package is clean,
      whatever that order, and a failure is the outcome, message unchanged,
      of the first package in `order` that is not clean. */
  function Check(rule: Rule, order: seq<string>, discover: string -> ScanResult): (r: Outcome)
    requires forall p :: p in order <==> p in rule.packages
    ensures r.Pass? <==> forall p :: p in rule.packages ==> PackageClean(rule.terms, discover(p))
    ensures r.Fail? ==> exists p :: p in rule.packages && r == ScanPackage(rule.terms, discover(p))
    ensures r.Fail? ==>
      exists i :: 0 <= i < |order| && r == ScanPackage(rule.terms, discover(order[i]))
                  && forall j :: 0 <= j < i ==> PackageClean(rule.terms, discover(order[j]))
  {
    var r := CheckPackages(rule.terms, order, discover);
    assert r.Pass? ==> forall p :: p in rule.packages ==> PackageClean(rule.terms, discover(p)) by {
      if r.Pass? {
        forall p | p in rule.packages
          ensures PackageClean(rule.terms, discover(p))
        {
          var i :| 0 <= i < |order| && order[i] == p;
        }
      }
    }
    r
  }

  /** The exception `check()` ends with carries a message from its source
      unchanged: the message of a failed package scan, of a class that could
      not be loaded, or the violation found in a non-exempt class of a
      configured package. */
  lemma CheckReports(rule: Rule, order: seq<string>, discover: string -> ScanResult)
    requires forall p :: p in order <==> p in rule.packages
    ensures Check(rule, order, discover).Fail? ==>
      exists p :: p in rule.packages &&
        ((discover(p).ScanFailed? && Check(rule, order, discover) == Fail(discover(p).message))
         || (discover(p).Scanned? &&
            exists i :: 0 <= i < |discover(p).classes|
              && ((discover(p).classes[i].LoadFailed? && Check(rule, order, discover) == Fail(discover(p).classes[i].message))
                  || (discover(p).classes[i].Loaded? && !discover(p).classes[i].info.ignored
                      && Check(rule, order, discover) == ScanClass(rule.terms, discover(p).classes[i].info)))))
  {
    var r := Check(rule, order, discover);
    if r.Fail? {
      var p :| p in rule.packages && r == ScanPackage(rule.terms, discover(p));
      if discover(p).Scanned? {
        ScanEntriesReports(rule.terms, discover(p).classes);
      }
    }
  }

  /** Whether `check()` passes does not depend on the order in which the
      packages are visited. */
  lemma CheckOrderIndependent(rule: Rule, o1: seq<string>, o2: seq<string>, discover: string -> ScanResult)
    requires forall p :: p in o1 <==> p in rule.packages
    requires forall p :: p in o2 <==> p in rule.packages
    ensures Check(rule, o1, discover).Pass? <==> Check(rule, o2, discover).Pass?
  {
  }

  /** Fail-fast over a concatenation of class lists. */
  lemma {:induction false} ScanEntriesAppend(terms: set<string>, a: seq<ClassEntry>, b: seq<ClassEntry>)
    ensures ScanEntries(terms, a + b)
            == if ScanEntries(terms, a).Fail? then ScanEntries(terms, a) else ScanEntries(terms, b)
    decreases |a|
  {
    if a == [] {
      assert a + b == b;
    } else {
      assert (a + b)[0] == a[0];
      assert (a + b)[1..] == a[1..] + b;
      ScanEntriesAppend(terms, a[1..], b);
    }
  }

  /** An exempt class is skipped entirely: removing it from the discovered
      classes changes nothing, whatever its name, methods and fields. */
  lemma IgnoredClassSkipped(terms: set<string>, a: seq<ClassEntry>, c: ClassInfo, b: seq<ClassEntry>)
    requires c.ignored
    ensures ScanEntries(terms, a + [Loaded(c)] + b) == ScanEntries(terms, a + b)
  {
    var cb := [Loaded(c)] + b;
    assert cb[0] == Loaded(c) && cb[1..] == b;
    assert ScanEntry(terms, Loaded(c)) == Pass;
    assert ScanEntries(terms, cb) == ScanEntries(terms, b);
    ScanEntriesAppend(terms, a, cb);
    ScanEntriesAppend(terms, a, b);
    assert a + [Loaded(c)] + b == a + cb;
  }

  /** The loop over a single class. */
  lemma ScanEntriesSingle(terms: set<string>, e: ClassEntry)
    ensures ScanEntries(terms, [e]) == ScanEntry(terms, e)
  {
    assert [e][1..] == [];
  }

  /** The loop over a single package is that package's scan. */
  lemma CheckPackagesSingle(terms: set<string>, p: string, discover: string -> ScanResult)
    ensures CheckPackages(terms, [p], discover) == ScanPackage(terms, discover(p))
  {
    assert [p][1..] == [];
  }

  /** A package without classes is not an error, and scanning continues
      with the next package. */
  lemma EmptyPackageContinues(terms: set<string>, order: seq<string>, discover: string -> ScanResult)
    requires |order| > 0 && discover(order[0]) == Scanned([])
    ensures CheckPackages(terms, order, discover) == CheckPackages(terms, order[1..], discover)
  {
  }
}
