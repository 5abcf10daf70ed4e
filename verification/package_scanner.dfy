/** `DefaultPackageScanner`: applies the term checker to one loaded class.
    Reflection is replaced by plain data: a class is its simple name, whether
    it carries `@BwiIgnore`, and its directly declared methods and fields in
    the order reflection reports them. */
module PackageScanner {
  import opened Outcomes
  import opened TermTypes
  import opened TermChecker

  /** A declared method or field: its name and whether it carries
      `@BwiIgnore`. */
  datatype Member = Member(name: string, ignored: bool)

  datatype ClassInfo = ClassInfo(
    simpleName: string,
    ignored: bool,
    methods: seq<Member>,
    fields: seq<Member>)

  /** A member that makes the scan fail: it is not exempt and its name is
      blacklisted. */
  ghost predicate MemberViolates(terms: set<string>, m: Member) {
    !m.ignored && Blacklisted(terms, m.name)
  }

  /** `checkClass`: the simple name is checked once, as a `Class`. */
  function CheckClass(terms: set<string>, c: ClassInfo): (r: Outcome)
    ensures r.Fail? <==> Blacklisted(terms, c.simpleName)
    ensures r.Fail? ==> r.message == Violation(Class, c.simpleName)
  {
    CheckName(terms, Class, c.simpleName)
  }

  /** The loop shared by `checkMethods` and `checkFields`: skip exempt
      members, check the others in order, stop at the first violation.  It
      fails exactly when some member violates, and then reports the first
      violating member. */
  function CheckMembers(terms: set<string>, kind: TermType, ms: seq<Member>): (r: Outcome)
    ensures r.Pass? <==> forall i :: 0 <= i < |ms| ==> !MemberViolates(terms, ms[i])
    ensures r.Fail? ==>
      exists i :: 0 <= i < |ms| && MemberViolates(terms, ms[i])
                  && r.message == Violation(kind, ms[i].name)
                  && forall j :: 0 <= j < i ==> !MemberViolates(terms, ms[j])
  {
    if ms == [] then Pass
    else
      var first := if ms[0].ignored then Pass else CheckName(terms, kind, ms[0].name);
      if first.Fail? then first
      else
        var r := CheckMembers(terms, kind, ms[1..]);
        FirstViolationShift(terms, kind, ms, r);
        r
  }

  /** Shifts the first violation of the tail `ms[1..]` to its index in `ms`
      when the head does not violate. */
  lemma FirstViolationShift(terms: set<string>, kind: TermType, ms: seq<Member>, r: Outcome)
    requires |ms| > 0 && !MemberViolates(terms, ms[0])
    requires r.Pass? <==> forall i :: 0 <= i < |ms[1..]| ==> !MemberViolates(terms, ms[1..][i])
    requires r.Fail? ==>
      exists i :: 0 <= i < |ms[1..]| && MemberViolates(terms, ms[1..][i])
                  && r.message == Violation(kind, ms[1..][i].name)
                  && forall j :: 0 <= j < i ==> !MemberViolates(terms, ms[1..][j])
    ensures r.Pass? <==> forall i :: 0 <= i < |ms| ==> !MemberViolates(terms, ms[i])
    ensures r.Fail? ==>
      exists i :: 0 <= i < |ms| && MemberViolates(terms, ms[i])
                  && r.message == Violation(kind, ms[i].name)
                  && forall j :: 0 <= j < i ==> !MemberViolates(terms, ms[j])
  {
    assert forall i :: 1 <= i < |ms| ==> ms[i] == ms[1..][i - 1];
    if r.Fail? {
      var i :| 0 <= i < |ms[1..]| && MemberViolates(terms, ms[1..][i])
               && r.message == Violation(kind, ms[1..][i].name)
               && forall j :: 0 <= j < i ==> !MemberViolates(terms, ms[1..][j]);
      assert MemberViolates(terms, ms[i + 1]);
    }
  }

  /** `checkMethods`: the declared methods, reported as `Method`. */
  function CheckMethods(terms: set<string>, c: ClassInfo): (r: Outcome)
    ensures r.Pass? <==> forall i :: 0 <= i < |c.methods| ==> !MemberViolates(terms, c.methods[i])
    ensures r.Fail? ==>
      exists i :: 0 <= i < |c.methods| && MemberViolates(terms, c.methods[i])
                  && r.message == Violation(Method, c.methods[i].name)
                  && forall j :: 0 <= j < i ==> !MemberViolates(terms, c.methods[j])
  {
    CheckMembers(terms, Method, c.methods)
  }

  /** `checkFields`: the declared fields, reported as `Field`. */
  function CheckFields(terms: set<string>, c: ClassInfo): (r: Outcome)
    ensures r.Pass? <==> forall i :: 0 <= i < |c.fields| ==> !MemberViolates(terms, c.fields[i])
    ensures r.Fail? ==>
      exists i :: 0 <= i < |c.fields| && MemberViolates(terms, c.fields[i])
                  && r.message == Violation(Field, c.fields[i].name)
                  && forall j :: 0 <= j < i ==> !MemberViolates(terms, c.fields[j])
  {
    CheckMembers(terms, Field, c.fields)
  }

  /** Fail-fast over a concatenation: the members after a violation are
      never looked at, and a clean prefix hands over to the rest. */
  lemma {:induction false} CheckMembersAppend(terms: set<string>, kind: TermType, a: seq<Member>, b: seq<Member>)
    ensures CheckMembers(terms, kind, a + b)
            == if CheckMembers(terms, kind, a).Fail? then CheckMembers(terms, kind, a) else CheckMembers(terms, kind, b)
    decreases |a|
  {
    if a == [] {
      assert a + b == b;
    } else {
      assert (a + b)[0] == a[0];
      assert (a + b)[1..] == a[1..] + b;
      CheckMembersAppend(terms, kind, a[1..], b);
    }
  }

  /** An exempt member never matters, whatever its name: renaming it leaves
      the outcome unchanged. */
  lemma {:induction false} IgnoredMemberIrrelevant(terms: set<string>, kind: TermType, ms: seq<Member>, i: nat, newName: string)
    requires i < |ms| && ms[i].ignored
    ensures CheckMembers(terms, kind, ms[i := Member(newName, true)]) == CheckMembers(terms, kind, ms)
    decreases i
  {
    var ms' := ms[i := Member(newName, true)];
    if i > 0 {
      assert ms'[1..] == ms[1..][i - 1 := Member(newName, true)];
      IgnoredMemberIrrelevant(terms, kind, ms[1..], i - 1, newName);
    } else {
      assert ms'[1..] == ms[1..];
    }
  }
}
