/** `DefaultTermChecker`: decides whether one identifier contains a
    blacklisted term.  Only the identifier is lower-cased; the stored terms are
    compared as they are. */
module TermChecker {
  import opened Outcomes
  import opened TermTypes
  import opened JavaStrings

  /** The fixed text between the category label and the name. */
  const ViolationText := " name contains blacklisted term: "

  /** The message of the exception thrown for a violating name.  It names the
      category and the original (not lower-cased) identifier, but not the
      term that matched. */
  function Violation(kind: TermType, name: string): (m: string)
    ensures |m| == |Label(kind)| + |ViolationText| + |name|
    ensures Label(kind) <= m
    ensures m[|Label(kind)|..|Label(kind)| + |ViolationText|] == ViolationText
    ensures m[|m| - |name|..] == name
  {
    Label(kind) + ViolationText + name
  }

  /** Reference meaning of a violation: some stored term occurs in the
      lower-cased name. */
  ghost predicate Blacklisted(terms: set<string>, name: string) {
    exists t :: t in terms && IsSubstring(t, ToLower(name))
  }

  /** The loop of `checkName`, visiting the stored terms in the order
      `order` that the set happens to enumerate them, and throwing on the
      first term found in the lower-cased name. */
  function CheckNameOver(order: seq<string>, kind: TermType, name: string): (r: Outcome)
    ensures r.Pass? <==> forall i :: 0 <= i < |order| ==> !IsSubstring(order[i], ToLower(name))
    ensures r.Fail? ==> r.message == Violation(kind, name)
  {
    if order == [] then Pass
    else if Contains(ToLower(name), order[0]) then Fail(Violation(kind, name))
    else
      var r := CheckNameOver(order[1..], kind, name);
      assert forall i :: 1 <= i < |order| ==> order[i] == order[1..][i - 1];
      r
  }

  /** `checkName` on the stored term set: the name fails exactly when it
      contains some stored term after lower-casing, and the failure message
      is always the same one. */
  function CheckName(terms: set<string>, kind: TermType, name: string): (r: Outcome)
    ensures r.Fail? <==> Blacklisted(terms, name)
    ensures r.Fail? ==> r.message == Violation(kind, name)
    ensures terms == {} ==> r == Pass
  {
    if exists t :: t in terms && Contains(ToLower(name), t) then Fail(Violation(kind, name)) else Pass
  }

  /** Whatever order the hash set yields its terms in, the loop ends the same
      way: the exact outcome, message included, is fixed by the set. */
  lemma CheckNameAnyOrder(order: seq<string>, terms: set<string>, kind: TermType, name: string)
    requires forall t :: t in order <==> t in terms
    ensures CheckNameOver(order, kind, name) == CheckName(terms, kind, name)
  {
  }

  /** The message identifies the category and the exact identifier: two
      violations with the same text were raised for the same name in the
      same category. */
  lemma ViolationInjective(k1: TermType, n1: string, k2: TermType, n2: string)
    requires Violation(k1, n1) == Violation(k2, n2)
    ensures k1 == k2 && n1 == n2
  {
    assert Violation(k1, n1)[0] == Label(k1)[0];
    assert Violation(k2, n2)[0] == Label(k2)[0];
    LabelDeterminesType(k1, k2);
    assert Violation(k1, n1)[|Label(k1)| + |ViolationText|..] == n1;
    assert Violation(k2, n2)[|Label(k2)| + |ViolationText|..] == n2;
  }

  /** An empty term is contained in every name, so every check fails. */
  lemma EmptyTermRejectsEverything(terms: set<string>, kind: TermType, name: string)
    requires "" in terms
    ensures CheckName(terms, kind, name) == Fail(Violation(kind, name))
  {
    EmptyIsSubstring(ToLower(name));
  }

  /** Terms are not lower-cased at check time: a stored term with an
      upper-case letter can never match, so dropping it changes nothing. */
  lemma UpperTermNeverMatches(terms: set<string>, t: string, kind: TermType, name: string)
    requires HasUpper(t)
    ensures CheckName(terms + {t}, kind, name) == CheckName(terms, kind, name)
  {
    UpperNeverInLower(t, name);
    if Blacklisted(terms + {t}, name) {
      var u :| u in terms + {t} && IsSubstring(u, ToLower(name));
      assert u in terms;
    }
  }

  /** Pass or fail does not depend on the case of the name: checking the
      lower-cased name gives the same verdict. */
  lemma CheckNameCaseInsensitive(terms: set<string>, kind: TermType, name: string)
    ensures CheckName(terms, kind, name).Fail? <==> CheckName(terms, kind, ToLower(name)).Fail?
  {
    ToLowerIdempotent(name);
  }

  /** Matching is containment, not whole-word: the term "test" rejects the
      method name "reTesting". */
  lemma SubstringNotWholeWord()
    ensures CheckName({"test"}, Method, "reTesting")
            == Fail(Violation(Method, "reTesting"))
  {
    var l := ToLower("reTesting");
    assert l[2] == 't' && l[3] == 'e' && l[4] == 's' && l[5] == 't';
    assert l[2..6] == "test";
    assert OccursAt("test", l, 2);
    assert Blacklisted({"test"}, "reTesting");
  }
}
