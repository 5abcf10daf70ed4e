/** The category of a checked identifier.  It carries no behaviour beyond the
    display label that starts a violation message. */
module TermTypes {

  datatype TermType = Class | Method | Field

  /** The label each enum constant is built with. */
  function Label(t: TermType): (r: string)
    ensures |r| > 0
  {
    match t
    case Class => "Class"
    case Method => "Method"
    case Field => "Field"
  }

  /** The label texts, as the enum constants spell them. */
  lemma LabelTexts()
    ensures Label(Class) == "Class" && Label(Method) == "Method" && Label(Field) == "Field"
  {
  }

  /** Different categories never share a label, and they already differ in
      their first letter. */
  lemma LabelDeterminesType(a: TermType, b: TermType)
    ensures Label(a)[0] == Label(b)[0] ==> a == b
  {
  }
}
