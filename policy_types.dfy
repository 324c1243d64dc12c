/** The documents, reports and errors the repository deals in. */
module PolicyTypes {
  import opened Text

  /** EvaluatableID: the identity of a policy or policy set. */
  type EvaluatableId = string

  /**
    A parsed XACML document as far as the repository looks into it: a Policy
    with its rule ids in rule order, or a PolicySet.
   */
  datatype Evaluatable =
    | Policy(id: EvaluatableId, ruleIds: seq<string>)
    | PolicySet(id: EvaluatableId)

  /** What registering one document reports instead of logging it. */
  datatype Report = Report(replaced: bool, duplicateRuleId: bool)

  /** The exceptions the repository's operations end with. */
  datatype Error =
    | WalkError(root: string)            // Files.walk on a directory that cannot be walked
    | ReadError(path: string)            // FileInputStream on a path that cannot be opened
    | ParseError(path: string)           // PolicyMarshaller.unmarshal rejects the text
    | NoRules(path: string)              // getOrderedRules().getFirst() on a policy without rules
    | TemplateCount(templateId: int, count: nat)  // not exactly one patient template selected

  /**
    The message of the exception a TemplateCount error stands for: it names
    the error's family id and its count of selected files.
   */
  function TemplateCountMessage(e: Error): (m: string)
    requires e.TemplateCount?
    ensures Contains(m, IntToString(e.templateId))
    ensures Contains(m, IntToString(e.count))
  {
    var head := "Expected exactly one template with the ID ";
    var id := IntToString(e.templateId);
    var n := IntToString(e.count);
    var m := head + id + ", got " + n;
    assert OccursAt(m, id, |head|);
    assert OccursAt(m, n, |head| + |id| + 6);
    m
  }
}
