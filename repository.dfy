/**
  The policy repository: a base index built at start-up from the original and
  the modified policy trees, a patient index filled by the add*PolicySet entry
  points, the set of first rule ids seen so far, and the two lookups the
  decision engine uses.

  The functions on `State` specify every operation; class PolicyRepository
  carries the same state in fields and its methods are proved against them.
 */
module Repository {
  import opened Wrappers
  import opened Text
  import opened PolicyTypes
  import opened Templates

  /**
    What the repository reads but does not own: for each directory, the
    lower-cased paths Files.walk yields below it; the text of each file by
    lower-cased path; and PolicyMarshaller.unmarshal, which may reject a text.
   */
  datatype Env = Env(walks: map<string, seq<string>>,
                     files: map<string, string>,
                     unmarshal: string -> Option<Evaluatable>)

  datatype Target = Basis | Patient

  datatype State = State(basis: map<EvaluatableId, Evaluatable>,
                         patient: map<EvaluatableId, Evaluatable>,
                         ruleIds: set<string>)

  const EmptyState := State(map[], map[], {})

  function TargetMap(st: State, target: Target): map<EvaluatableId, Evaluatable>
  {
    if target == Basis then st.basis else st.patient
  }

  function Other(target: Target): Target
  {
    if target == Basis then Patient else Basis
  }

  /** Every entry of an index is keyed by its own identity. */
  ghost predicate KeyedById(m: map<EvaluatableId, Evaluatable>)
  {
    forall k :: k in m ==> m[k].id == k
  }

  /** Every policy of an index has rules, and its first rule id has been recorded. */
  ghost predicate FirstRulesRecorded(m: map<EvaluatableId, Evaluatable>, ruleIds: set<string>)
  {
    forall k :: k in m && m[k].Policy? ==> |m[k].ruleIds| > 0 && m[k].ruleIds[0] in ruleIds
  }

  ghost predicate ValidState(st: State)
  {
    && KeyedById(st.basis) && KeyedById(st.patient)
    && FirstRulesRecorded(st.basis, st.ruleIds) && FirstRulesRecorded(st.patient, st.ruleIds)
  }

  /** A document registerPolicy can take: a policy needs a first rule. */
  predicate Registrable(doc: Evaluatable)
  {
    doc.Policy? ==> |doc.ruleIds| > 0
  }

  /** The first rule ids a document contributes. */
  function FirstRuleId(doc: Evaluatable): set<string>
  {
    if doc.Policy? && |doc.ruleIds| > 0 then {doc.ruleIds[0]} else {}
  }

  datatype Registered = Registered(state: State, report: Report)

  /** Unmarshalling and the first-rule lookup of registerPolicy, with the ways they fail. */
  function Parse(path: string, xml: string, unmarshal: string -> Option<Evaluatable>): (r: Result<Evaluatable, Error>)
    ensures r.Success? <==> unmarshal(xml).Some? && Registrable(unmarshal(xml).value)
    ensures r.Success? ==> r.value == unmarshal(xml).value
    ensures r.Failure? ==> r.error == (if unmarshal(xml).None? then ParseError(path) else NoRules(path))
  {
    match unmarshal(xml)
    case None => Failure(ParseError(path))
    case Some(doc) => if Registrable(doc) then Success(doc) else Failure(NoRules(path))
  }

  /**
    The state change of registerPolicy: the rule-id set gains the first rule
    id of a policy, then the document is put into the target index under its
    identity.
   */
  function Insert(st: State, target: Target, doc: Evaluatable): (r: Registered)
    requires Registrable(doc)
    ensures TargetMap(r.state, target) == TargetMap(st, target)[doc.id := doc]
    ensures TargetMap(r.state, Other(target)) == TargetMap(st, Other(target))
    ensures r.report.replaced <==> doc.id in TargetMap(st, target)
    ensures doc.Policy? ==> r.state.ruleIds == st.ruleIds + {doc.ruleIds[0]}
    ensures doc.Policy? ==> (r.report.duplicateRuleId <==> doc.ruleIds[0] in st.ruleIds)
    ensures doc.PolicySet? ==> r.state.ruleIds == st.ruleIds && !r.report.duplicateRuleId
    ensures ValidState(st) ==> ValidState(r.state)
  {
    var ruleIds := st.ruleIds + FirstRuleId(doc);
    var duplicate := doc.Policy? && doc.ruleIds[0] in st.ruleIds;
    var replaced := doc.id in TargetMap(st, target);
    var state := if target == Basis then State(st.basis[doc.id := doc], st.patient, ruleIds)
                 else State(st.basis, st.patient[doc.id := doc], ruleIds);
    Registered(state, Report(replaced, duplicate))
  }

  /** Registering a document the target index already holds, with its rule id recorded, changes nothing. */
  lemma InsertAgain(st: State, target: Target, doc: Evaluatable)
    requires Registrable(doc) && doc.id in TargetMap(st, target) && TargetMap(st, target)[doc.id] == doc
    requires FirstRuleId(doc) <= st.ruleIds
    ensures Insert(st, target, doc).state == st
    ensures Insert(st, target, doc).report.replaced
  {
    assert TargetMap(st, target)[doc.id := doc] == TargetMap(st, target);
  }

  /** registerPolicy on a text: Parse, then Insert into the target index. */
  function Register(st: State, target: Target, path: string, xml: string,
                    unmarshal: string -> Option<Evaluatable>): Result<Registered, Error>
  {
    match Parse(path, xml, unmarshal)
    case Failure(e) => Failure(e)
    case Success(doc) => Success(Insert(st, target, doc))
  }

  /** Reading and parsing one base policy file. */
  function ReadAndParse(path: string, env: Env): Result<Evaluatable, Error>
  {
    if path !in env.files then Failure(ReadError(path)) else Parse(path, env.files[path], env.unmarshal)
  }

  /** The state after a load, and whether the load ran to the end. */
  datatype Loaded = Loaded(state: State, outcome: Outcome<Error>)

  /**
    The loop of loadBasePolicies: each file is read and registered into the
    base index in turn; the first failure ends the loop, keeping what the
    files before it registered.
   */
  function LoadFiles(st: State, paths: seq<string>, env: Env): Loaded
    decreases |paths|
  {
    if paths == [] then Loaded(st, Pass)
    else
      match ReadAndParse(paths[0], env)
      case Failure(e) => Loaded(st, Fail(e))
      case Success(doc) => LoadFiles(Insert(st, Basis, doc).state, paths[1..], env)
  }

  /** The files of a walk that loadBasePolicies loads: those whose path ends in ".xml". */
  function XmlFiles(walk: seq<string>): (r: seq<string>)
    ensures forall p :: multiset(r)[p] == if EndsWith(p, ".xml") then multiset(walk)[p] else 0
  {
    Filter(walk, p => EndsWith(p, ".xml"))
  }

  /** loadBasePolicies(dirName). */
  function LoadBase(st: State, dirName: string, env: Env): Loaded
  {
    var root := BasePolicyRoot(dirName);
    if root !in env.walks then Loaded(st, Fail(WalkError(root)))
    else LoadFiles(st, XmlFiles(env.walks[root]), env)
  }

  /** The constructor: the original tree, then the modified tree, into one base index. */
  function Construct(env: Env): Result<State, Error>
  {
    var original := LoadBase(EmptyState, OriginalDirName, env);
    if original.outcome.Fail? then Failure(original.outcome.error)
    else
      var modified := LoadBase(original.state, ModifiedDirName, env);
      if modified.outcome.Fail? then Failure(modified.outcome.error)
      else Success(modified.state)
  }

  /** The one patient template an entry point selects, with its text. */
  function TemplateText(e: EntryPoint, env: Env): Result<(string, string), Error>
  {
    var root := PatientTemplateRoot(DirName(e));
    if root !in env.walks then Failure(WalkError(root))
    else
      match ChooseTemplate(env.walks[root], TemplateId(e))
      case Failure(err) => Failure(err)
      case Success(fn) => if fn !in env.files then Failure(ReadError(fn)) else Success((fn, env.files[fn]))
  }

  /** addPatientPolicy for one entry point: select, read, instantiate, register. */
  function AddPatient(st: State, e: EntryPoint, env: Env): Result<Registered, Error>
    requires LiteralReplacement(e.eprSpid)
  {
    match TemplateText(e, env)
    case Failure(err) => Failure(err)
    case Success(template) => Register(st, Patient, template.0, Instantiate(e, template.1), env.unmarshal)
  }

  // ---------------------------------------------------------------------------
  // Reference definitions: loading as "parse every file, then index them".

  /** The documents of the files, in order, or the first failure. */
  function ParseDocs(paths: seq<string>, env: Env): (r: Result<seq<Evaluatable>, Error>)
    ensures r.Success? ==> |r.value| == |paths| && forall i :: 0 <= i < |r.value| ==> Registrable(r.value[i])
    ensures r.Success? ==> forall i :: 0 <= i < |paths| ==> ReadAndParse(paths[i], env) == Success(r.value[i])
    ensures r.Failure? ==> exists i :: 0 <= i < |paths| && ReadAndParse(paths[i], env) == Failure(r.error) &&
                                       forall j :: 0 <= j < i ==> ReadAndParse(paths[j], env).Success?
    decreases |paths|
  {
    if paths == [] then Success([])
    else
      match ReadAndParse(paths[0], env)
      case Failure(e) => Failure(e)
      case Success(doc) =>
        assert forall i :: 1 <= i < |paths| ==> paths[1..][i - 1] == paths[i];
        match ParseDocs(paths[1..], env)
        case Failure(e) =>
          ParseFailureShift(paths, env, e);
          Failure(e)
        case Success(docs) => Success([doc] + docs)
  }

  /** The first failing file of the tail is, one place later, the first failing file of the list. */
  lemma ParseFailureShift(paths: seq<string>, env: Env, e: Error)
    requires |paths| >= 1 && ReadAndParse(paths[0], env).Success?
    requires exists i :: 0 <= i < |paths[1..]| && ReadAndParse(paths[1..][i], env) == Failure(e) &&
                         forall j :: 0 <= j < i ==> ReadAndParse(paths[1..][j], env).Success?
    ensures exists i :: 0 <= i < |paths| && ReadAndParse(paths[i], env) == Failure(e) &&
                        forall j :: 0 <= j < i ==> ReadAndParse(paths[j], env).Success?
  {
    var i :| 0 <= i < |paths[1..]| && ReadAndParse(paths[1..][i], env) == Failure(e) &&
             forall j :: 0 <= j < i ==> ReadAndParse(paths[1..][j], env).Success?;
    assert ReadAndParse(paths[i + 1], env) == Failure(e);
    forall j | 0 <= j < i + 1 ensures ReadAndParse(paths[j], env).Success? {
      if j > 0 {
        assert paths[j] == paths[1..][j - 1];
      }
    }
  }

  /** The documents a variant's base tree holds. */
  function BaseDocs(dirName: string, env: Env): Result<seq<Evaluatable>, Error>
  {
    var root := BasePolicyRoot(dirName);
    if root !in env.walks then Failure(WalkError(root)) else ParseDocs(XmlFiles(env.walks[root]), env)
  }

  /** Putting the documents into an index one after the other, each under its identity. */
  function IndexAll(m: map<EvaluatableId, Evaluatable>, docs: seq<Evaluatable>): map<EvaluatableId, Evaluatable>
    decreases |docs|
  {
    if docs == [] then m else IndexAll(m[docs[0].id := docs[0]], docs[1..])
  }

  function FirstRuleIds(docs: seq<Evaluatable>): set<string>
    decreases |docs|
  {
    if docs == [] then {} else FirstRuleId(docs[0]) + FirstRuleIds(docs[1..])
  }

  lemma {:induction false} FirstRuleIdsAppend(a: seq<Evaluatable>, b: seq<Evaluatable>)
    ensures FirstRuleIds(a + b) == FirstRuleIds(a) + FirstRuleIds(b)
    decreases |a|
  {
    if a == [] {
      assert a + b == b;
    } else {
      assert (a + b)[0] == a[0] && (a + b)[1..] == a[1..] + b;
      FirstRuleIdsAppend(a[1..], b);
    }
  }

  /**
    Loading a list of files is parsing them all and indexing the documents in
    order: the same error when one fails, and otherwise the same base index
    and rule ids. The patient index is never touched.
   */
  lemma {:induction false} LoadFilesIsParseThenIndex(st: State, paths: seq<string>, env: Env)
    ensures LoadFiles(st, paths, env).state.patient == st.patient
    ensures LoadFiles(st, paths, env).outcome.Pass? <==> ParseDocs(paths, env).Success?
    ensures LoadFiles(st, paths, env).outcome.Fail? ==>
              LoadFiles(st, paths, env).outcome.error == ParseDocs(paths, env).error
    ensures ParseDocs(paths, env).Success? ==>
              && LoadFiles(st, paths, env).state.basis == IndexAll(st.basis, ParseDocs(paths, env).value)
              && LoadFiles(st, paths, env).state.ruleIds == st.ruleIds + FirstRuleIds(ParseDocs(paths, env).value)
    decreases |paths|
  {
    if paths != [] {
      match ReadAndParse(paths[0], env)
      case Failure(e) =>
      case Success(doc) =>
        var next := Insert(st, Basis, doc).state;
        LoadFilesIsParseThenIndex(next, paths[1..], env);
        if ParseDocs(paths, env).Success? {
          var docs := ParseDocs(paths[1..], env).value;
          assert ParseDocs(paths, env).value == [doc] + docs;
          assert ([doc] + docs)[1..] == docs;
          assert FirstRuleIds([doc] + docs) == FirstRuleId(doc) + FirstRuleIds(docs);
        }
    }
  }

  lemma {:induction false} IndexAllAppend(m: map<EvaluatableId, Evaluatable>, a: seq<Evaluatable>, b: seq<Evaluatable>)
    ensures IndexAll(m, a + b) == IndexAll(IndexAll(m, a), b)
    decreases |a|
  {
    if a == [] {
      assert a + b == b;
    } else {
      assert (a + b)[0] == a[0] && (a + b)[1..] == a[1..] + b;
      IndexAllAppend(m[a[0].id := a[0]], a[1..], b);
    }
  }

  /** An identity no document carries keeps its entry, or its absence. */
  lemma {:induction false} IndexAllUntouched(m: map<EvaluatableId, Evaluatable>, docs: seq<Evaluatable>, k: EvaluatableId)
    requires forall i :: 0 <= i < |docs| ==> docs[i].id != k
    ensures k in IndexAll(m, docs) <==> k in m
    ensures k in m ==> IndexAll(m, docs)[k] == m[k]
    decreases |docs|
  {
    if docs != [] {
      IndexAllUntouched(m[docs[0].id := docs[0]], docs[1..], k);
    }
  }

  /** Last write wins: an identity maps to the last document that carries it. */
  lemma {:induction false} IndexAllLastWins(m: map<EvaluatableId, Evaluatable>, docs: seq<Evaluatable>, j: int)
    requires 0 <= j < |docs|
    ensures docs[j].id in IndexAll(m, docs)
    ensures exists i :: j <= i < |docs| && IndexAll(m, docs)[docs[j].id] == docs[i] &&
                        forall l :: i < l < |docs| ==> docs[l].id != docs[j].id
    decreases |docs|
  {
    var k := docs[j].id;
    var m' := m[docs[0].id := docs[0]];
    assert IndexAll(m, docs) == IndexAll(m', docs[1..]);
    if j > 0 {
      IndexAllLastWins(m', docs[1..], j - 1);
      var i :| j - 1 <= i < |docs[1..]| && IndexAll(m', docs[1..])[k] == docs[1..][i] &&
               forall l :: i < l < |docs[1..]| ==> docs[1..][l].id != k;
      assert forall l :: i + 1 < l < |docs| ==> docs[l].id == docs[1..][l - 1].id;
      assert IndexAll(m, docs)[k] == docs[i + 1];
    } else if l :| 1 <= l < |docs| && docs[l].id == k {
      IndexAllLastWins(m', docs[1..], l - 1);
      var i :| l - 1 <= i < |docs[1..]| && IndexAll(m', docs[1..])[k] == docs[1..][i] &&
               forall l' :: i < l' < |docs[1..]| ==> docs[1..][l'].id != k;
      assert forall l' :: i + 1 < l' < |docs| ==> docs[l'].id == docs[1..][l' - 1].id;
      assert IndexAll(m, docs)[k] == docs[i + 1];
    } else {
      IndexAllUntouched(m', docs[1..], k);
      assert IndexAll(m, docs)[k] == docs[0];
    }
  }

  /**
    Construction succeeds exactly when both trees can be walked, read and
    parsed; the base index then indexes the original documents followed by
    the modified ones, the patient index is empty, and the rule-id set holds
    their first rule ids.
   */
  lemma ConstructIndexesBothTrees(env: Env)
    ensures Construct(env).Success? <==>
              BaseDocs(OriginalDirName, env).Success? && BaseDocs(ModifiedDirName, env).Success?
    ensures Construct(env).Success? ==>
              var docs := BaseDocs(OriginalDirName, env).value + BaseDocs(ModifiedDirName, env).value;
              Construct(env).value == State(IndexAll(map[], docs), map[], FirstRuleIds(docs))
  {
    var original := LoadBase(EmptyState, OriginalDirName, env);
    var rootO := BasePolicyRoot(OriginalDirName);
    var rootM := BasePolicyRoot(ModifiedDirName);
    if rootO in env.walks {
      LoadFilesIsParseThenIndex(EmptyState, XmlFiles(env.walks[rootO]), env);
      if original.outcome.Pass? && rootM in env.walks {
        LoadFilesIsParseThenIndex(original.state, XmlFiles(env.walks[rootM]), env);
        if Construct(env).Success? {
          var a, b := BaseDocs(OriginalDirName, env).value, BaseDocs(ModifiedDirName, env).value;
          IndexAllAppend(map[], a, b);
          FirstRuleIdsAppend(a, b);
        }
      }
    }
  }

  /** Indexing `a` and then `b`: an identity `b` carries maps to one of `b`'s documents. */
  lemma LaterDocumentsWin(m: map<EvaluatableId, Evaluatable>, a: seq<Evaluatable>, b: seq<Evaluatable>, j: int)
    requires 0 <= j < |b|
    ensures b[j].id in IndexAll(m, a + b)
    ensures exists i :: j <= i < |b| && IndexAll(m, a + b)[b[j].id] == b[i]
  {
    IndexAllAppend(m, a, b);
    IndexAllLastWins(IndexAll(m, a), b, j);
  }

  /** The modified tree wins: an identity it holds maps to one of its documents. */
  lemma ModifiedTreeWins(env: Env, j: int)
    requires Construct(env).Success?
    requires BaseDocs(ModifiedDirName, env).Success? && 0 <= j < |BaseDocs(ModifiedDirName, env).value|
    ensures var mods := BaseDocs(ModifiedDirName, env).value;
            mods[j].id in Construct(env).value.basis &&
            exists i :: j <= i < |mods| && Construct(env).value.basis[mods[j].id] == mods[i]
  {
    ConstructIndexesBothTrees(env);
    LaterDocumentsWin(map[], BaseDocs(OriginalDirName, env).value, BaseDocs(ModifiedDirName, env).value, j);
  }

  /** An identity only the original tree holds maps to one of its documents. */
  lemma OriginalKeptUnlessModified(env: Env, j: int)
    requires Construct(env).Success?
    requires BaseDocs(OriginalDirName, env).Success? && 0 <= j < |BaseDocs(OriginalDirName, env).value|
    requires BaseDocs(ModifiedDirName, env).Success?
    requires forall i :: 0 <= i < |BaseDocs(ModifiedDirName, env).value| ==>
               BaseDocs(ModifiedDirName, env).value[i].id != BaseDocs(OriginalDirName, env).value[j].id
    ensures var origs := BaseDocs(OriginalDirName, env).value;
            origs[j].id in Construct(env).value.basis &&
            exists i :: j <= i < |origs| && Construct(env).value.basis[origs[j].id] == origs[i]
  {
    ConstructIndexesBothTrees(env);
    var origs, mods := BaseDocs(OriginalDirName, env).value, BaseDocs(ModifiedDirName, env).value;
    IndexAllAppend(map[], origs, mods);
    IndexAllLastWins(map[], origs, j);
    IndexAllUntouched(IndexAll(map[], origs), mods, origs[j].id);
  }

  /**
    The template an entry point uses is the one file its family selects in
    its variant's template tree; zero or several selected files fail with
    the family id and the count.
   */
  lemma TemplateTextSelectsOne(e: EntryPoint, env: Env)
    ensures var root := PatientTemplateRoot(DirName(e));
            TemplateText(e, env).Success? <==>
              && root in env.walks
              && |SelectTemplates(env.walks[root], TemplateId(e))| == 1
              && SelectTemplates(env.walks[root], TemplateId(e))[0] in env.files
    ensures var root := PatientTemplateRoot(DirName(e));
            TemplateText(e, env).Success? ==>
              var fn := TemplateText(e, env).value.0;
              && Selected(fn, TemplateId(e)) && fn in env.walks[root]
              && TemplateText(e, env).value.1 == env.files[fn]
    ensures var root := PatientTemplateRoot(DirName(e));
            root in env.walks && |SelectTemplates(env.walks[root], TemplateId(e))| != 1 ==>
              TemplateText(e, env) == Failure(TemplateCount(TemplateId(e), |SelectTemplates(env.walks[root], TemplateId(e))|))
  {
  }

  /**
    A successful patient registration puts the instantiated, parsed template
    into the patient index under its identity; the base index is not
    touched; the replace flag says whether the identity was already a
    patient key.
   */
  lemma AddPatientEffect(st: State, e: EntryPoint, env: Env)
    requires LiteralReplacement(e.eprSpid) && AddPatient(st, e, env).Success?
    ensures TemplateText(e, env).Success?
    ensures env.unmarshal(Instantiate(e, TemplateText(e, env).value.1)).Some?
    ensures var doc := env.unmarshal(Instantiate(e, TemplateText(e, env).value.1)).value;
            var r := AddPatient(st, e, env).value;
            && r.state.patient == st.patient[doc.id := doc]
            && r.state.basis == st.basis
            && (r.report.replaced <==> doc.id in st.patient)
            && r.state.ruleIds == st.ruleIds + FirstRuleId(doc)
  {
  }

  /** A failed template lookup fails the call with that error: it yields no new state. */
  lemma AddPatientFailureFromTemplate(st: State, e: EntryPoint, env: Env)
    requires LiteralReplacement(e.eprSpid) && TemplateText(e, env).Failure?
    ensures AddPatient(st, e, env) == Failure(TemplateText(e, env).error)
  {
  }

  /**
    addModified304PolicySet is addOriginal304PolicySet: the same template,
    the same filling and the same registration, whatever homeCommunityId is.
   */
  lemma Modified304SameCall(st: State, eprSpid: string, gln: string, fromDate: string, toDate: string,
                            level: string, homeCommunityId: string, env: Env)
    requires LiteralReplacement(eprSpid)
    ensures AddPatient(st, Modified304(eprSpid, gln, fromDate, toDate, level, homeCommunityId), env) ==
            AddPatient(st, Original304(eprSpid, gln, fromDate, toDate, level), env)
  {
    var m := Modified304(eprSpid, gln, fromDate, toDate, level, homeCommunityId);
    var o := Original304(eprSpid, gln, fromDate, toDate, level);
    Modified304AsOriginal(eprSpid, gln, fromDate, toDate, level, homeCommunityId, "");
    assert TemplateText(m, env) == TemplateText(o, env);
    if TemplateText(m, env).Success? {
      var raw := TemplateText(m, env).value.1;
      var xml := SubstituteSpid(raw, eprSpid);
      Modified304AsOriginal(eprSpid, gln, fromDate, toDate, level, homeCommunityId, xml);
      assert Instantiate(m, raw) == Fill(m, xml) == Fill(o, xml) == Instantiate(o, raw);
    }
  }

  /**
    Running the same entry point twice: the second call replaces the first
    call's document, leaves the state as the first call left it (one
    document for that identity), and reports a policy's first rule id as a
    duplicate.
   */
  lemma AddPatientTwiceReplaces(st: State, e: EntryPoint, env: Env)
    requires LiteralReplacement(e.eprSpid) && AddPatient(st, e, env).Success?
    ensures TemplateText(e, env).Success? && env.unmarshal(Instantiate(e, TemplateText(e, env).value.1)).Some?
    ensures var first := AddPatient(st, e, env).value;
            var doc := env.unmarshal(Instantiate(e, TemplateText(e, env).value.1)).value;
            AddPatient(first.state, e, env).Success? &&
            var second := AddPatient(first.state, e, env).value;
            && second.report.replaced
            && second.state == first.state
            && (second.report.duplicateRuleId <==> doc.Policy?)
  {
    AddPatientEffect(st, e, env);
    var first := AddPatient(st, e, env).value;
    var template := TemplateText(e, env).value;
    var xml := Instantiate(e, template.1);
    var doc := env.unmarshal(xml).value;
    assert AddPatient(first.state, e, env) == Success(Insert(first.state, Patient, doc));
    InsertAgain(first.state, Patient, doc);
  }

  /**
    `docs` lists the documents of `keys`, pairwise distinct keys drawn from
    `index`, and `keys` holds exactly the keys in `done`.
   */
  ghost predicate Listing(index: map<EvaluatableId, Evaluatable>, done: set<EvaluatableId>,
                          keys: seq<EvaluatableId>, docs: seq<Evaluatable>)
  {
    && |keys| == |docs| == |done|
    && (forall i :: 0 <= i < |keys| ==> keys[i] in done && keys[i] in index && docs[i] == index[keys[i]])
    && (forall k :: k in done ==> k in keys)
    && (forall i, j :: 0 <= i < j < |keys| ==> keys[i] != keys[j])
  }

  lemma ListingStep(index: map<EvaluatableId, Evaluatable>, done: set<EvaluatableId>,
                    keys: seq<EvaluatableId>, docs: seq<Evaluatable>, k: EvaluatableId)
    requires Listing(index, done, keys, docs) && k in index && k !in done
    ensures Listing(index, done + {k}, keys + [k], docs + [index[k]])
  {
    var keys', docs' := keys + [k], docs + [index[k]];
    forall i | 0 <= i < |keys'|
      ensures keys'[i] in done + {k} && keys'[i] in index && docs'[i] == index[keys'[i]]
    {
      if i < |keys| {
        assert keys'[i] == keys[i] && docs'[i] == docs[i];
      }
    }
    forall i, j | 0 <= i < j < |keys'| ensures keys'[i] != keys'[j] {
      if j < |keys| {
        assert keys'[i] == keys[i] && keys'[j] == keys[j];
      } else {
        assert keys'[i] == keys[i] && keys[i] in done;
      }
    }
    forall x | x in done + {k} ensures x in keys' {
      if x in done {
        var i :| 0 <= i < |keys| && keys[i] == x;
        assert keys'[i] == x;
      } else {
        assert keys'[|keys|] == x;
      }
    }
  }

  lemma ListingComplete(index: map<EvaluatableId, Evaluatable>, keys: seq<EvaluatableId>, docs: seq<Evaluatable>)
    requires KeyedById(index) && Listing(index, index.Keys, keys, docs)
    ensures |docs| == |index|
    ensures forall d :: d in docs <==> d in index.Values
    ensures forall i, j :: 0 <= i < j < |docs| ==> docs[i] != docs[j]
  {
    forall d | d in index.Values ensures d in docs {
      var k :| k in index && index[k] == d;
      var i :| 0 <= i < |keys| && keys[i] == k;
      assert docs[i] == d;
    }
    forall i, j | 0 <= i < j < |docs| ensures docs[i] != docs[j] {
      assert docs[i].id == keys[i] && docs[j].id == keys[j];
    }
  }

  /**
    new ArrayList<>(index.values()): one document per key, each exactly once,
    in no promised order.
   */
  method ValuesOf(index: map<EvaluatableId, Evaluatable>) returns (docs: seq<Evaluatable>)
    requires KeyedById(index)
    ensures |docs| == |index|
    ensures forall d :: d in docs <==> d in index.Values
    ensures forall i, j :: 0 <= i < j < |docs| ==> docs[i] != docs[j]
  {
    docs := [];
    var remaining := index.Keys;
    ghost var done: set<EvaluatableId> := {};
    ghost var keys: seq<EvaluatableId> := [];
    while remaining != {}
      invariant remaining !! done && remaining + done == index.Keys
      invariant Listing(index, done, keys, docs)
      decreases remaining
    {
      var k :| k in remaining;
      ListingStep(index, done, keys, docs, k);
      docs := docs + [index[k]];
      keys := keys + [k];
      remaining := remaining - {k};
      done := done + {k};
    }
    ListingComplete(index, keys, docs);
  }

  // ---------------------------------------------------------------------------

  class PolicyRepository {
    var basisPolicies: map<EvaluatableId, Evaluatable>
    var patientPolicies: map<EvaluatableId, Evaluatable>
    var ruleIds: set<string>

    function Snapshot(): State
      reads this
    {
      State(basisPolicies, patientPolicies, ruleIds)
    }

    ghost predicate Valid()
      reads this
    {
      ValidState(Snapshot())
    }

    /** The empty repository the field initialisers create. */
    constructor Empty()
      ensures Valid() && Snapshot() == EmptyState
    {
      basisPolicies := map[];
      patientPolicies := map[];
      ruleIds := {};
    }

    /** The public constructor: load the original tree, then the modified tree. */
    static method Create(env: Env) returns (res: Result<PolicyRepository, Error>)
      ensures Construct(env).Success? ==>
                res.Success? && fresh(res.value) && res.value.Valid() && res.value.Snapshot() == Construct(env).value
      ensures Construct(env).Failure? ==> res == Failure(Construct(env).error)
    {
      var repo := new PolicyRepository.Empty();
      var outcome := repo.LoadBasePolicies(OriginalDirName, env);
      if outcome.Fail? {
        return Failure(outcome.error);
      }
      outcome := repo.LoadBasePolicies(ModifiedDirName, env);
      if outcome.Fail? {
        return Failure(outcome.error);
      }
      res := Success(repo);
    }

    method RegisterPolicy(fn: string, xml: string, target: Target, unmarshal: string -> Option<Evaluatable>)
      returns (res: Result<Report, Error>)
      requires Valid()
      modifies this
      ensures Valid()
      ensures match Register(old(Snapshot()), target, fn, xml, unmarshal)
              case Success(reg) => res == Success(reg.report) && Snapshot() == reg.state
              case Failure(e) => res == Failure(e) && Snapshot() == old(Snapshot())
    {
      var parsed := unmarshal(xml);
      if parsed.None? {
        return Failure(ParseError(fn));
      }
      var doc := parsed.value;
      var duplicate := false;
      if doc.Policy? {
        if |doc.ruleIds| == 0 {
          return Failure(NoRules(fn));
        }
        var ruleId := doc.ruleIds[0];
        duplicate := ruleId in ruleIds;
        ruleIds := ruleIds + {ruleId};
      }
      var replace: bool;
      if target == Basis {
        replace := doc.id in basisPolicies;
        basisPolicies := basisPolicies[doc.id := doc];
      } else {
        replace := doc.id in patientPolicies;
        patientPolicies := patientPolicies[doc.id := doc];
      }
      res := Success(Report(replace, duplicate));
    }

    method LoadBasePolicies(dirName: string, env: Env) returns (outcome: Outcome<Error>)
      requires Valid()
      modifies this
      ensures Valid()
      ensures Loaded(Snapshot(), outcome) == LoadBase(old(Snapshot()), dirName, env)
    {
      var root := BasePolicyRoot(dirName);
      if root !in env.walks {
        return Fail(WalkError(root));
      }
      var policyFileNames := XmlFiles(env.walks[root]);
      for i := 0 to |policyFileNames|
        invariant Valid()
        invariant LoadFiles(Snapshot(), policyFileNames[i..], env) == LoadBase(old(Snapshot()), dirName, env)
      {
        var fn := policyFileNames[i];
        assert policyFileNames[i..][0] == fn && policyFileNames[i..][1..] == policyFileNames[i + 1..];
        if fn !in env.files {
          return Fail(ReadError(fn));
        }
        var registered := RegisterPolicy(fn, env.files[fn], Basis, env.unmarshal);
        if registered.Failure? {
          return Fail(registered.error);
        }
      }
      outcome := Pass;
    }

    /** One call of an add*PolicySet entry point, that is, addPatientPolicy. */
    method AddPolicySet(e: EntryPoint, env: Env) returns (res: Result<Report, Error>)
      requires Valid() && LiteralReplacement(e.eprSpid)
      modifies this
      ensures Valid()
      ensures match AddPatient(old(Snapshot()), e, env)
              case Success(reg) => res == Success(reg.report) && Snapshot() == reg.state
              case Failure(err) => res == Failure(err) && Snapshot() == old(Snapshot())
    {
      var root := PatientTemplateRoot(DirName(e));
      if root !in env.walks {
        return Failure(WalkError(root));
      }
      var chosen := ChooseTemplate(env.walks[root], TemplateId(e));
      if chosen.Failure? {
        return Failure(chosen.error);
      }
      var fn := chosen.value;
      if fn !in env.files {
        return Failure(ReadError(fn));
      }
      var xml := SubstituteSpid(env.files[fn], e.eprSpid);
      xml := Fill(e, xml);
      res := RegisterPolicy(fn, xml, Patient, env.unmarshal);
    }

    /** getEvaluatable: the base index first, then the patient index. */
    function GetEvaluatable(id: EvaluatableId): (r: Option<Evaluatable>)
      reads this
      ensures id in basisPolicies ==> r == Some(basisPolicies[id])
      ensures id !in basisPolicies && id in patientPolicies ==> r == Some(patientPolicies[id])
      ensures r.None? <==> id !in basisPolicies && id !in patientPolicies
    {
      if id in basisPolicies then Some(basisPolicies[id])
      else if id in patientPolicies then Some(patientPolicies[id])
      else None
    }

    /**
      getEvaluatables: a fresh sequence of the patient index's documents, one
      per identity, in no promised order; the request plays no part.
     */
    method GetEvaluatables<R>(request: R) returns (docs: seq<Evaluatable>)
      requires Valid()
      ensures |docs| == |patientPolicies|
      ensures forall d :: d in docs <==> d in patientPolicies.Values
      ensures forall i, j :: 0 <= i < j < |docs| ==> docs[i] != docs[j]
    {
      docs := ValuesOf(patientPolicies);
    }
  }
}
